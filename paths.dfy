/** POSIX path strings as Python's `posixpath` treats them: `join` of two
    components, `basename` and `dirname`. Resolution of a metadata file is
    nothing more than these string operations. */
module Paths {

  const Separator: char := '/'

  /** True iff `s` contains no separator: a single path component. */
  predicate IsComponent(s: string) {
    forall i :: 0 <= i < |s| ==> s[i] != Separator
  }

  /** True iff `s` is made of separators only (the empty string included). */
  predicate AllSeparators(s: string) {
    forall i :: 0 <= i < |s| ==> s[i] == Separator
  }

  /** Index of the last separator in `p`, or -1 when there is none
      (`p.rfind('/')`). */
  function LastSeparator(p: string): (r: int)
    ensures -1 <= r < |p|
  {
    if p == [] then -1
    else if p[|p| - 1] == Separator then |p| - 1
    else LastSeparator(p[..|p| - 1])
  }

  /** `posixpath.join(a, b)`: an absolute `b` replaces `a`; otherwise one
      separator is inserted unless `a` is empty or already ends with one. */
  function Join(a: string, b: string): (r: string)
    ensures b != [] ==> r != [] && r[|r| - 1] == b[|b| - 1]
    ensures b != [] && b[0] != Separator && a != [] && a[|a| - 1] != Separator ==> r == a + [Separator] + b
  {
    if b != [] && b[0] == Separator then b
    else if a == [] || a[|a| - 1] == Separator then a + b
    else a + [Separator] + b
  }

  /** `posixpath.basename(p)`: everything after the last separator. */
  function Basename(p: string): string {
    p[LastSeparator(p) + 1..]
  }

  /** The index found is a separator and none follows it. */
  lemma {:induction false} LastSeparatorIsLast(p: string)
    ensures LastSeparator(p) >= 0 ==> p[LastSeparator(p)] == Separator
    ensures forall i :: LastSeparator(p) < i < |p| ==> p[i] != Separator
  {
    if p != [] && p[|p| - 1] != Separator {
      LastSeparatorIsLast(p[..|p| - 1]);
    }
  }

  /** The base name is a single component that ends the path, and unless it
      is the whole path a separator precedes it. */
  lemma BasenameEndsPath(p: string)
    ensures IsComponent(Basename(p))
    ensures |Basename(p)| <= |p| && Basename(p) == p[|p| - |Basename(p)|..]
    ensures |Basename(p)| < |p| ==> p[|p| - |Basename(p)| - 1] == Separator
  {
    var k := LastSeparator(p);
    var b := p[k + 1..];
    LastSeparatorIsLast(p);
    assert |b| == |p| - k - 1;
    forall i | 0 <= i < |b| ensures b[i] != Separator {
      assert b[i] == p[k + 1 + i];
    }
  }

  /** Drops trailing separators (`str.rstrip('/')`). */
  function StripTrailingSeparators(s: string): (r: string)
    ensures r == [] || r[|r| - 1] != Separator
    ensures |r| <= |s| && r == s[..|r|]
    ensures AllSeparators(s[|r|..])
  {
    if s != [] && s[|s| - 1] == Separator then
      var r := StripTrailingSeparators(s[..|s| - 1]);
      assert s[|r|..] == s[..|s| - 1][|r|..] + [Separator];
      r
    else s
  }

  /** `posixpath.dirname(p)`: everything up to and including the last
      separator, with the trailing separators removed unless that part is
      made of separators only. */
  function Dirname(p: string): string {
    var head := p[..LastSeparator(p) + 1];
    if head != [] && !AllSeparators(head) then StripTrailingSeparators(head) else head
  }

  /** The shapes `dirname` yields: empty, separators only, or a path that
      does not end with a separator. */
  predicate IsDirectoryForm(d: string) {
    d == [] || AllSeparators(d) || d[|d| - 1] != Separator
  }

  /** Every directory name has the shape of a directory. */
  lemma DirnameForm(p: string)
    ensures IsDirectoryForm(Dirname(p))
  {
  }

  /** A one-component name joined onto the empty directory has no
      directory. */
  lemma DirnameOfJoinEmpty(f: string)
    requires f != [] && IsComponent(f)
    ensures Dirname(Join([], f)) == []
  {
    assert Join([], f) == f;
    LastSeparatorIsLast(f);
    assert LastSeparator(f) == -1;
  }

  /** A one-component name joined onto the root (or onto any run of
      separators) has the root as its directory. */
  lemma DirnameOfJoinRoot(d: string, f: string)
    requires d != [] && AllSeparators(d)
    requires f != [] && IsComponent(f)
    ensures Dirname(Join(d, f)) == d
  {
    var p := Join(d, f);
    assert p == d + f;
    LastSeparatorIsLast(p);
    assert p[|d| - 1] == Separator;
    assert forall i :: |d| <= i < |p| ==> p[i] == f[i - |d|];
    assert LastSeparator(p) == |d| - 1;
    assert p[..|d|] == d;
  }

  /** A one-component name joined onto a directory that does not end in a
      separator has that directory as its directory. */
  lemma DirnameOfJoinPlain(d: string, f: string)
    requires d != [] && d[|d| - 1] != Separator
    requires f != [] && IsComponent(f)
    ensures Dirname(Join(d, f)) == d
  {
    var p := Join(d, f);
    assert p == d + [Separator] + f;
    assert p[|d|] == Separator;
    assert forall i :: |d| < i < |p| ==> p[i] == f[i - |d| - 1];
    var k := LastSeparator(p);
    LastSeparatorIsLast(p);
    assert k == |d|;
    var head := p[..k + 1];
    assert head == d + [Separator];
    assert head[|d| - 1] == d[|d| - 1];
    assert !AllSeparators(head);
    assert head[..|head| - 1] == d;
    assert StripTrailingSeparators(head) == StripTrailingSeparators(d);
  }

  /** The directory holding a one-component name joined onto a directory is
      that directory again: `dirname(join(d, f)) == d`. */
  lemma DirnameOfJoin(d: string, f: string)
    requires IsDirectoryForm(d)
    requires f != [] && IsComponent(f)
    ensures Dirname(Join(d, f)) == d
  {
    if d == [] {
      DirnameOfJoinEmpty(f);
    } else if AllSeparators(d) {
      DirnameOfJoinRoot(d, f);
    } else {
      DirnameOfJoinPlain(d, f);
    }
  }

  /** The base name of a path is the given name exactly when the path is that
      name alone or ends in a separator followed by it, whatever comes before:
      a comparison of whole components, not of suffixes. */
  lemma BasenameIs(p: string, name: string)
    requires name != [] && IsComponent(name)
    ensures Basename(p) == name <==>
      p == name || (|p| > |name| && p[|p| - |name| - 1] == Separator && p[|p| - |name|..] == name)
  {
    BasenameEndsPath(p);
  }

  /** Joining a single component onto any directory gives a path whose base
      name is that component. */
  lemma BasenameOfJoin(d: string, name: string)
    requires name != [] && IsComponent(name)
    ensures Basename(Join(d, name)) == name
  {
    var p := Join(d, name);
    BasenameIs(p, name);
    if d != [] && d[|d| - 1] != Separator {
      assert p == d + [Separator] + name;
      assert p[|p| - |name|..] == name;
    } else if d != [] {
      assert p == d + name;
      assert p[|p| - |name|..] == name;
    }
  }

  /** Both halves of a path built by joining a name onto a directory, for
      callers that cannot branch: the base name is the name whenever it is a
      single component, and the directory is the directory whenever that is
      in directory form as well. */
  lemma JoinParts(d: string, f: string)
    ensures f != [] && IsComponent(f) ==> Basename(Join(d, f)) == f
    ensures f != [] && IsComponent(f) && IsDirectoryForm(d) ==> Dirname(Join(d, f)) == d
  {
    if f != [] && IsComponent(f) {
      BasenameOfJoin(d, f);
      if IsDirectoryForm(d) {
        DirnameOfJoin(d, f);
      }
    }
  }
}

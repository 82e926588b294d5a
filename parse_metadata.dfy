/** The metadata description layer: label syntax, recognition of metadata
    files, the document built from a parsed `metadata.yaml`, the predicates
    derived from its labels, and the three ways of resolving a document. */
module ParseMetadata {
  import opened Wrappers
  import opened Paths

  /** The fixed name of every metadata file. */
  const MetadataFileName: string := "metadata.yaml"

  /** The label that marks a table for public JSON export. */
  const PublicJsonKey: string := "public_json"

  const MaxLabelLength: nat := 63

  // ---------------------------------------------------------------------
  // Label syntax

  /** Lower-case ASCII letter, ASCII digit, underscore or hyphen. */
  predicate IsLabelChar(c: char) {
    ('a' <= c <= 'z') || ('0' <= c <= '9') || c == '_' || c == '-'
  }

  /** Scans `s` once, from the front. */
  function AllLabelChars(s: string): (r: bool)
    ensures r <==> forall i :: 0 <= i < |s| ==> IsLabelChar(s[i])
  {
    if s == [] then true else IsLabelChar(s[0]) && AllLabelChars(s[1..])
  }

  /** `Metadata.is_valid_label`: between 1 and 63 characters, each of them a
      label character. */
  predicate IsValidLabel(s: string)
    ensures IsValidLabel(s) <==>
      1 <= |s| <= MaxLabelLength && forall i :: 0 <= i < |s| ==> IsLabelChar(s[i])
  {
    1 <= |s| <= MaxLabelLength && AllLabelChars(s)
  }

  /** `n` copies of `c`, as Python's `c * n`. */
  function Repeat(c: char, n: nat): (r: string)
    ensures |r| == n && forall i :: 0 <= i < n ==> r[i] == c
  {
    if n == 0 then [] else [c] + Repeat(c, n - 1)
  }

  // ---------------------------------------------------------------------
  // Metadata-file recognition

  /** `Metadata.is_metadata_file`: the base name of the path is exactly
      `metadata.yaml`. */
  predicate IsMetadataFile(path: string) {
    Basename(path) == MetadataFileName
  }

  /** A path is a metadata file exactly when it is `metadata.yaml` itself or
      ends with `/metadata.yaml`, whatever directories precede it. */
  lemma IsMetadataFileIff(path: string)
    ensures IsMetadataFile(path) <==>
      path == MetadataFileName ||
      (|path| > |MetadataFileName| && path[|path| - |MetadataFileName| - 1] == Separator
       && path[|path| - |MetadataFileName|..] == MetadataFileName)
  {
    BasenameIs(path, MetadataFileName);
  }

  // ---------------------------------------------------------------------
  // Coercion of label scalars to text (Python's `str`)

  /** The character of a decimal digit. */
  function DigitChar(d: nat): (c: char)
    requires d < 10
    ensures '0' <= c <= '9'
  {
    ('0' as int + d) as char
  }

  /** Decimal text of a natural number, most significant digit first, no
      leading zeros. */
  function NatText(n: nat): (r: string)
    ensures r != [] && forall i :: 0 <= i < |r| ==> '0' <= r[i] <= '9'
    ensures |r| > 1 ==> r[0] != '0'
  {
    if n < 10 then [DigitChar(n)] else NatText(n / 10) + [DigitChar(n % 10)]
  }

  /** `str(n)` for an integer: a minus sign before the digits of a negative
      number. */
  function IntText(n: int): string {
    if n < 0 then "-" + NatText(-n) else NatText(n)
  }

  /** The number a string of decimal digits denotes, read from the last digit. */
  function DecimalValue(s: string): nat
    requires forall i :: 0 <= i < |s| ==> '0' <= s[i] <= '9'
  {
    if s == [] then 0
    else 10 * DecimalValue(s[..|s| - 1]) + (s[|s| - 1] as int - '0' as int)
  }

  /** The decimal text of a number denotes that number again, so coercion of
      an integer label value loses nothing. */
  lemma {:induction false} NatTextRoundTrip(n: nat)
    ensures DecimalValue(NatText(n)) == n
  {
    if n >= 10 {
      NatTextRoundTrip(n / 10);
      var s := NatText(n);
      assert s[..|s| - 1] == NatText(n / 10);
    }
  }

  /** The text of an integer is made of label characters only. */
  lemma IntTextChars(n: int)
    ensures IntText(n) != [] && forall i :: 0 <= i < |IntText(n)| ==> IsLabelChar(IntText(n)[i])
  {
  }

  /** A label scalar as YAML delivers it: text, an integer, or a flag-style
      entry declared without a value. */
  datatype Scalar = Text(text: string) | Integer(number: int) | Flag

  /** The text a scalar is stored as. */
  function ScalarText(v: Scalar): string {
    match v
    case Text(s) => s
    case Integer(n) => IntText(n)
    case Flag => ""
  }

  /** One `key: value` line under `labels`, in document order. */
  datatype LabelEntry = LabelEntry(key: Scalar, value: Scalar)

  function KeyText(e: LabelEntry): string { ScalarText(e.key) }

  function ValueText(e: LabelEntry): string { ScalarText(e.value) }

  /** An entry is retained when its key is a valid label and its value is
      either empty (a flag) or a valid label as well. */
  predicate IsKept(e: LabelEntry) {
    IsValidLabel(KeyText(e)) && (ValueText(e) == "" || IsValidLabel(ValueText(e)))
  }

  /** Every key is a valid label and every non-empty value is one. */
  predicate WellFormedLabels(labels: map<string, string>) {
    forall k :: k in labels ==> IsValidLabel(k) && (labels[k] == "" || IsValidLabel(labels[k]))
  }

  /** The entry at index `i` is retained and stored under `key`. */
  predicate KeptWithKey(entries: seq<LabelEntry>, i: int, key: string) {
    0 <= i < |entries| && IsKept(entries[i]) && KeyText(entries[i]) == key
  }

  /** The entry at index `i` is the last retained entry stored under `key`. */
  predicate LastKeptWithKey(entries: seq<LabelEntry>, i: int, key: string) {
    KeptWithKey(entries, i, key) && forall j :: i < j < |entries| ==> !KeptWithKey(entries, j, key)
  }

  /** The label map built from the entries, one entry at a time in document
      order: a retained entry is stored under its key text (replacing an
      earlier one with the same text); any other entry is dropped. */
  function FilterLabels(entries: seq<LabelEntry>): map<string, string> {
    if entries == [] then map[]
    else
      var rest := FilterLabels(entries[..|entries| - 1]);
      var e := entries[|entries| - 1];
      if IsKept(e) then rest[KeyText(e) := ValueText(e)] else rest
  }

  /** Only syntactically valid labels are retained: every key, and every
      value that is not empty. */
  lemma {:induction false} FilterLabelsWellFormed(entries: seq<LabelEntry>)
    ensures WellFormedLabels(FilterLabels(entries))
  {
    if entries != [] {
      FilterLabelsWellFormed(entries[..|entries| - 1]);
    }
  }

  /** A key is present exactly when some retained entry is stored under it;
      entries with an invalid key or value leave no trace. */
  lemma {:induction false} FilterLabelsKeys(entries: seq<LabelEntry>, key: string)
    ensures key in FilterLabels(entries) <==> exists i :: KeptWithKey(entries, i, key)
  {
    if entries != [] {
      var init := entries[..|entries| - 1];
      FilterLabelsKeys(init, key);
      assert forall i :: KeptWithKey(init, i, key) ==> KeptWithKey(entries, i, key);
      assert forall i :: KeptWithKey(entries, i, key) && i < |init| ==> KeptWithKey(init, i, key);
      if KeptWithKey(entries, |init|, key) {
        assert key in FilterLabels(entries);
      } else {
        assert key in FilterLabels(entries) <==> key in FilterLabels(init);
      }
    }
  }

  /** The value stored under a key is the text of the last retained entry
      declared with that key. */
  lemma {:induction false} FilterLabelsValue(entries: seq<LabelEntry>, i: int, key: string)
    requires LastKeptWithKey(entries, i, key)
    ensures key in FilterLabels(entries) && FilterLabels(entries)[key] == ValueText(entries[i])
  {
    var init := entries[..|entries| - 1];
    if i < |init| {
      assert !KeptWithKey(entries, |entries| - 1, key);
      assert LastKeptWithKey(init, i, key) by {
        forall j | i < j < |init| ensures !KeptWithKey(init, j, key) {
          assert !KeptWithKey(entries, j, key);
        }
      }
      FilterLabelsValue(init, i, key);
    }
  }

  /** A key stored in the map was declared by a retained entry that no later
      retained entry overrides, and the stored value is that entry's text. */
  lemma {:induction false} FilterLabelsSource(entries: seq<LabelEntry>, key: string)
    requires key in FilterLabels(entries)
    ensures exists i :: LastKeptWithKey(entries, i, key) && FilterLabels(entries)[key] == ValueText(entries[i])
  {
    FilterLabelsKeys(entries, key);
    var i :| KeptWithKey(entries, i, key);
    while exists j :: i < j < |entries| && KeptWithKey(entries, j, key)
      invariant KeptWithKey(entries, i, key)
      decreases |entries| - i
    {
      var j :| i < j < |entries| && KeptWithKey(entries, j, key);
      i := j;
    }
    FilterLabelsValue(entries, i, key);
  }

  // ---------------------------------------------------------------------
  // Documents

  /** What the YAML loader yields for one file, restricted to the recognised
      top-level keys; `owners` is None when the key is absent. */
  datatype ParsedDocument = ParsedDocument(
    friendlyName: Option<string>,
    description: Option<string>,
    owners: Option<seq<string>>,
    labels: seq<LabelEntry>)

  /** A metadata document, immutable once built. */
  datatype Metadata = Metadata(
    friendlyName: Option<string>,
    description: Option<string>,
    owners: seq<string>,
    labels: map<string, string>)

  /** Builds the document from what the loader yields: names and owners as
      declared (no owners means none), labels filtered and coerced. */
  function FromParsed(doc: ParsedDocument): (m: Metadata)
    ensures m.friendlyName == doc.friendlyName && m.description == doc.description
    ensures m.owners == if doc.owners.Some? then doc.owners.value else []
  {
    Metadata(doc.friendlyName, doc.description,
             if doc.owners.Some? then doc.owners.value else [],
             FilterLabels(doc.labels))
  }

  /** Every loaded document satisfies the label invariant. */
  lemma FromParsedWellFormed(doc: ParsedDocument)
    ensures WellFormedLabels(FromParsed(doc).labels)
  {
    FilterLabelsWellFormed(doc.labels);
  }

  /** The names of the labels behind `is_public_bigquery`, `is_incremental`,
      `is_incremental_export` and `review_bug`. The module that defines them,
      `parse_metadata.py`, is not part of this model, so they are a parameter. */
  datatype ReservedKeys = ReservedKeys(
    publicBigquery: string,
    incremental: string,
    incrementalExport: string,
    reviewBug: string)

  predicate IsPublicBigquery(m: Metadata, keys: ReservedKeys) { keys.publicBigquery in m.labels }

  predicate IsPublicJson(m: Metadata) { PublicJsonKey in m.labels }

  predicate IsIncremental(m: Metadata, keys: ReservedKeys) { keys.incremental in m.labels }

  predicate IsIncrementalExport(m: Metadata, keys: ReservedKeys) { keys.incrementalExport in m.labels }

  /** The review bug: absent when no review-bug label exists, otherwise its
      stored text. */
  function ReviewBug(m: Metadata, keys: ReservedKeys): (r: Option<string>)
    ensures r.None? <==> keys.reviewBug !in m.labels
    ensures r.Some? ==> r.value == m.labels[keys.reviewBug]
  {
    if keys.reviewBug in m.labels then Some(m.labels[keys.reviewBug]) else None
  }

  /** The review bug of a loaded document, in terms of what the file declares:
      absent exactly when no retained entry declares the review-bug key, and
      otherwise the exact text of the last such entry. */
  lemma ReviewBugDeclared(doc: ParsedDocument, keys: ReservedKeys)
    ensures ReviewBug(FromParsed(doc), keys).None? <==>
      forall i :: 0 <= i < |doc.labels| ==> !KeptWithKey(doc.labels, i, keys.reviewBug)
    ensures forall i :: LastKeptWithKey(doc.labels, i, keys.reviewBug) ==>
      ReviewBug(FromParsed(doc), keys) == Some(ValueText(doc.labels[i]))
  {
    FilterLabelsKeys(doc.labels, keys.reviewBug);
    forall i | LastKeptWithKey(doc.labels, i, keys.reviewBug)
      ensures ReviewBug(FromParsed(doc), keys) == Some(ValueText(doc.labels[i]))
    {
      FilterLabelsValue(doc.labels, i, keys.reviewBug);
    }
  }

  /** Each label predicate of a loaded document holds exactly when a retained
      entry of the file declares its key. */
  lemma PredicatesDeclared(doc: ParsedDocument, keys: ReservedKeys)
    ensures IsPublicBigquery(FromParsed(doc), keys) <==> exists i :: KeptWithKey(doc.labels, i, keys.publicBigquery)
    ensures IsPublicJson(FromParsed(doc)) <==> exists i :: KeptWithKey(doc.labels, i, PublicJsonKey)
    ensures IsIncremental(FromParsed(doc), keys) <==> exists i :: KeptWithKey(doc.labels, i, keys.incremental)
    ensures IsIncrementalExport(FromParsed(doc), keys) <==> exists i :: KeptWithKey(doc.labels, i, keys.incrementalExport)
  {
    FilterLabelsKeys(doc.labels, keys.publicBigquery);
    FilterLabelsKeys(doc.labels, PublicJsonKey);
    FilterLabelsKeys(doc.labels, keys.incremental);
    FilterLabelsKeys(doc.labels, keys.incrementalExport);
  }

  /** A reserved key that is not itself a valid label can never be present,
      so a predicate built on it is false for every loaded document. */
  lemma InvalidKeyNeverPresent(m: Metadata, key: string)
    requires WellFormedLabels(m.labels)
    requires !IsValidLabel(key)
    ensures key !in m.labels
  {
  }

  // ---------------------------------------------------------------------
  // Resolution

  /** A file on disk: YAML that loads, or content the loader rejects. */
  datatype FileContent = Loadable(doc: ParsedDocument) | Malformed

  /** The files that exist, by path. */
  type FileSystem = map<string, FileContent>

  datatype ResolveError = NotFound(path: string) | ParseError(path: string)

  /** `Metadata.from_file`: a missing path is NotFound, content the loader
      rejects is a ParseError, and only a loadable file yields a document,
      which then keeps the label invariant. */
  function FromFile(fs: FileSystem, path: string): (r: Result<Metadata, ResolveError>)
    ensures r.Success? <==> path in fs && fs[path].Loadable?
    ensures path !in fs ==> r == Failure(NotFound(path))
    ensures path in fs && fs[path].Malformed? ==> r == Failure(ParseError(path))
    ensures r.Success? ==> r.value == FromParsed(fs[path].doc)
    ensures r.Success? ==> WellFormedLabels(r.value.labels)
  {
    if path !in fs then Failure(NotFound(path))
    else match fs[path]
      case Malformed => Failure(ParseError(path))
      case Loadable(doc) =>
        FromParsedWellFormed(doc);
        Success(FromParsed(doc))
  }

  /** The metadata file beside a SQL file: in the same directory, under the
      fixed name. */
  function SiblingMetadataPath(sqlFile: string): (p: string)
    ensures IsMetadataFile(p)
    ensures Dirname(p) == Dirname(sqlFile)
  {
    BasenameOfJoin(Dirname(sqlFile), MetadataFileName);
    DirnameForm(sqlFile);
    DirnameOfJoin(Dirname(sqlFile), MetadataFileName);
    Join(Dirname(sqlFile), MetadataFileName)
  }

  /** `Metadata.of_sql_file`: loads the sibling metadata file, with the
      outcomes of `from_file` for that path. */
  function OfSqlFile(fs: FileSystem, sqlFile: string): (r: Result<Metadata, ResolveError>)
    ensures var p := SiblingMetadataPath(sqlFile);
      (p !in fs ==> r == Failure(NotFound(p)))
      && (p in fs && fs[p].Malformed? ==> r == Failure(ParseError(p)))
      && (p in fs && fs[p].Loadable? ==> r == Success(FromParsed(fs[p].doc)))
      && (r.Success? ==> p in fs && fs[p].Loadable? && r.value == FromParsed(fs[p].doc))
  {
    FromFile(fs, SiblingMetadataPath(sqlFile))
  }

  /** The directory of one table version: `root/dataset/table_version`. */
  function TableDirectory(dataset: string, table: string, version: string, root: string): (d: string)
    ensures d != [] && d[|d| - 1] == (if version == [] then '_' else version[|version| - 1])
    ensures IsComponent(table + "_" + version) ==> Basename(d) == table + "_" + version
    ensures IsComponent(table + "_" + version) && dataset != [] && IsComponent(dataset) ==>
      Dirname(d) == Join(root, dataset) && Basename(Dirname(d)) == dataset
  {
    var name := table + "_" + version;
    var parent := Join(root, dataset);
    JoinParts(parent, name);
    JoinParts(root, dataset);
    Join(parent, name)
  }

  /** The metadata file of one table version: `metadata.yaml` inside the
      table's directory. */
  function TableMetadataPath(dataset: string, table: string, version: string, root: string): (p: string)
    ensures IsMetadataFile(p)
    ensures version == [] || version[|version| - 1] != Separator ==>
      Dirname(p) == TableDirectory(dataset, table, version, root)
  {
    var d := TableDirectory(dataset, table, version, root);
    assert version == [] || version[|version| - 1] != Separator ==> d[|d| - 1] != Separator;
    JoinParts(d, MetadataFileName);
    Join(d, MetadataFileName)
  }

  /** `Metadata.of_table`: loads the metadata file of a table version, with
      the outcomes of `from_file` for that path. */
  function OfTable(fs: FileSystem, dataset: string, table: string, version: string, root: string)
    : (r: Result<Metadata, ResolveError>)
    ensures var p := TableMetadataPath(dataset, table, version, root);
      (p !in fs ==> r == Failure(NotFound(p)))
      && (p in fs && fs[p].Malformed? ==> r == Failure(ParseError(p)))
      && (p in fs && fs[p].Loadable? ==> r == Success(FromParsed(fs[p].doc)))
      && (r.Success? ==> p in fs && fs[p].Loadable? && r.value == FromParsed(fs[p].doc))
  {
    FromFile(fs, TableMetadataPath(dataset, table, version, root))
  }

  /** Table coordinates and any SQL file inside that table's directory name
      the same metadata file, so both resolve to the same document or the
      same error, on every file system. */
  lemma OfTableAgreesWithOfSqlFile(fs: FileSystem, dataset: string, table: string, version: string,
                                   root: string, file: string)
    requires version == [] || version[|version| - 1] != Separator
    requires file != [] && IsComponent(file)
    ensures SiblingMetadataPath(Join(TableDirectory(dataset, table, version, root), file))
         == TableMetadataPath(dataset, table, version, root)
    ensures OfTable(fs, dataset, table, version, root)
         == OfSqlFile(fs, Join(TableDirectory(dataset, table, version, root), file))
  {
    DirnameOfJoin(TableDirectory(dataset, table, version, root), file);
  }
}

/** The metadata validator's entry point: walk a target directory, load every
    metadata file found, and fail when a document marked public has no review
    bug. Exit statuses are returned instead of ending the process. */
module ValidateMetadata {
  import opened Wrappers
  import opened ParseMetadata

  /** One file name of a directory listing and what the file holds. */
  datatype FileEntry = FileEntry(name: string, content: FileContent)

  /** The `--target` argument: either not a directory, or a directory given
      by what walking it yields, one listing of files per directory visited,
      in walk order. */
  datatype Target = NotADirectory | Directory(walk: seq<seq<FileEntry>>)

  /** How the run ends: with an exit code, or with a loader error that
      nothing catches. */
  datatype Status = Exit(code: int) | Raised(error: ResolveError)

  /** Marked for public export, to BigQuery or as JSON. */
  predicate IsPublic(m: Metadata, keys: ReservedKeys) {
    IsPublicBigquery(m, keys) || IsPublicJson(m)
  }

  /** The per-document rule: public data needs a review bug. */
  predicate MissingReviewBug(m: Metadata, keys: ReservedKeys) {
    IsPublic(m, keys) && ReviewBug(m, keys).None?
  }

  /** A metadata file in the walk whose document breaks the rule. */
  predicate EntryFails(e: FileEntry, keys: ReservedKeys) {
    IsMetadataFile(e.name) && e.content.Loadable? && MissingReviewBug(FromParsed(e.content.doc), keys)
  }

  /** A metadata file in the walk that the loader rejects. */
  predicate EntryMalformed(e: FileEntry) {
    IsMetadataFile(e.name) && e.content.Malformed?
  }

  /** Some file of the listing fails, read from the last file back. */
  predicate ListingFails(files: seq<FileEntry>, keys: ReservedKeys) {
    files != [] && (ListingFails(files[..|files| - 1], keys) || EntryFails(files[|files| - 1], keys))
  }

  /** Some listing of the walk holds a failing file. */
  predicate WalkFails(walk: seq<seq<FileEntry>>, keys: ReservedKeys) {
    walk != [] && (WalkFails(walk[..|walk| - 1], keys) || ListingFails(walk[|walk| - 1], keys))
  }

  /** Some file of the listing is rejected by the loader. */
  predicate ListingMalformed(files: seq<FileEntry>) {
    files != [] && (ListingMalformed(files[..|files| - 1]) || EntryMalformed(files[|files| - 1]))
  }

  /** Some listing of the walk holds a rejected file. */
  predicate WalkMalformed(walk: seq<seq<FileEntry>>) {
    walk != [] && (WalkMalformed(walk[..|walk| - 1]) || ListingMalformed(walk[|walk| - 1]))
  }

  /** A listing fails exactly when one of its files fails. */
  lemma {:induction false} ListingFailsIff(files: seq<FileEntry>, keys: ReservedKeys)
    ensures ListingFails(files, keys) <==> exists j :: 0 <= j < |files| && EntryFails(files[j], keys)
  {
    if files != [] {
      var init := files[..|files| - 1];
      ListingFailsIff(init, keys);
      if ListingFails(init, keys) {
        var j :| 0 <= j < |init| && EntryFails(init[j], keys);
        assert files[j] == init[j];
      }
      if j :| 0 <= j < |files| && EntryFails(files[j], keys) {
        if j < |init| {
          assert files[j] == init[j];
        }
      }
    }
  }

  /** A walk fails exactly when one of its listings holds a failing file. */
  lemma {:induction false} WalkFailsIff(walk: seq<seq<FileEntry>>, keys: ReservedKeys)
    ensures WalkFails(walk, keys) <==> exists i :: 0 <= i < |walk| && ListingFails(walk[i], keys)
  {
    if walk != [] {
      var init := walk[..|walk| - 1];
      WalkFailsIff(init, keys);
      if WalkFails(init, keys) {
        var i :| 0 <= i < |init| && ListingFails(init[i], keys);
        assert walk[i] == init[i];
      }
    }
  }

  lemma {:induction false} ListingMalformedIff(files: seq<FileEntry>)
    ensures ListingMalformed(files) <==> exists j :: 0 <= j < |files| && EntryMalformed(files[j])
  {
    if files != [] {
      var init := files[..|files| - 1];
      ListingMalformedIff(init);
      if ListingMalformed(init) {
        var j :| 0 <= j < |init| && EntryMalformed(init[j]);
        assert files[j] == init[j];
      }
      if j :| 0 <= j < |files| && EntryMalformed(files[j]) {
        if j < |init| {
          assert files[j] == init[j];
        }
      }
    }
  }

  lemma {:induction false} WalkMalformedIff(walk: seq<seq<FileEntry>>)
    ensures WalkMalformed(walk) <==> exists i :: 0 <= i < |walk| && ListingMalformed(walk[i])
  {
    if walk != [] {
      var init := walk[..|walk| - 1];
      WalkMalformedIff(init);
      if WalkMalformed(init) {
        var i :| 0 <= i < |init| && ListingMalformed(init[i]);
        assert walk[i] == init[i];
      }
    }
  }

  /** One more file of a listing, or one more listing of a walk, adds its
      own verdict to the aggregate. */
  lemma ListingStep(files: seq<FileEntry>, j: int, keys: ReservedKeys)
    requires 0 <= j < |files|
    ensures ListingFails(files[..j + 1], keys) <==> ListingFails(files[..j], keys) || EntryFails(files[j], keys)
    ensures ListingMalformed(files[..j + 1]) <==> ListingMalformed(files[..j]) || EntryMalformed(files[j])
  {
    assert files[..j + 1][..j] == files[..j];
  }

  lemma WalkStep(walk: seq<seq<FileEntry>>, i: int, keys: ReservedKeys)
    requires 0 <= i < |walk|
    ensures WalkFails(walk[..i + 1], keys) <==> WalkFails(walk[..i], keys) || ListingFails(walk[i], keys)
    ensures WalkMalformed(walk[..i + 1]) <==> WalkMalformed(walk[..i]) || ListingMalformed(walk[i])
  {
    assert walk[..i + 1][..i] == walk[..i];
  }

  /** File `j` of listing `i` is the first rejected metadata file in walk
      order. */
  predicate FirstMalformedAt(walk: seq<seq<FileEntry>>, i: int, j: int) {
    0 <= i < |walk| && 0 <= j < |walk[i]| && EntryMalformed(walk[i][j])
    && !WalkMalformed(walk[..i]) && !ListingMalformed(walk[i][..j])
  }

  /** `validate_metadata.main`: a target that is not a directory exits with 1
      before anything is checked. Otherwise every metadata file of the walk is
      loaded and checked, a failing file sets the `failed` flag and the walk
      goes on, and the run exits with 1 exactly when some file failed, or
      stops at the first file the loader rejects. */
  method Validate(target: Target, keys: ReservedKeys) returns (status: Status)
    ensures target.NotADirectory? ==> status == Exit(1)
    ensures target.Directory? && !WalkMalformed(target.walk) ==>
      status == Exit(if WalkFails(target.walk, keys) then 1 else 0)
    ensures target.Directory? && WalkMalformed(target.walk) ==>
      status.Raised? &&
      exists i, j :: FirstMalformedAt(target.walk, i, j) && status.error == ParseError(target.walk[i][j].name)
  {
    var failed := false;
    if target.NotADirectory? {
      return Exit(1);
    }
    var walk := target.walk;
    var i := 0;
    while i < |walk|
      invariant 0 <= i <= |walk|
      invariant !WalkMalformed(walk[..i])
      invariant failed == WalkFails(walk[..i], keys)
    {
      var files := walk[i];
      var j := 0;
      while j < |files|
        invariant 0 <= j <= |files|
        invariant !ListingMalformed(files[..j])
        invariant failed == (WalkFails(walk[..i], keys) || ListingFails(files[..j], keys))
      {
        var file := files[j];
        if IsMetadataFile(file.name) {
          match file.content
          case Malformed =>
            assert FirstMalformedAt(walk, i, j);
            ListingMalformedIff(files);
            WalkMalformedIff(walk);
            return Raised(ParseError(file.name));
          case Loadable(doc) =>
            var metadata := FromParsed(doc);
            if IsPublicBigquery(metadata, keys) || IsPublicJson(metadata) {
              if ReviewBug(metadata, keys).None? {
                failed := true;
              }
            }
        }
        ListingStep(files, j, keys);
        j := j + 1;
      }
      assert files[..j] == files;
      WalkStep(walk, i, keys);
      i := i + 1;
    }
    assert walk[..i] == walk;
    if failed {
      return Exit(1);
    }
    return Exit(0);
  }

  /** The rule in terms of what a file declares: a document fails exactly
      when a retained entry marks it public and no retained entry gives it a
      review bug. */
  lemma MissingReviewBugDeclared(doc: ParsedDocument, keys: ReservedKeys)
    ensures MissingReviewBug(FromParsed(doc), keys) <==>
      (exists i :: KeptWithKey(doc.labels, i, keys.publicBigquery) || KeptWithKey(doc.labels, i, PublicJsonKey))
      && forall i :: 0 <= i < |doc.labels| ==> !KeptWithKey(doc.labels, i, keys.reviewBug)
  {
    FilterLabelsKeys(doc.labels, keys.publicBigquery);
    FilterLabelsKeys(doc.labels, PublicJsonKey);
    ReviewBugDeclared(doc, keys);
  }

  /** A document that is not public, or that has a review bug, never fails. */
  lemma OnlyPublicWithoutBugFails(m: Metadata, keys: ReservedKeys)
    ensures !IsPublic(m, keys) ==> !MissingReviewBug(m, keys)
    ensures ReviewBug(m, keys).Some? ==> !MissingReviewBug(m, keys)
  {
  }

  /** Files other than metadata files are never loaded, so what they hold
      cannot change the verdict of their listing. */
  lemma OtherFileIgnored(files: seq<FileEntry>, j: int, content: FileContent, keys: ReservedKeys)
    requires 0 <= j < |files| && !IsMetadataFile(files[j].name)
    ensures ListingFails(files[j := FileEntry(files[j].name, content)], keys) <==> ListingFails(files, keys)
    ensures ListingMalformed(files[j := FileEntry(files[j].name, content)]) <==> ListingMalformed(files)
  {
    var other := files[j := FileEntry(files[j].name, content)];
    ListingFailsIff(files, keys);
    ListingFailsIff(other, keys);
    ListingMalformedIff(files);
    ListingMalformedIff(other);
    if k :| 0 <= k < |files| && EntryFails(files[k], keys) {
      assert other[k] == files[k];
    }
    if k :| 0 <= k < |other| && EntryFails(other[k], keys) {
      assert other[k] == files[k];
    }
    if k :| 0 <= k < |files| && EntryMalformed(files[k]) {
      assert other[k] == files[k];
    }
    if k :| 0 <= k < |other| && EntryMalformed(other[k]) {
      assert other[k] == files[k];
    }
  }

  /** Failure is sticky over the walk: once some directory holds a failing
      file, visiting more directories never brings the verdict back. */
  lemma FailureIsSticky(walk: seq<seq<FileEntry>>, more: seq<seq<FileEntry>>, keys: ReservedKeys)
    requires WalkFails(walk, keys)
    ensures WalkFails(walk + more, keys)
  {
    WalkFailsIff(walk, keys);
    WalkFailsIff(walk + more, keys);
    var i :| 0 <= i < |walk| && ListingFails(walk[i], keys);
    assert (walk + more)[i] == walk[i];
  }
}

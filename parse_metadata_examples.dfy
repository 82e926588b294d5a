/** The assertions of the metadata parser's tests, stated over the model.
    The test data files are not part of this model, so each lemma about a
    loaded file takes as hypotheses only what the file must declare for the
    assertion to hold, and proves the assertion for every such file. */
module ParseMetadataExamples {
  import opened Wrappers
  import opened Paths
  import opened ParseMetadata

  /** Every character of `s` carries the label-character test. */
  lemma LabelCharsOf(s: string)
    requires forall i :: 0 <= i < |s| ==> s[i] in "abcdefghijklmnopqrstuvwxyz0123456789_-"
    ensures forall i :: 0 <= i < |s| ==> IsLabelChar(s[i])
  {
  }

  lemma UnderscoreLabel()
    ensures IsValidLabel("valid_label")
  {
    var s := "valid_label";
    LabelCharsOf(s);
  }

  lemma HyphenDigitLabel()
    ensures IsValidLabel("valid-label1")
  {
    var s := "valid-label1";
    LabelCharsOf(s);
  }

  lemma DigitsLabel()
    ensures IsValidLabel("1231")
  {
  }

  lemma DigitsHyphenLabel()
    ensures IsValidLabel("1231-21")
  {
  }

  /** The length bound in general: a run of one label character is a valid
      label exactly when it has between 1 and 63 characters. */
  lemma RepeatedLabelLength(c: char, n: nat)
    requires IsLabelChar(c)
    ensures IsValidLabel(Repeat(c, n)) <==> 1 <= n <= 63
  {
  }

  lemma LongestLabel()
    ensures IsValidLabel(Repeat('a', 63))
  {
    RepeatedLabelLength('a', 63);
  }

  lemma TooLongLabel()
    ensures !IsValidLabel(Repeat('a', 64))
  {
    RepeatedLabelLength('a', 64);
  }

  lemma NonAsciiLabel()
    ensures !IsValidLabel("låbel")
  {
    assert !IsLabelChar("låbel"[1]);
  }

  lemma UpperCaseLabel()
    ensures !IsValidLabel("INVALID")
  {
    assert !IsLabelChar("INVALID"[0]);
  }

  lemma PeriodLabel()
    ensures !IsValidLabel("invalid.label")
  {
    assert !IsLabelChar("invalid.label"[7]);
  }

  lemma EmptyLabel()
    ensures !IsValidLabel("")
  {
  }

  lemma JsonFileIsNotMetadata()
    ensures !IsMetadataFile("foo/bar/invalid.json")
  {
    IsMetadataFileIff("foo/bar/invalid.json");
  }

  lemma OtherYamlIsNotMetadata()
    ensures !IsMetadataFile("foo/bar/invalid.yaml")
  {
    IsMetadataFileIff("foo/bar/invalid.yaml");
  }

  lemma BareMetadataFile()
    ensures IsMetadataFile("metadata.yaml")
  {
    IsMetadataFileIff("metadata.yaml");
  }

  lemma NestedMetadataFile()
    ensures IsMetadataFile("some/path/to/metadata.yaml")
  {
    IsMetadataFileIff("some/path/to/metadata.yaml");
  }

  lemma IntegerTextExample()
    ensures IntText(1234234) == "1234234"
  {
    assert NatText(1) == "1";
    assert NatText(12) == "12";
    assert NatText(123) == "123";
    assert NatText(1234) == "1234";
    assert NatText(12342) == "12342";
    assert NatText(123423) == "123423";
  }

  lemma IntegerKeyTextExample()
    ensures IntText(1232341234) == "1232341234"
  {
    assert NatText(1) == "1";
    assert NatText(12) == "12";
    assert NatText(123) == "123";
    assert NatText(1232) == "1232";
    assert NatText(12323) == "12323";
    assert NatText(123234) == "123234";
    assert NatText(1232341) == "1232341";
    assert NatText(12323412) == "12323412";
    assert NatText(123234123) == "123234123";
  }

  lemma ReviewBugTextExample()
    ensures IntText(1999999) == "1999999"
  {
    assert NatText(1) == "1";
    assert NatText(19) == "19";
    assert NatText(199) == "199";
    assert NatText(1999) == "1999";
    assert NatText(19999) == "19999";
    assert NatText(199999) == "199999";
  }

  /** The entry at `i` declares `key` and no later entry declares the same
      key text. */
  predicate LastDeclared(entries: seq<LabelEntry>, i: int, key: string) {
    0 <= i < |entries| && KeyText(entries[i]) == key
    && forall j :: i < j < |entries| ==> KeyText(entries[j]) != key
  }

  /** A retained entry that is the last to declare its key determines the
      stored value. */
  lemma LastDeclaredIsStored(entries: seq<LabelEntry>, i: int, key: string)
    requires LastDeclared(entries, i, key) && IsKept(entries[i])
    ensures key in FilterLabels(entries) && FilterLabels(entries)[key] == ValueText(entries[i])
  {
    FilterLabelsValue(entries, i, key);
  }

  /** `schedule: daily` is kept as it is. */
  lemma ScheduleLabel(entries: seq<LabelEntry>, i: int)
    requires LastDeclared(entries, i, "schedule") && entries[i].value == Text("daily")
    ensures "schedule" in FilterLabels(entries) && FilterLabels(entries)["schedule"] == "daily"
  {
    LabelCharsOf("schedule");
    LabelCharsOf("daily");
    assert IsKept(entries[i]);
    LastDeclaredIsStored(entries, i, "schedule");
  }

  /** A flag-style `public_json` is kept with the empty value and makes the
      document public for JSON export. */
  lemma PublicJsonFlag(doc: ParsedDocument, i: int)
    requires LastDeclared(doc.labels, i, PublicJsonKey) && doc.labels[i].value == Flag
    ensures PublicJsonKey in FilterLabels(doc.labels) && FilterLabels(doc.labels)[PublicJsonKey] == ""
    ensures IsPublicJson(FromParsed(doc))
  {
    LabelCharsOf(PublicJsonKey);
    assert IsKept(doc.labels[i]);
    LastDeclaredIsStored(doc.labels, i, PublicJsonKey);
  }

  /** An integer value is stored as its decimal text. */
  lemma NumberValueLabel(entries: seq<LabelEntry>, i: int)
    requires LastDeclared(entries, i, "number_value") && entries[i].value == Integer(1234234)
    ensures "number_value" in FilterLabels(entries) && FilterLabels(entries)["number_value"] == "1234234"
  {
    IntegerTextExample();
    LabelCharsOf("number_value");
    assert IsKept(entries[i]);
    LastDeclaredIsStored(entries, i, "number_value");
  }

  /** Text that looks numeric is stored as written. */
  lemma NumberStringLabel(entries: seq<LabelEntry>, i: int)
    requires LastDeclared(entries, i, "number_string") && entries[i].value == Text("1234abcde")
    ensures "number_string" in FilterLabels(entries) && FilterLabels(entries)["number_string"] == "1234abcde"
  {
    LabelCharsOf("number_string");
    LabelCharsOf("1234abcde");
    assert IsKept(entries[i]);
    LastDeclaredIsStored(entries, i, "number_string");
  }

  /** A key that YAML reads as an integer is stored under its decimal text
      when its value is acceptable. */
  lemma IntegerKeyKept(entries: seq<LabelEntry>, i: int)
    requires 0 <= i < |entries| && entries[i].key == Integer(1232341234)
    requires ValueText(entries[i]) == "" || IsValidLabel(ValueText(entries[i]))
    ensures "1232341234" in FilterLabels(entries)
  {
    IntegerKeyTextExample();
    assert KeptWithKey(entries, i, "1232341234");
    FilterLabelsKeys(entries, "1232341234");
  }

  /** A key with an underscore is kept when its value is acceptable. */
  lemma UnderscoreKeyKept(entries: seq<LabelEntry>, i: int)
    requires 0 <= i < |entries| && entries[i].key == Text("1234_abcd")
    requires ValueText(entries[i]) == "" || IsValidLabel(ValueText(entries[i]))
    ensures "1234_abcd" in FilterLabels(entries)
  {
    LabelCharsOf("1234_abcd");
    assert KeptWithKey(entries, i, "1234_abcd");
    FilterLabelsKeys(entries, "1234_abcd");
  }

  /** A key with a hyphen is kept when its value is acceptable. */
  lemma HyphenKeyKept(entries: seq<LabelEntry>, i: int)
    requires 0 <= i < |entries| && entries[i].key == Text("123-432")
    requires ValueText(entries[i]) == "" || IsValidLabel(ValueText(entries[i]))
    ensures "123-432" in FilterLabels(entries)
  {
    assert KeptWithKey(entries, i, "123-432");
    FilterLabelsKeys(entries, "123-432");
  }

  /** A key with a period is never stored, whatever the file declares. */
  lemma PeriodKeyDropped(doc: ParsedDocument)
    ensures "invalid.label" !in FromParsed(doc).labels
  {
    PeriodLabel();
    FromParsedWellFormed(doc);
  }

  /** A key whose every declaration carries an invalid value is not stored. */
  lemma InvalidValueDropped(entries: seq<LabelEntry>)
    requires forall i :: 0 <= i < |entries| && KeyText(entries[i]) == "invalid_value" ==>
      ValueText(entries[i]) != "" && !IsValidLabel(ValueText(entries[i]))
    ensures "invalid_value" !in FilterLabels(entries)
  {
    FilterLabelsKeys(entries, "invalid_value");
  }

  /** The scalar fields and the owners of a loaded file are as declared, in
      declared order. */
  lemma DeclaredFields(fs: FileSystem, path: string)
    requires path in fs && fs[path].Loadable?
    requires fs[path].doc.friendlyName == Some("Test metadata file")
    requires fs[path].doc.description == None
    requires fs[path].doc.owners == Some(["test1@mozilla.com", "test2@example.com"])
    ensures FromFile(fs, path).Success?
    ensures FromFile(fs, path).value.friendlyName == Some("Test metadata file")
    ensures FromFile(fs, path).value.description == None
    ensures FromFile(fs, path).value.owners == ["test1@mozilla.com", "test2@example.com"]
  {
  }

  /** A retained declaration of the incremental key and of the incremental
      export key makes the document incremental and exported incrementally. */
  lemma IncrementalFlags(doc: ParsedDocument, keys: ReservedKeys, i: int, j: int)
    requires KeptWithKey(doc.labels, i, keys.incremental)
    requires KeptWithKey(doc.labels, j, keys.incrementalExport)
    ensures IsIncremental(FromParsed(doc), keys)
    ensures IsIncrementalExport(FromParsed(doc), keys)
  {
    FilterLabelsKeys(doc.labels, keys.incremental);
    FilterLabelsKeys(doc.labels, keys.incrementalExport);
  }

  /** No review-bug declaration means no review bug; a declaration gives its
      exact text. */
  lemma ReviewBugExamples(doc: ParsedDocument, keys: ReservedKeys, i: int)
    requires forall j :: 0 <= j < |doc.labels| && j != i ==> KeyText(doc.labels[j]) != keys.reviewBug
    requires 0 <= i < |doc.labels| && doc.labels[i] == LabelEntry(Text(keys.reviewBug), Integer(1999999))
    requires IsValidLabel(keys.reviewBug)
    ensures ReviewBug(FromParsed(doc), keys) == Some("1999999")
    ensures ReviewBug(FromParsed(doc.(labels := doc.labels[..i] + doc.labels[i + 1..])), keys) == None
  {
    ReviewBugTextExample();
    ReviewBugDeclared(doc, keys);
    assert LastKeptWithKey(doc.labels, i, keys.reviewBug);
    var rest := doc.labels[..i] + doc.labels[i + 1..];
    ReviewBugDeclared(doc.(labels := rest), keys);
    forall j | 0 <= j < |rest| ensures KeyText(rest[j]) != keys.reviewBug {
      if j < i { assert rest[j] == doc.labels[j]; } else { assert rest[j] == doc.labels[j + 1]; }
    }
  }

  lemma NonExistingFile(fs: FileSystem, path: string)
    requires path !in fs
    ensures FromFile(fs, path) == Failure(NotFound(path))
  {
  }

  /** `query.sql` without a `metadata.yaml` beside it has no metadata. */
  lemma SqlFileWithoutMetadata(fs: FileSystem, dir: string)
    requires dir != [] && dir[|dir| - 1] != Separator
    requires Join(dir, MetadataFileName) !in fs
    ensures OfSqlFile(fs, Join(dir, "query.sql")) == Failure(NotFound(Join(dir, MetadataFileName)))
  {
    DirnameOfJoin(dir, "query.sql");
  }

  /** The table `test.non_incremental_query_v1` under a root resolves to the
      same document, or the same error, as the `query.sql` in its directory. */
  lemma OfTableExample(fs: FileSystem, root: string)
    ensures OfTable(fs, "test", "non_incremental_query", "v1", root)
         == OfSqlFile(fs, Join(Join(Join(root, "test"), "non_incremental_query_v1"), "query.sql"))
  {
    assert "non_incremental_query" + "_" + "v1" == "non_incremental_query_v1";
    OfTableAgreesWithOfSqlFile(fs, "test", "non_incremental_query", "v1", root, "query.sql");
  }

  /** A table whose directory holds no metadata file has none. */
  lemma NonExistingTable(fs: FileSystem, root: string)
    requires TableMetadataPath("test", "no_metadata", "v1", root) !in fs
    ensures OfTable(fs, "test", "no_metadata", "v1", root).Failure?
    ensures OfTable(fs, "test", "no_metadata", "v1", root).error.NotFound?
  {
  }

  /** What the metadata file of `non_incremental_query_v1` must declare for
      the assertions about it: its friendly name and description, and a last
      review-bug entry with the text `1999999`. */
  predicate NonIncrementalQueryDoc(doc: ParsedDocument, keys: ReservedKeys, i: int) {
    doc.friendlyName == Some("Test table for a non-incremental query")
    && doc.description == Some("Test table for a non-incremental query")
    && 0 <= i < |doc.labels| && KeyText(doc.labels[i]) == keys.reviewBug
    && ValueText(doc.labels[i]) == "1999999"
    && forall j :: i < j < |doc.labels| ==> KeyText(doc.labels[j]) != keys.reviewBug
  }

  /** `query.sql` beside such a metadata file resolves, through `of_sql_file`,
      to a document with that friendly name, description and review bug. */
  lemma OfSqlFileLoaded(fs: FileSystem, dir: string, keys: ReservedKeys, i: int)
    requires IsDirectoryForm(dir) && IsValidLabel(keys.reviewBug)
    requires Join(dir, MetadataFileName) in fs && fs[Join(dir, MetadataFileName)].Loadable?
    requires NonIncrementalQueryDoc(fs[Join(dir, MetadataFileName)].doc, keys, i)
    ensures OfSqlFile(fs, Join(dir, "query.sql")).Success?
    ensures OfSqlFile(fs, Join(dir, "query.sql")).value.friendlyName == Some("Test table for a non-incremental query")
    ensures OfSqlFile(fs, Join(dir, "query.sql")).value.description == Some("Test table for a non-incremental query")
    ensures ReviewBug(OfSqlFile(fs, Join(dir, "query.sql")).value, keys) == Some("1999999")
  {
    DirnameOfJoin(dir, "query.sql");
    var doc := fs[Join(dir, MetadataFileName)].doc;
    assert IsValidLabel(ValueText(doc.labels[i]));
    assert LastKeptWithKey(doc.labels, i, keys.reviewBug);
    ReviewBugDeclared(doc, keys);
  }

  /** The table `test.non_incremental_query_v1` resolves, through `of_table`,
      to the same friendly name, description and review bug. */
  lemma OfTableLoaded(fs: FileSystem, root: string, keys: ReservedKeys, i: int)
    requires IsValidLabel(keys.reviewBug)
    requires var p := Join(Join(Join(root, "test"), "non_incremental_query_v1"), MetadataFileName);
      p in fs && fs[p].Loadable? && NonIncrementalQueryDoc(fs[p].doc, keys, i)
    ensures OfTable(fs, "test", "non_incremental_query", "v1", root).Success?
    ensures OfTable(fs, "test", "non_incremental_query", "v1", root).value.friendlyName
         == Some("Test table for a non-incremental query")
    ensures OfTable(fs, "test", "non_incremental_query", "v1", root).value.description
         == Some("Test table for a non-incremental query")
    ensures ReviewBug(OfTable(fs, "test", "non_incremental_query", "v1", root).value, keys) == Some("1999999")
  {
    var dir := Join(Join(root, "test"), "non_incremental_query_v1");
    OfTableExample(fs, root);
    OfSqlFileLoaded(fs, dir, keys, i);
  }
}

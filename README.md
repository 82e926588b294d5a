# Metadata description layer of bigquery-etl, in Dafny

This project models how bigquery-etl describes the tables its SQL queries
produce. Each table version directory may hold a `metadata.yaml` with a
friendly name, a description, owners and labels. The model covers:

- the label syntax (`Metadata.is_valid_label`);
- recognition of metadata files by base name (`Metadata.is_metadata_file`);
- the document built from a loaded file. Labels with an invalid key or value
  are dropped, and integer scalars become their decimal text;
- the label predicates `is_public_bigquery`, `is_public_json`,
  `is_incremental`, `is_incremental_export` and `review_bug`;
- the three ways of resolving a document: `from_file`, `of_sql_file` and
  `of_table`, with their NotFound and parse-error outcomes;
- the validator's `main`. It walks a target directory, checks every metadata
  file, keeps one sticky `failed` flag and turns it into an exit code.

`bigquery_etl/metadata/parse_metadata.py` is not part of this model. Its
behaviour is taken from the assertions in
`tests/metadata/test_parse_metadata.py` and from how
`bigquery_etl/validate_metadata.py` uses it.

Files:

- `wrappers.dfy`: `Option` and `Result`.
- `paths.dfy`: POSIX path strings, as in `posixpath.join`, `basename` and
  `dirname`.
- `parse_metadata.dfy`: labels, documents, label predicates and resolution.
- `parse_metadata_examples.dfy`: the test assertions, one lemma for each
  assertion or for each group of assertions about the same document.
- `validate_metadata.dfy`: the validator's walk, as a method with nested
  loops.

Design decisions:

- Labels are a `map<string, string>`. A loaded YAML file is a
  `ParsedDocument`, and its `labels` section is a sequence of
  `LabelEntry(key, value)` in document order. Each key and value is a
  `Scalar`: `Text`, `Integer` or `Flag` (declared without a value).
  Coercion follows Python's `str`. A flag becomes `""`.
- An entry is retained when its key is a valid label and its value is either
  empty or a valid label. Entries are applied in order, so a later retained
  entry replaces an earlier one whose key has the same text. The entries may
  repeat a key, which a YAML mapping cannot; a loader keeps only the last
  of them, while the model applies every one of them in order (see
  "## Left out").
- `parse_metadata.py` is not modelled, so the names of the labels behind
  `is_public_bigquery`, `is_incremental`, `is_incremental_export` and
  `review_bug` are a `ReservedKeys` parameter. Only `public_json` is a
  constant, because the tests name it.
- The file system is a `map` from path to `FileContent`. A file's content is
  either a loadable `ParsedDocument` or `Malformed`.
- The validator's target is a `Target`: either `NotADirectory`, or the
  sequence of file listings that walking the directory yields. An exit is
  returned as `Status.Exit(code)`. A loader error that nothing catches is
  `Status.Raised`.

The label alphabet is `[a-z0-9_-]`: the tests accept underscores in a
label (`valid_label`, tests/metadata/test_parse_metadata.py line 11) and in
a label key (`1234_abcd`, line 39).

`review_bug` is the stored text of the label whenever the label is present,
even when that text is empty. The tests never declare an empty review bug,
so this is a choice of the model (see "## Left out").

## Model

| member | source | states |
|---|---|---|
| ParseMetadata.AllLabelChars | tests/metadata/test_parse_metadata.py:10-20 | the one-pass scan is true exactly when every character is a lower-case ASCII letter, digit, `_` or `-` |
| ParseMetadata.IsValidLabel | tests/metadata/test_parse_metadata.py:10-20 | a label is valid iff it has 1 to 63 characters, all from the label alphabet |
| ParseMetadataExamples.UnderscoreLabel | tests/metadata/test_parse_metadata.py:11 | `valid_label` is valid |
| ParseMetadataExamples.HyphenDigitLabel | tests/metadata/test_parse_metadata.py:12 | `valid-label1` is valid |
| ParseMetadataExamples.DigitsLabel | tests/metadata/test_parse_metadata.py:13 | `1231` is valid |
| ParseMetadataExamples.DigitsHyphenLabel | tests/metadata/test_parse_metadata.py:14 | `1231-21` is valid |
| ParseMetadataExamples.RepeatedLabelLength | tests/metadata/test_parse_metadata.py:15-17 | a run of one label character is valid iff its length is 1 to 63 |
| ParseMetadataExamples.LongestLabel | tests/metadata/test_parse_metadata.py:15 | 63 `a`s are valid |
| ParseMetadataExamples.NonAsciiLabel | tests/metadata/test_parse_metadata.py:16 | `låbel` is invalid |
| ParseMetadataExamples.TooLongLabel | tests/metadata/test_parse_metadata.py:17 | 64 `a`s are invalid |
| ParseMetadataExamples.UpperCaseLabel | tests/metadata/test_parse_metadata.py:18 | `INVALID` is invalid |
| ParseMetadataExamples.PeriodLabel | tests/metadata/test_parse_metadata.py:19 | `invalid.label` is invalid |
| ParseMetadataExamples.EmptyLabel | tests/metadata/test_parse_metadata.py:20 | the empty string is invalid |
| ParseMetadata.IsMetadataFileIff | tests/metadata/test_parse_metadata.py:102-106 | a path is a metadata file iff it is `metadata.yaml` or ends with `/metadata.yaml`, whatever directories come first |
| Paths.BasenameIs | tests/metadata/test_parse_metadata.py:102-106 | the base name equals a given component iff the path is that component or ends with a separator followed by it |
| ParseMetadataExamples.JsonFileIsNotMetadata | tests/metadata/test_parse_metadata.py:103 | `foo/bar/invalid.json` is not a metadata file |
| ParseMetadataExamples.OtherYamlIsNotMetadata | tests/metadata/test_parse_metadata.py:104 | `foo/bar/invalid.yaml` is not a metadata file |
| ParseMetadataExamples.BareMetadataFile | tests/metadata/test_parse_metadata.py:105 | `metadata.yaml` is a metadata file |
| ParseMetadataExamples.NestedMetadataFile | tests/metadata/test_parse_metadata.py:106 | `some/path/to/metadata.yaml` is a metadata file |
| ParseMetadata.NatText | tests/metadata/test_parse_metadata.py:40-41 | the decimal text of a number is non-empty, all digits, and has no leading zero |
| ParseMetadata.NatTextRoundTrip | tests/metadata/test_parse_metadata.py:40-41 | the decimal text of `n` reads back as `n`, so coercing an integer loses nothing |
| ParseMetadata.IntTextChars | tests/metadata/test_parse_metadata.py:38-41 | the text of any integer is non-empty and made of label characters |
| ParseMetadataExamples.IntegerTextExample | tests/metadata/test_parse_metadata.py:41 | the integer 1234234 becomes the text `1234234` |
| ParseMetadata.FilterLabelsWellFormed | tests/metadata/test_parse_metadata.py:36-37 | every retained key is a valid label, and every retained value is empty or a valid label |
| ParseMetadata.FilterLabelsKeys | tests/metadata/test_parse_metadata.py:28-44 | a key is present iff some entry with a valid key and an acceptable value is declared under it |
| ParseMetadata.FilterLabelsValue | tests/metadata/test_parse_metadata.py:29-43 | the stored value is the text of the last retained entry declared under the key |
| ParseMetadata.FilterLabelsSource | tests/metadata/test_parse_metadata.py:28-44 | every stored key and value comes from a retained entry that no later retained entry overrides |
| ParseMetadata.FromParsedWellFormed | tests/metadata/test_parse_metadata.py:36-37 | every loaded document satisfies the label invariant |
| ParseMetadataExamples.LastDeclaredIsStored | tests/metadata/test_parse_metadata.py:28-44 | a retained entry that is the last one declaring its key determines the stored value |
| ParseMetadataExamples.ScheduleLabel | tests/metadata/test_parse_metadata.py:28-29 | a file declaring `schedule: daily` has the label `schedule` with value `daily` |
| ParseMetadataExamples.PublicJsonFlag | tests/metadata/test_parse_metadata.py:30-32 | a flag `public_json` is stored with the value `""`, and the document is public for JSON export |
| ParseMetadataExamples.NumberValueLabel | tests/metadata/test_parse_metadata.py:40-41 | an integer value 1234234 is stored as `1234234` |
| ParseMetadataExamples.NumberStringLabel | tests/metadata/test_parse_metadata.py:42-43 | the text `1234abcde` is stored as written |
| ParseMetadataExamples.IntegerKeyKept | tests/metadata/test_parse_metadata.py:38 | an integer key 1232341234 with an acceptable value is stored as `1232341234` |
| ParseMetadataExamples.UnderscoreKeyKept | tests/metadata/test_parse_metadata.py:39 | the key `1234_abcd` with an acceptable value is stored |
| ParseMetadataExamples.HyphenKeyKept | tests/metadata/test_parse_metadata.py:44 | the key `123-432` with an acceptable value is stored |
| ParseMetadataExamples.PeriodKeyDropped | tests/metadata/test_parse_metadata.py:37 | no document ever stores the key `invalid.label` |
| ParseMetadataExamples.InvalidValueDropped | tests/metadata/test_parse_metadata.py:36 | a key whose every declaration has an invalid, non-empty value is not stored |
| ParseMetadataExamples.DeclaredFields | tests/metadata/test_parse_metadata.py:22-45 | a loaded file yields its declared friendly name, its absent description and its owners in order |
| ParseMetadata.ReviewBugDeclared | tests/metadata/test_parse_metadata.py:62-66 | the review bug of a loaded file is absent iff no retained entry declares it, and otherwise is the exact text of the last such entry |
| ParseMetadataExamples.ReviewBugExamples | tests/metadata/test_parse_metadata.py:35 | a file without a review-bug declaration has no review bug; with a declaration of 1999999 it has `1999999` |
| ParseMetadata.PredicatesDeclared | tests/metadata/test_parse_metadata.py:30-34 | each of `is_public_bigquery`, `is_public_json`, `is_incremental` and `is_incremental_export` holds iff a retained entry declares its key |
| ParseMetadataExamples.IncrementalFlags | tests/metadata/test_parse_metadata.py:33-34 | a file with retained declarations of the incremental and incremental-export keys is incremental and exported incrementally |
| ParseMetadata.InvalidKeyNeverPresent | tests/metadata/test_parse_metadata.py:36-37 | a key that is not a valid label is never present in a well-formed document |
| ParseMetadata.FromFile | tests/metadata/test_parse_metadata.py:22-50 | loading succeeds iff the path exists and loads; a missing path is NotFound, rejected content is a ParseError, and a loaded document is the one built from the content and satisfies the label invariant |
| ParseMetadataExamples.NonExistingFile | tests/metadata/test_parse_metadata.py:47-50 | a path that does not exist gives NotFound |
| ParseMetadata.SiblingMetadataPath | tests/metadata/test_parse_metadata.py:52-62 | the metadata path derived from a SQL file passes the metadata-file test and lies in the SQL file's own directory |
| ParseMetadata.OfSqlFile | tests/metadata/test_parse_metadata.py:52-79 | a missing sibling `metadata.yaml` gives NotFound, a rejected one gives ParseError, and a loadable one gives Success with the document built from it |
| ParseMetadataExamples.SqlFileWithoutMetadata | tests/metadata/test_parse_metadata.py:68-79 | `query.sql` in a directory without `metadata.yaml` gives NotFound for `dir/metadata.yaml` |
| ParseMetadataExamples.OfSqlFileLoaded | tests/metadata/test_parse_metadata.py:52-66 | `query.sql` beside a loadable metadata file resolves to a document with its declared friendly name and description and the review bug `1999999` |
| ParseMetadata.TableDirectory | tests/metadata/test_parse_metadata.py:81-87 | the table directory is non-empty and ends with the version's last character (with `_` for an empty version); its base name is `table_version`, and its parent is `root/dataset`, whose base name is the dataset |
| ParseMetadata.TableMetadataPath | tests/metadata/test_parse_metadata.py:81-87 | a table's metadata path passes the metadata-file test and lies in the table's directory |
| ParseMetadata.OfTable | tests/metadata/test_parse_metadata.py:81-100 | a missing metadata file gives NotFound, a rejected one gives ParseError, and a loadable one gives Success with the document built from it |
| ParseMetadataExamples.NonExistingTable | tests/metadata/test_parse_metadata.py:93-100 | the table `test.no_metadata_v1` without a metadata file gives NotFound |
| Paths.DirnameOfJoin | tests/metadata/test_parse_metadata.py:52-62 | the directory of a one-component name joined onto any directory (empty, root, or not ending in a separator) is that directory again |
| Paths.DirnameForm | tests/metadata/test_parse_metadata.py:52-62 | every directory name is empty, made of separators only, or does not end in a separator |
| Paths.BasenameOfJoin | tests/metadata/test_parse_metadata.py:52-62 | joining one component onto any directory gives a path whose base name is that component |
| ParseMetadata.OfTableAgreesWithOfSqlFile | tests/metadata/test_parse_metadata.py:52-66 | on every file system, table coordinates resolve to the same document or error as any file in that table's directory |
| ParseMetadataExamples.OfTableExample | tests/metadata/test_parse_metadata.py:81-91 | `of_table("test", "non_incremental_query", "v1", root)` equals `of_sql_file(root/test/non_incremental_query_v1/query.sql)` |
| ParseMetadataExamples.OfTableLoaded | tests/metadata/test_parse_metadata.py:81-91 | the table `test.non_incremental_query_v1` with a loadable metadata file resolves to a document with its declared friendly name and description and the review bug `1999999` |
| ValidateMetadata.Validate | bigquery_etl/validate_metadata.py:32-55 | a non-directory target exits with 1 before any check. Otherwise the run exits with 1 iff some metadata file is public without a review bug, and with 0 otherwise. A rejected metadata file ends the run with that file's ParseError at the first such file in walk order |
| ValidateMetadata.ListingFailsIff | bigquery_etl/validate_metadata.py:36-46 | a listing fails iff one of its files fails |
| ValidateMetadata.WalkFailsIff | bigquery_etl/validate_metadata.py:35-46 | a walk fails iff one of its listings holds a failing file |
| ValidateMetadata.ListingMalformedIff | bigquery_etl/validate_metadata.py:36-39 | a listing holds a rejected metadata file iff one of its files is one |
| ValidateMetadata.WalkMalformedIff | bigquery_etl/validate_metadata.py:35-39 | a walk holds a rejected metadata file iff one of its listings does |
| ValidateMetadata.ListingStep | bigquery_etl/validate_metadata.py:36-46 | checking one more file adds exactly that file's verdict to the listing's verdict |
| ValidateMetadata.WalkStep | bigquery_etl/validate_metadata.py:35-46 | visiting one more directory adds exactly that listing's verdict to the walk's verdict |
| ValidateMetadata.MissingReviewBugDeclared | bigquery_etl/validate_metadata.py:41-46 | a loaded document fails iff a retained entry marks it public (BigQuery or JSON) and no retained entry gives a review bug |
| ValidateMetadata.OnlyPublicWithoutBugFails | bigquery_etl/validate_metadata.py:41-46 | a document that is not public, or that has a review bug, never fails |
| ValidateMetadata.OtherFileIgnored | bigquery_etl/validate_metadata.py:37-39 | the content of a file whose name fails `is_metadata_file` never changes a listing's verdict |
| ValidateMetadata.FailureIsSticky | bigquery_etl/validate_metadata.py:32-55 | once some directory holds a failing file, visiting more directories never restores success |

## Left out

- YAML parsing and file reading inside `from_file`. A loaded file is given
  as a `ParsedDocument`, and content the loader rejects as `Malformed`.
  Unreadable files other than missing ones are not distinguished.
- The contents of the test data files. Lemmas about them take as
  hypotheses only what a file must declare for each assertion to hold.
- The exact names of the reserved labels for public BigQuery, incremental,
  incremental export and review bug. `parse_metadata.py` is not modelled,
  so they are a `ReservedKeys` parameter.
- Boolean label values other than a flag, and any YAML scalar type other
  than text and integers. The loader's handling of them is left out.
- ReviewBug: an empty review-bug label (a flag) counts as a review bug, so a
  public document with such a label passes the validator. The tests never
  declare an empty review bug, so they leave this open.
- Repeated keys in one `labels` mapping. A YAML loader keeps only the last
  value, and that value alone is then kept or dropped. The model applies
  every entry in order, so when a later entry is dropped the earlier
  retained value stays.
- The printed message for a dropped label, and all logging in the validator.
- Argument parsing, `--log-level` and `logging.basicConfig`: command-line
  plumbing. The target arrives as a `Target` value.
- `os.walk` and `os.path.isdir` are not modelled. The directory walk is
  given as a sequence of file listings in walk order.
- The validator's path construction `os.path.join(root, *dirs, file)` is not
  modelled. Each listed file is loaded from its own entry. So the model does
  not capture the case where the joined path names a different file, or a
  file that does not exist.
- `sys.exit`: the exit code is returned as `Status.Exit`. A parse error that
  nothing catches is returned as `Status.Raised` together with the file's
  name, not as the full traversed path.
- Path strings follow POSIX `posixpath` rules for two-part `join`,
  `dirname` and `basename`. The tests' `pathlib` objects and path
  normalisation are not modelled.
- The source path kept in a document for diagnostics is not part of the
  `Metadata` value.

# samplesheet_collision_check in Dafny

A functional model of the two components of `samplesheet_collision_check.py`.
Each is written as pure functions, and lemmas prove what the code promises.

- **The parser.** An Illumina `SampleSheet.csv` is read line by line into a
  dictionary of sections.
  - Each line is trimmed and blank lines are skipped.
  - A line that starts with `[` and contains `]` opens a section. The section's
    name is the text before the first comma, with the brackets stripped.
  - Every other line is buffered for the current section.
  - A section is finished when the next header arrives, or at the end of the
    file. A name ending in `Data` becomes a table read the way `csv.DictReader`
    reads unquoted lines (quoting is listed under Left out). Any other name becomes a dictionary of key/value lines, each split
    at its first comma.
  - Lines before the first header are never stored, and neither are lines under
    an empty name `[]`.
- **The collision detector.** Given the sample table, it reports the rows whose
  index combination is shared by more than one distinct `Sample_ID`.
  - The combination is `Index`, plus `Lane` and `Index2` when the table has
    those columns.

The files:

- `wrappers.dfy`: `Option`, which stands for Python's `None`.
- `text.dfy`: the Python string operations the parser calls.
  - `str.strip()` with Python's full whitespace set, and `strip('[]')`.
  - `split(',')`, `split(',', 1)`, `startswith` and `endswith`.
  - `FirstIndex`, the search for the first separator inside the splits, and
    `Join`, the inverse of `Split` used only to state the round trips.
- `samplesheet.dfy`: the parser.
  - It is a left fold (`Scan`) over the lines, after each line is classified as
    blank, header or content.
  - The state is the current section name, the buffered lines and the finished
    document.
  - `ParseSampleSheet` closes the last section.
- `collision.dfy`: the detector.
  - A frame is a column set plus a sequence of rows. A column missing from a row
    is pandas' NaN.
  - `DetectCollision` is the reference definition: a boolean mask over the
    rows, then a selection.
  - `FindCollisions` is a two-pass algorithm equivalent to the
    `groupby(...).transform('nunique')` mask: gather each group's distinct
    Sample_IDs, then filter the rows. It is proved equal to the reference.

Where each source function lives, and the lemmas that characterise it:

| source function | Dafny | characterised by |
|---|---|---|
| `parse_samplesheet` (lines 7-41) | `SampleSheet.ParseSampleSheet`, with the loop body as `SampleSheet.Classify`, `SampleSheet.Step` and `SampleSheet.Scan` | `ScanAppend`, `BodyAccumulates`, `AfterHeader`, `LastBlock`, `SectionsComeFromHeaders` |
| header test and name (lines 24, 31-32) | `SampleSheet.IsHeader`, `SampleSheet.HeaderName` | `HeaderNameShape`, `HeaderNameRoundTrip` |
| storing a finished section (lines 26-27, 38-39) | `SampleSheet.Close` | its own contract |
| `process_section` (lines 43-50) | `SampleSheet.ProcessSection` | its own contract |
| `process_data_section` (lines 52-59) | `SampleSheet.ProcessDataSection`, one record by `SampleSheet.MakeRow` | `MakeRowKeys`, `MakeRowCells`, `RowRoundTrip`, `TableRoundTrip` |
| `process_kv_section` (lines 61-70) | `SampleSheet.ProcessKvSection`, one line by `SampleSheet.KvEntry` | `KvEntryWithoutComma`, `KvEntrySplitsAtFirstComma`, `KvSectionKeys`, `KvSectionValues` |
| `detect_collision` (lines 72-93) | `Collision.DetectCollision` | `EmptyResult`, `DetectSubsequence`, `DetectMembers`, `DetectIdempotent`, `FindCollisions` |
| the group key at line 92 | `Collision.GroupColumns`, `Collision.GroupKey` | `GroupColumns`' contract, `SameGroup` |
| `nunique() > 1` at line 92 | `Collision.SampleIds`, `Collision.Collides` | `SampleIdsMembers`, `MoreThanOne`, `CollidesIff` |
| the boolean mask and `df[mask]` at lines 92-93 | `Collision.Mask`, `Collision.Select` | `SelectPositions`, `SelectMembers`, `DetectMembers` |

## Model

| member | source | states |
|---|---|---|
| Text.TrimLeftShape | samplesheet_collision_check.py:18 | left trimming removes exactly the leading run of stripped characters and keeps the rest of the string as a suffix |
| Text.TrimRightShape | samplesheet_collision_check.py:18 | right trimming removes exactly the trailing run of stripped characters and keeps the rest as a prefix |
| Text.StripShape | samplesheet_collision_check.py:32 | `strip` returns the middle of the string. Everything removed before and after it is a stripped character, and the result neither starts nor ends with one |
| Text.StripEmpty | samplesheet_collision_check.py:18-21 | a line strips to the empty string, and so counts as blank, exactly when all its characters are whitespace |
| Text.FirstIndexSpec | samplesheet_collision_check.py:66 | the separator search inside `split` finds the first occurrence of the character, and finds none exactly when the character does not occur |
| Text.BeforeSpec | samplesheet_collision_check.py:31 | `split(',')[0]` is the longest comma-free prefix of the line |
| Text.SplitOnceSpec | samplesheet_collision_check.py:66 | `split(',', 1)` gives one part exactly when there is no comma. Otherwise it gives a comma-free first part and the rest, which glue back into the line |
| Text.JoinSplit | samplesheet_collision_check.py:58 | splitting a line at commas gives comma-free cells that join back into the line |
| Text.SplitJoin | samplesheet_collision_check.py:58 | splitting cells that were joined with commas gives back the cells |
| SampleSheet.HeaderNameShape | samplesheet_collision_check.py:31-32 | a section name never contains a comma and neither starts nor ends with a bracket |
| SampleSheet.HeaderNameRoundTrip | samplesheet_collision_check.py:24-32 | `[name]`, followed by nothing or by a comma and anything else, is a header line, and its section name is `name` |
| SampleSheet.HeaderWithJunkNamesFoo | samplesheet_collision_check.py:24-32 | `[Foo],junk` is a header line naming the section `Foo` |
| SampleSheet.KvEntryWithoutComma | samplesheet_collision_check.py:66-68 | a key/value line without a comma gives the trimmed line as key and the empty string as value |
| SampleSheet.KvEntrySplitsAtFirstComma | samplesheet_collision_check.py:66-68 | a key/value line splits at its first comma only: later commas stay in the value, and both sides are trimmed |
| SampleSheet.KvSectionKeys | samplesheet_collision_check.py:63-70 | the key/value section's keys are exactly the keys its lines give |
| SampleSheet.KvSectionValues | samplesheet_collision_check.py:64-69 | each key holds the value of the last line giving that key, so a later duplicate overwrites an earlier one |
| SampleSheet.AssignKeys | samplesheet_collision_check.py:63-69 | a dictionary built by assigning pairs in order has exactly the pairs' keys |
| SampleSheet.AssignValues | samplesheet_collision_check.py:64-69 | in a dictionary built by assigning pairs in order, each key holds the value of its last pair |
| SampleSheet.MakeRowKeys | samplesheet_collision_check.py:58-59 | a record's columns all come from the header row |
| SampleSheet.MakeRowCells | samplesheet_collision_check.py:58-59 | a column takes the cell at its position, and is absent when the line is too short. When a column name repeats, its last position decides |
| SampleSheet.RowRoundTrip | samplesheet_collision_check.py:58-59 | a line with as many cells as the header has distinct columns becomes a record with exactly those columns, column `i` holding cell `i` |
| SampleSheet.ProcessDataSection | samplesheet_collision_check.py:52-59 | an empty buffer gives no records. Otherwise there is one record per line after the header line |
| SampleSheet.TableRoundTrip | samplesheet_collision_check.py:52-59 | reading back a table written as comma-separated lines gives, for each written record, the record built from the header and that record's cells |
| SampleSheet.ProcessSection | samplesheet_collision_check.py:43-50 | a section is a table exactly when its name ends in `Data`, and otherwise a key/value section |
| SampleSheet.Close | samplesheet_collision_check.py:26-27 | closing a section with a non-empty name stores `process_section(name, buffer)` under that name and leaves every other section as it was; with no current section, or an empty name, the document is unchanged |
| SampleSheet.ParseSampleSheet | samplesheet_collision_check.py:37-41 | the empty section name never appears in the result |
| SampleSheet.ScanAppend | samplesheet_collision_check.py:17-35 | the scan is a left fold: scanning `a + b` is scanning `b` from the state after `a` |
| SampleSheet.BodyAccumulates | samplesheet_collision_check.py:34-35 | lines without headers only append their trimmed non-blank text to the buffer |
| SampleSheet.BlankLineIgnored | samplesheet_collision_check.py:18-21 | inserting a blank line anywhere does not change the parsed document |
| SampleSheet.PreambleIgnored | samplesheet_collision_check.py:26-35 | lines before the first header never affect the parsed document |
| SampleSheet.NoHeaderNoSections | samplesheet_collision_check.py:37-41 | a sheet without a header line parses to the empty document |
| SampleSheet.AfterHeader | samplesheet_collision_check.py:26-33 | after a header line the current section is the header's name, with an empty buffer, over the document of the lines before it |
| SampleSheet.LastBlock | samplesheet_collision_check.py:24-39 | a header followed by header-free lines stores the section built from those lines under its name, replacing an earlier section of that name. It stores nothing when the name is empty |
| SampleSheet.EmptyNameDiscards | samplesheet_collision_check.py:26-33 | lines under an empty-named header `[]` never affect the parsed document |
| SampleSheet.SectionsComeFromHeaders | samplesheet_collision_check.py:24-39 | the document's sections are exactly the non-empty names of the sheet's header lines: every section is named by a header line, and every header line with a non-empty name leaves a section under that name |
| Collision.GroupColumns | samplesheet_collision_check.py:85-89 | the grouping columns are `Index`, with `Lane` and `Index2` exactly when the frame has them, with no column repeated |
| Collision.SameGroup | samplesheet_collision_check.py:92 | two rows fall into the same group exactly when both have every grouping column and agree on all of them |
| Collision.SampleIdsMembers | samplesheet_collision_check.py:92 | an id is counted for a group exactly when some row of that group carries it |
| Collision.MoreThanOne | samplesheet_collision_check.py:92 | a set has more than one element exactly when it holds two different ones |
| Collision.CollidesIff | samplesheet_collision_check.py:92 | a row's group has more than one distinct Sample_ID exactly when two rows of the group carry different Sample_IDs |
| Collision.SelectPositions | samplesheet_collision_check.py:93 | boolean-mask selection returns the items at exactly the flagged positions, in increasing order |
| Collision.SelectMembers | samplesheet_collision_check.py:93 | an item is selected exactly when it sits at a flagged position |
| Collision.DetectCollision | samplesheet_collision_check.py:77-82 | an empty frame is returned unchanged. Otherwise the result keeps the input's columns or has none, and has no more rows than the input |
| Collision.EmptyResult | samplesheet_collision_check.py:77-82 | without rows, or without an `Index` or `Sample_ID` column, the result is an empty frame |
| Collision.DetectSubsequence | samplesheet_collision_check.py:92-93 | the reported rows are the input rows at an increasing run of positions, and those positions are exactly the colliding rows |
| Collision.DetectMembers | samplesheet_collision_check.py:92-93 | a row is reported exactly when it is an input row and two rows of its group carry different Sample_IDs |
| Collision.ExcludedRowsAgree | samplesheet_collision_check.py:92-93 | a row that is not reported shares its group only with rows of its own Sample_ID |
| Collision.SameIdNeverCollides | samplesheet_collision_check.py:72-93 | when the rows of every group (rows with all grouping columns present) share one Sample_ID, nothing is reported, whatever Sample_IDs the rows outside every group carry |
| Collision.DetectIdempotent | samplesheet_collision_check.py:72-93 | running the detector on its own output changes nothing |
| Collision.SameIndicesOnTwoLanes | test_samplesheet_collision_check.py:5-15 | identical AAAA/CCCC indices on lanes 1 and 2 are no collision, and the result is empty |
| Collision.SharedIndicesOnOneLane | test_samplesheet_collision_check.py:17-30 | S1 and S2 sharing AAAA/CCCC on lane 1 are both reported, in order and as the only rows, and S3 is not |
| Collision.CollectGroups | samplesheet_collision_check.py:92 | one pass gathers, for every group that occurs, exactly its distinct Sample_IDs, and for every other key there are none |
| Collision.KeepColliding | samplesheet_collision_check.py:92-93 | the filtering pass keeps exactly the rows the collision mask selects, in order |
| Collision.FindCollisions | samplesheet_collision_check.py:72-93 | the two-pass grouping algorithm returns exactly the reference detector's result |

## Left out

- **File access** (`samplesheet_collision_check.py:13-17`: the existence check, `FileNotFoundError`, opening and UTF-8 decoding) is not modelled. The parser takes the file's lines as a sequence of strings.
- **The command-line block** (`samplesheet_collision_check.py:95-123`) is not modelled: argument parsing, printing, the exit status, and building the frame from the `BCLConvert_Data` section. This is glue around the two components.
- **pandas data frames** are reduced to a column set and a list of rows.
  - Column order and the row index labels are not represented. A reported row is its cells, not its label.
  - A missing cell stands for NaN. A row missing a grouping column belongs to no group (pandas' `dropna` default for `groupby`), so it is never reported. A missing Sample_ID is not counted by `nunique`.
- SampleSheet.ProcessDataSection: cells come from a plain split at every comma. `csv` quoting and escaping, extra cells beyond the header (stored under a `None` key by `csv.DictReader`) and the reader's dialect options are not modelled. Nor is the `_csv.Error` the reader raises for a field longer than `csv.field_size_limit()` (131072 characters by default): the model returns a record for any field length.
- SampleSheet.MakeRow: `csv.DictReader` fills a column past the end of a short line with `None`. The model leaves that column out of the record, which is how a missing value reaches the detector.

# Import-usage analysis, modelled in Dafny

This project models the core of a small Java tool that reports, for every Java source file
under a root directory, which `import` declarations the file actually uses. The tool then
writes the report as a spreadsheet. Four parts are modelled:

- **Import classification** (`ImportAnalysis.getJavaFileImports`). The parser's five node
  queries are taken as inputs (`NodeNames`): plain names, type names, annotation names,
  method-call names and field-access names. `CollectUsage` turns them into the four name
  sets the method builds, the static-use set being the union of the last two. Each import is matched on its last name segment. A static import
  matches against the method-call and field-access names. Any other import matches against
  names, types and annotations. The declared imports are split, in order, into `used` and
  `unused`, and `all` is their order-preserving de-duplicated concatenation. Each list is
  rendered as its fully qualified names joined by line breaks under the keys `used`,
  `unused` and `all`.
- **Path depth columns** (`getJavaFileDepths`). A path relative to the parent of the
  analysis root becomes the ordered map `"depth 1" -> first segment, ..., "depth n" -> file
  name`.
- **Row assembly and schema alignment** (`extractFileInfo`, `analyze`). Each row is the
  depth map followed by the import map. A file that cannot be read contributes no row. The
  schema is the key set of the first row of maximal size. Every row is re-keyed over the
  schema, with `null` where the row has no value.
- **Spreadsheet grid** (`XlsxResultWriter.export`), as a pure grid of cells:
  - empty data is refused;
  - a row index past 1,048,575, a column index past 16,383 or a cell text longer than
    32,767 characters is refused, as the workbook library refuses it;
  - the columns are the first-seen union of all row keys;
  - row 0 holds the title, merged across the columns only when there are two or more;
  - row 1 holds the column names;
  - data row `k` sits at row `k + 2`;
  - a missing or `null` value becomes `""`;
  - a cell gets the wrapping style exactly when its text has a line break.

Java's ordered collections are modelled as sequences:

- A `LinkedHashMap` is a sequence of key/value pairs (`LinkedMaps`). `put` replaces an
  existing key in place and appends a new one.
- A `LinkedHashSet` filled by `add`/`addAll` is `Sequences.InsertAll`/`Dedup`.
- `String.join` and splitting on a one-character separator are in `Text`, with both round
  trips proved.
- `"depth " + i` uses a decimal rendering that is proved injective, so the `toMap` merge
  function in `getJavaFileDepths` never has to choose between two values.

`Stream.max(Comparator.comparingInt(Map::size))` is a reduction that keeps the earlier
element on a tie, so the schema comes from the *first* largest row. `LargestRow` is
modelled as that left fold.

### Files with malformed syntax

`extractFileInfo` (src/main/java/analysis/library/ImportAnalysis.java:69-80) catches only
`IOException`. A syntax error from `StaticJavaParser.parse` is the parser's unchecked
`ParseProblemException`, so it escapes `extractFileInfo` and ends `analyze` with that
exception; the file is not skipped. The model follows the code:

- `ParseOutcome.ReadFailed` is an I/O failure. The file is dropped.
- `ParseOutcome.SyntaxRejected` is a parse problem. `Analyze` returns `Failure`, naming the
  first such file in traversal order.

`ImportAnalysis.FileInfoListFailure`, `ImportAnalysis.FileInfoListRows` and
`ImportAnalysis.AnalyzeSpec` state both behaviours.

## Model

| member | source | states |
|---|---|---|
| ImportClassifier.PartitionFromTree | src/main/java/analysis/library/ImportAnalysis.java:124-161 | from the five name lists of a parsed file: an import lands in `used` iff it is static and its last segment is a method-call or field-access name, or it is non-static and its last segment is a plain, type or annotation name; every other import lands in `unused` |
| ImportClassifier.PartitionMembers | src/main/java/analysis/library/ImportAnalysis.java:150-159 | an import lands in `used` iff it is static and its last segment is a method-call or field-access name, or it is non-static and its last segment is a plain, type or annotation name; otherwise it lands in `unused` |
| ImportClassifier.PartitionCounts | src/main/java/analysis/library/ImportAnalysis.java:150-164 | every declared import lands in exactly one side: the two sides together are the declared imports as a multiset |
| ImportClassifier.PartitionOrder | src/main/java/analysis/library/ImportAnalysis.java:150-164 | both sides keep declaration order: each is a subsequence of the declared imports |
| ImportClassifier.Names | src/main/java/analysis/library/ImportAnalysis.java:160 | the output names are the fully qualified dotted names, one per import, in order |
| ImportClassifier.QualifiedNameSegments | src/main/java/analysis/library/ImportAnalysis.java:153-160 | the dotted name splits back into its segments, and its last segment is the identifier used for matching |
| ImportClassifier.ClassifySplitsDeclared | src/main/java/analysis/library/ImportAnalysis.java:150-164 | the `used` and `unused` name lists together are the declared names as a multiset, and each list is a subsequence of the declared names |
| ImportClassifier.ClassifyAll | src/main/java/analysis/library/ImportAnalysis.java:165-166 | `all` has no repeats, holds exactly the declared names, and lists them in the order of their first appearance in `used` followed by `unused` |
| ImportClassifier.ImportMap | src/main/java/analysis/library/ImportAnalysis.java:168-173 | the map has exactly the keys `used`, `unused`, `all` in that order, with no repeats; with no imports all three values are empty |
| ImportClassifier.PutsAppend | src/main/java/analysis/library/ImportAnalysis.java:168-171 | the three `put` calls on a new map give the entries `used`, `unused`, `all` in that order |
| ImportClassifier.ImportMapGet | src/main/java/analysis/library/ImportAnalysis.java:168-173 | looking up `used`, `unused` or `all` gives the joined list of that side, and any other key is absent |
| ImportClassifier.ImportMapLines | src/main/java/analysis/library/ImportAnalysis.java:169-171 | each value is its list joined by line breaks; splitting a non-empty value at line breaks gives the list back; a value holds a line break iff its list has two or more names |
| ImportClassifier.ImportMapIgnoresAsterisk | src/main/java/analysis/library/ImportAnalysis.java:150-173 | the import map does not depend on whether any import is a wildcard import |
| ImportClassifier.PartitionIgnoresAsterisk | src/main/java/analysis/library/ImportAnalysis.java:150-161 | the partition's name lists do not depend on the wildcard flags |
| PathDepths.DepthKeyInjective | src/main/java/analysis/library/ImportAnalysis.java:98 | two depths with the same column name are the same depth |
| PathDepths.DepthKeysDistinct | src/main/java/analysis/library/ImportAnalysis.java:95-102 | the depth column names of a path never repeat, so the `toMap` merge function is never applied |
| PathDepths.DepthMapEntries | src/main/java/analysis/library/ImportAnalysis.java:93-102 | a path of n segments gives exactly n entries, entry i being `"depth i+1"` with segment i, in order |
| PathDepths.DepthEntriesAppend | src/main/java/analysis/library/ImportAnalysis.java:95-102 | after the first n indices are collected the map holds n entries, the i-th keyed `"depth i+1"` with segment i, because each new key is fresh |
| PathDepths.DepthKeyBeyond | src/main/java/analysis/library/ImportAnalysis.java:95-98 | the first n depth column names do not include a deeper one |
| PathDepths.DepthMapLookup | src/main/java/analysis/library/ImportAnalysis.java:93-102 | looking up `"depth i"` gives segment i-1 for 1 <= i <= n, and any key outside the n depth names is absent |
| ImportAnalysis.RowLayout | src/main/java/analysis/library/ImportAnalysis.java:69-80 | a row is the depth map followed by the import map; its keys are the depth keys then `used`, `unused`, `all`, with no repeats and n + 3 entries |
| ImportAnalysis.RowImportValues | src/main/java/analysis/library/ImportAnalysis.java:70-73 | the row of a parsed file holds under `used`, `unused` and `all` the joined lists its imports classify into |
| ImportAnalysis.RowIsConcat | src/main/java/analysis/library/ImportAnalysis.java:70-73 | both `putAll` calls only append, so a row is the depth map followed by the import map |
| ImportAnalysis.RowKeysDistinct | src/main/java/analysis/library/ImportAnalysis.java:70-73 | depth columns and import columns never share a name |
| ImportAnalysis.RowDepthValue | src/main/java/analysis/library/ImportAnalysis.java:70-73 | a row holds segment d-1 under `"depth d"` for every depth of its path |
| ImportAnalysis.RowLacksDeeperDepth | src/main/java/analysis/library/ImportAnalysis.java:70-73 | a row has no depth column deeper than its path |
| ImportAnalysis.FileInfoListFailure | src/main/java/analysis/library/ImportAnalysis.java:38-41 | the row list fails iff some file is rejected by the parser, and the error names the first rejected file in traversal order |
| ImportAnalysis.FileInfoListRows | src/main/java/analysis/library/ImportAnalysis.java:38-41 | without a failure, the rows are those of the parsed files in traversal order; unreadable files contribute nothing |
| ImportAnalysis.ParsedFiles | src/main/java/analysis/library/ImportAnalysis.java:38-41 | the kept files are exactly the files that were parsed, in traversal order (a subsequence of the input) |
| ImportAnalysis.ParsedFilesCount | src/main/java/analysis/library/ImportAnalysis.java:38-41 | each parsed file is kept exactly as often as it occurs in the traversal, and no other file is kept |
| ImportAnalysis.SchemaIsFirstLargest | src/main/java/analysis/library/ImportAnalysis.java:46-49 | with no rows the schema is empty; otherwise it is the key list of a row that is at least as large as every row and strictly larger than every earlier row |
| ImportAnalysis.LargestRowIsFirstLargest | src/main/java/analysis/library/ImportAnalysis.java:46-48 | the reduction returns the first row of maximal size |
| ImportAnalysis.BuiltRowsWithinSchema | src/main/java/analysis/library/ImportAnalysis.java:46-56 | the schema is the depth keys of a deepest file followed by the import keys, and every row's keys lie within it |
| ImportAnalysis.ShallowerKeysIncluded | src/main/java/analysis/library/ImportAnalysis.java:93-102 | the keys of a row for a shallower path are among the keys of a row for a deeper one |
| ImportAnalysis.AlignSpec | src/main/java/analysis/library/ImportAnalysis.java:50-56 | a re-keyed row has exactly the schema keys in schema order; each value is the original value or null; a well-formed row whose keys lie in the schema keeps every original entry |
| ImportAnalysis.AnalyzeByPuts | src/main/java/analysis/library/ImportAnalysis.java:46-56 | every row of a successful analysis equals what the per-key `put` loop builds from that file's row over the schema |
| ImportAnalysis.SchemaShape | src/main/java/analysis/library/ImportAnalysis.java:46-56 | the schema of a non-empty run repeats no key and is the key layout of a deepest file |
| ImportAnalysis.AlignByPuts | src/main/java/analysis/library/ImportAnalysis.java:50-54 | when the schema repeats no key, putting `(key, row.get(key))` into a new map for each schema key in turn gives the re-keyed row |
| ImportAnalysis.AlignGet | src/main/java/analysis/library/ImportAnalysis.java:53 | looking up a schema key in a re-keyed row gives the original row's lookup |
| ImportAnalysis.AnalyzeSpec | src/main/java/analysis/library/ImportAnalysis.java:35-60 | the analysis fails iff a file is rejected by the parser; otherwise it has one row per readable file, in traversal order, and row t is file t's row re-keyed over the schema (`RowAligned`): exactly the schema keys, each holding the file's value or null, a depth column within the file's path holding its segment and a deeper one holding null |
| ImportAnalysis.AlignedRowSpec | src/main/java/analysis/library/ImportAnalysis.java:50-56 | a file's row re-keyed over a schema that covers its keys satisfies `RowAligned` |
| XlsxExport.Export | src/main/java/export/XlsxResultWriter.java:33-100 | empty data fails with `EmptyData`; otherwise the export fails with `LimitExceeded` iff some row index, column index or text lies beyond the format's limits; on success there are data + 2 rows indexed from 0, the title cell is in row 0 with the title style, the title is merged over columns 0..n-1 only when n > 1, row 1 is the header, and row k + 2 holds the cells of data row k (`LaidOut`) |
| XlsxExport.SheetReadBack | src/main/java/export/XlsxResultWriter.java:42-99 | in every sheet laid out as the export lays it out (`LaidOut`), every key of data row k heads some column whose cell in row k + 2 is the row's value (`""` for null); every column is headed by a key of some row; no two columns share a name; a column whose name a row lacks is `""` in that row |
| XlsxExport.Columns | src/main/java/export/XlsxResultWriter.java:42-43 | the loop that adds every row's keys to an insertion-ordered set computes the column names |
| XlsxExport.ColumnNamesSpec | src/main/java/export/XlsxResultWriter.java:42-43 | the column names have no repeats, are exactly the keys that some row has, and keep the order of first appearance across the rows |
| XlsxExport.Header | src/main/java/export/XlsxResultWriter.java:79-85 | the header loop produces those header cells |
| XlsxExport.DataRows | src/main/java/export/XlsxResultWriter.java:88-99 | data row k becomes sheet row k + 2, in input order, with that row's cells |
| XlsxExport.DataCells | src/main/java/export/XlsxResultWriter.java:91-98 | one cell per column, in column order; an absent key or a null value gives `""`, otherwise the row's value; the wrap style is used iff the text holds a line break, else the default style |
| XlsxExport.ColumnNamesOfUniformRows | src/main/java/export/XlsxResultWriter.java:42-43 | when every row has the same repeat-free keys, the column names are exactly those keys in their order |
| Report.AnalysisColumns | src/main/java/SampleAnalysis.java:17-22 | for a non-empty analysis, the spreadsheet columns are the schema: the depth columns of a deepest file followed by `used`, `unused`, `all` |
| Report.Run | src/main/java/SampleAnalysis.java:17-22 | running the analysis then the export fails with the analysis error of the first rejected file iff a file is rejected by the parser, fails with `EmptyData` iff no file was read, fails with `LimitExceeded` iff the table does not fit a sheet, and otherwise the sheet is the export layout (`LaidOut`) of the analysis table: row t + 2 holds the cells of read file t's row re-keyed over the schema, under a header that is the schema |
| Sequences.InsertAll | src/main/java/analysis/library/ImportAnalysis.java:165-166 | adding to an insertion-ordered set yields exactly the old and the new members, and keeps the set free of repeats |
| Sequences.DedupFirstSeen | src/main/java/analysis/library/ImportAnalysis.java:165-166 | de-duplication keeps each element once, keeps the same members, and orders them by first occurrence |
| Sequences.InsertAllConcat | src/main/java/export/XlsxResultWriter.java:43 | adding two lists one after the other is the same as adding their concatenation |
| Text.JoinRoundTrip | src/main/java/analysis/library/ImportAnalysis.java:169-171 | for pieces without the separator, splitting a non-empty join gives the pieces back, and the join holds a separator iff there are two or more pieces |
| Text.JoinSplit | src/main/java/analysis/library/ImportAnalysis.java:169-171 | joining the pieces of any split gives the original string back |
| Text.NatToStringInjective | src/main/java/analysis/library/ImportAnalysis.java:98 | distinct numbers render as distinct decimal strings |
| LinkedMaps.PutAllFresh | src/main/java/analysis/library/ImportAnalysis.java:70-73 | `putAll` of entries whose keys are new and repeat-free appends them in order |
| LinkedMaps.PutGet | src/main/java/analysis/library/ImportAnalysis.java:168-171 | after `put(k, v)`, looking up `k` gives `v` |
| LinkedMaps.PutGetOther | src/main/java/analysis/library/ImportAnalysis.java:168-171 | `put(k, v)` leaves the value of every other key unchanged, present or absent |
| LinkedMaps.GetEntry | src/main/java/analysis/library/ImportAnalysis.java:53 | in a map without repeated keys, looking up an entry's key gives that entry's value |

## Left out

- Parsing with JavaParser (`StaticJavaParser.parse`, `findAll`) is a foreign library. The
  parse result is an input: the import list and the five name lists of the node queries, or
  a read failure, or a syntax rejection.
- How the parser splits a wildcard import into qualifier and identifier is defined by the
  parser. The model only proves that the wildcard flag itself is never consulted.
- `Path.relativize` and `getParent` (src/main/java/analysis/library/ImportAnalysis.java:94)
  are left out: the relative path is given as its segment list. The `NullPointerException`
  for a root without a parent is not modelled.
- Walking the file system and filtering by extension (src/main/java/util/AnalysisUtils.java)
  is I/O. The file list is given in traversal order.
- The POI workbook, cell styles, fonts, colours, `autoSizeColumn` and writing the output
  stream (src/main/java/export/XlsxResultWriter.java:38-40, 45-70, 102-111) are left out.
  Styles are reduced to three tags. A failure while writing is I/O and is not modelled.
- `ResultWriter.exportToDefaultLocation` is left out: it creates a directory and builds a
  file name from the clock and the class name. `getFileExtension` returns a constant and is
  left out too.
- Logging throughout is left out.
- The title field, its default `"Analysis Result"` and its generated setter are not
  modelled. The title is a parameter of `Export`.
- XlsxExport.Export: a cell text's length is counted in characters of the model's strings,
  while the workbook library counts UTF-16 code units, so for text outside the Basic
  Multilingual Plane the limit check is not exact. The `IOException` from opening or writing
  the output file is I/O and not modelled.

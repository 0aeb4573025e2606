# Parquet viewer: a verified model of its rules

The parquet viewer is a desktop program for looking at tabular data files: Parquet,
CSV, gzip-compressed CSV and delimited text. It shows files one page at a time,
keeps a list of recently opened files, exports rows, and writes and compares
"schema" JSON files. A schema file lists each column's name, its pandas type and
the Spark type it maps to. The repository contains two programs:

- the current Qt application under `src/`;
- an older single-window program, `app.py`.

This project models the parts of both programs that follow rules, rather than
drawing widgets. It proves what those rules guarantee.

| module (file) | models |
|---|---|
| `Schema` (schema.dfy) | `src/schema.py`: mapping pandas types to Spark types; building the schema table and its JSON form; comparing two schemas in both directions |
| `TableModels` (table_models.dfy) | `src/pandas_model.py`: the table model, and the pagination proxy as a class with `page` and `pageSize` fields |
| `Config` (config.dfy) | `src/config.py`: the most-recently-used file list over a JSON file store; the fallback to default configuration |
| `MainWindow` (main_window.dfy) | `src/main_window.py`: file-name parsing, choosing a loader, text-file options, `colN` headers, export helpers, and the window state across load, search, show, page and clear |
| `LegacyApp` (legacy_app.dfy) | `app.py`: the narrower type mapping, the schema table, the file-name rule, cursor paging over `dataindex`/`datarows` with its `while` loop, and the one-directional schema comparison loop |
| `Text`, `Seqs`, `Wrappers` | Python string and list operations the others use (`lower`, `split`, `strip`, `startswith`, comprehensions with `if`, `list.remove`), and `Option` |

State that the source changes in place is held in classes whose methods carry
`modifies` clauses:

- `PandasModel` and `PaginationProxyModel`;
- the recent-files store;
- the main window;
- the older viewer.

Pure computations are functions, and the properties that relate several
operations are lemmas. The four `compare_schemas` lists:

- are stated by membership and by order;
- are connected to the older comparison both ways when names are distinct;
- and `CompareWithItself` and `NoDifferencesIffEqual` prove that "no differences" means the two
  schemas are equal.

Inputs that come from outside the program are parameters of the operations that use them:

- the number of rows left by the search filter;
- whether a path exists on disk;
- whether the recent-files file can be written;
- the answers given in the options dialog;
- the clock's `created_at` text;
- the page-limit spin box.

## Model

| member | source | states |
|---|---|---|
| Schema.GetSparkType | src/schema.py:26-37 | The result is always one of integer, double, string, boolean, timestamp. Each is characterised by an iff on the lower-cased name: integer ⇔ `int`/`uint` prefix; double ⇔ `float` prefix or `double`; boolean ⇔ `bool`/`boolean`; timestamp ⇔ `datetime` prefix; string otherwise |
| Schema.TableAgreesWithPrefixes | src/schema.py:13-23 | Every entry of the exact-name table is one of the five types. An entry is integer iff the name starts with `int`/`uint`, double iff it starts with `float` or is `double`, boolean iff it is `bool`/`boolean`, and timestamp iff it starts with `datetime` |
| Text.Lower | src/schema.py:28 | Lower-casing keeps the length and lower-cases each character |
| Schema.SparkTypeIgnoresCase | src/schema.py:28 | The mapping gives the same type for a name and its lower-cased form |
| Schema.ExactEntryWins | src/schema.py:29-30 | A name that is in the table, once lower-cased, gets the table's entry |
| Schema.TableOnlyNames | src/schema.py:21-22 | `timedelta64[ns]` and `category` are strings, decided by the table |
| Schema.NullableSpellings | src/schema.py:31-34 | `Int64`, `UInt8` and `Float64` reach integer and double through lower-casing and the prefix rules |
| Schema.PrefixOnly | src/schema.py:35-36 | A `datetime64[ns, UTC]` column is a timestamp by prefix |
| Schema.Fallback | src/schema.py:37 | An unknown name such as `decimal` is a string |
| Schema.GetSchemaDf | src/schema.py:40-50 | One row per column, in column order, carrying the column's name, its pandas type and `GetSparkType` of that type |
| Schema.NormaliseKey | src/schema.py:57 | A key keeps its length; each space becomes `_` and every other character is lower-cased, so no space is left |
| Schema.NormaliseKeyIdempotent | src/schema.py:57 | Normalising an already normalised key changes nothing |
| Schema.NormalisedHeaders | src/schema.py:57 | The three headings become `column_name`, `pandas_type`, `spark_type` |
| Schema.ToRecord | src/schema.py:57-59 | A row becomes a record with exactly the three normalised keys, each holding the row's value |
| Schema.SchemaToJsonDict | src/schema.py:53-63 | One record per schema row, in order; `total_columns` is the row count; `data_file` is name + "." + extension; `created_at` is the given time |
| Schema.ReadColumns | src/schema.py:101-105 | Reading the records succeeds iff every record has both `column_name` and `spark_type`; it then gives one column per record, in order |
| Schema.WrittenSchemaReadsBack | src/schema.py:53-63 | A written schema reads back as exactly its rows' names and Spark types |
| Schema.Names | src/schema.py:104-105 | The names list has one entry per record, in order |
| Schema.TypeMap | src/schema.py:101-102 | The dict's keys are exactly the names that occur |
| Schema.TypeMapLastWins | src/schema.py:101-102 | A repeated name maps to the type of its last occurrence (dict construction is last-wins) |
| Schema.TypeMapDistinct | src/schema.py:101-102 | With distinct names, each name maps to its own column's type |
| Schema.TypeMismatches | src/schema.py:112-116 | A mismatch entry exists iff the name is in file 1, occurs in both dicts with different types, and the entry carries both types |
| Schema.TypeMismatchOrder | src/schema.py:112-116 | Mismatches are listed in file-1 order: their names are exactly file 1's names filtered by "in both, types differ" |
| Schema.PositionMap | src/schema.py:122 | `pos2` holds exactly the file-2 names that file 1 also has, each mapped to the index of its last occurrence in the full file-2 list |
| Schema.PositionMapDistinct | src/schema.py:122 | With distinct names, `pos2` maps each kept name to its own index |
| Schema.OrderMismatchesFrom | src/schema.py:124-131 | An order entry exists iff a common name's index among the common names differs from its `pos2` index; entries come in increasing file-1 index |
| Schema.OrderMismatchesFromMembers | src/schema.py:124-131 | An entry exists exactly for an index in range whose name has a `pos2` entry that is a different index, and it carries that entry |
| Schema.LastPosition | src/schema.py:122 | A kept name maps to p in `pos2` exactly when p is the last index of that name in file 2 |
| Schema.OrderMismatchesOfNames | src/schema.py:122-131 | With `pos2` built from file 2, an entry exists exactly for a common name whose last index in file 2 differs from its own index |
| Schema.SchemaComparisonResult.TotalDifferences | src/schema.py:79-87 | The total is 0 iff there are no differences, and it is at least each list's length |
| Schema.SchemaComparisonResult.HasDifferences | src/schema.py:79-82 | `has_differences`: some list is non-empty; `TotalDifferences` is 0 exactly when it is false |
| Schema.CommonNames | src/schema.py:121 | `common`: file 1's names that file 2 has, in file-1 order (pinned by `SwappedColumnsCommon` and `InsertedColumnCommon`) |
| Schema.TypeMismatch.Message | src/schema.py:112-116 | The listed text: the name, the type in file 1, `vs`, the type in file 2 |
| Schema.OrderMismatch.Message | src/schema.py:124-131 | The listed text, with both 0-based positions shown plus one; see `OrderMismatchMessage` |
| Schema.OrderMismatchMessage | src/schema.py:127-130 | The name at index 0 of file 1 and index 1 of file 2 is listed as position 1 in file 1 vs position 2 in file 2 |
| Schema.CompareSchemas | src/schema.py:90-135 | `only_in_first` holds exactly the file-1 names missing from file 2; `only_in_second` is the converse; the type and order lists are as stated by the members above; mismatches follow file-1 order |
| Schema.OnlyInKeepOrder | src/schema.py:108-109 | Each only-in list is a subsequence of its own file's names, so it keeps that order; a name occurs in it as often as in its file when the other file lacks it, and not at all otherwise |
| Schema.OrderMismatchesOfCompare | src/schema.py:121-131 | The order list is computed over the common names of file 1 and `pos2` of the full file-2 list, starting from index 0 |
| Schema.OrderMismatchMeaning | src/schema.py:121-131 | An order entry exists iff its name is the k-th common name of file 1 and its last index in file 2 is a different number; entries are in increasing k |
| Schema.OnlyInSwap | src/schema.py:108-109 | `only_in_first(a, b) == only_in_second(b, a)`, and the other way round |
| Schema.NoTypeMismatches | src/schema.py:112-116 | Dicts that agree on every shared name give no type mismatches |
| Schema.NoOrderMismatches | src/schema.py:124-131 | When every common name sits at its own index in file 2, no order mismatch is reported |
| Schema.CompareWithItself | src/schema.py:101-131 | A schema with distinct names compared with itself gives four empty lists |
| Schema.NoDifferencesSameTypes | src/schema.py:79-82 | No differences implies that the two type dicts are equal |
| Schema.NoDifferencesSameKeys | src/schema.py:79-82 | No differences implies that both files have the same set of names |
| Schema.NoDifferencesSameValues | src/schema.py:79-82 | No differences implies that shared names have equal types |
| Schema.NoDifferencesSameIndex | src/schema.py:121-131 | No differences and distinct file-2 names imply that column i of file 1 has the name of column i of file 2 |
| Schema.NoDifferencesSameNames | src/schema.py:121-131 | No differences with distinct names implies the same name list |
| Schema.NoDifferencesIffEqual | src/schema.py:79-82 | With distinct names on both sides, "no differences" holds iff the two schemas are equal |
| Schema.HasDifferencesSymmetric | src/schema.py:79-82 | With distinct names, `has_differences` does not depend on which file comes first |
| Schema.CompareSchemaJson | src/schema.py:90-105 | The comparison of two JSON documents succeeds iff every record of both has the two keys it reads |
| Schema.SameColumnsNoDifferences | src/schema.py:40-135 | Two schema files written from the same distinct columns compare with no differences, whatever their file names and times |
| Schema.SwappedColumnsExistence | src/schema.py:104-109 | For [x, y, z] against [y, x]: nothing is only in file 2 |
| Schema.SwappedColumnsOnlyInFirst | src/schema.py:108 | For [x, y, z] against [y, x]: only z is only in file 1 |
| Schema.SwappedColumnsTypes | src/schema.py:112-116 | For [x, y, z] against [y, x]: nothing has a type mismatch |
| Schema.SwappedColumnsCommon | src/schema.py:121 | For [x, y, z] against [y, x]: the common names are [x, y] |
| Schema.SwappedColumnsPositions | src/schema.py:122 | For [x, y, z] against [y, x]: `pos2` maps y to 0 and x to 1 |
| Schema.SwappedColumnsOrder | src/schema.py:124-131 | For [x, y, z] against [y, x]: x is reported at positions 1 and 2, and y at positions 2 and 1 |
| Schema.InsertedColumnCommon | src/schema.py:121 | For [x, y] against [w, x, y]: the common names are [x, y] |
| Schema.InsertedColumnPositions | src/schema.py:122 | For [x, y] against [w, x, y]: `pos2` maps x to 1 and y to 2 |
| Schema.InsertedColumnFlagsAll | src/schema.py:119-131 | For [x, y] against [w, x, y]: both x and y are order mismatches, although their relative order is the same (see Findings) |
| Schema.CompareSchemasCommonOrder | src/schema.py:119-121 | The comparison with positions over the common names of both files, as the comment meant, keeps the other three lists unchanged |
| Schema.CommonOrderMismatchesIffReordered | src/schema.py:119-120 | With distinct names, positions over the common names of both files report nothing iff the common columns appear in the same relative order in both |
| Schema.SameRelativeOrderNoMismatch | src/schema.py:119-120 | The same relative order implies no mismatch in the corrected check |
| Schema.NoMismatchSameRelativeOrder | src/schema.py:119-120 | No mismatch in the corrected check implies the same relative order |
| Schema.CommonAtSameIndex | src/schema.py:119-120 | With no mismatch in the corrected check, the i-th common name is the same on both sides |
| TableModels.PandasModel.RowCount | src/pandas_model.py:27-30 | 0 under a valid parent, else the number of rows |
| TableModels.PandasModel.ColumnCount | src/pandas_model.py:32-35 | 0 under a valid parent, else the number of columns |
| TableModels.PandasModel.constructor | src/pandas_model.py:21-23 | The given table, or the empty table |
| TableModels.PandasModel.UpdateDataframe | src/pandas_model.py:55-59 | The table is replaced by the new one |
| TableModels.PandasModel.Clear | src/pandas_model.py:61-62 | The table is empty, with no rows and no columns |
| TableModels.PageCount | src/pandas_model.py:101-106 | 0 iff there are no rows; otherwise n with (n−1)·size < total ≤ n·size, that is ceil(total / size) |
| TableModels.ShowingFrom | src/pandas_model.py:109-113 | `showing_from`: 0 without rows, else page·size + 1; see `AcceptedRowsAreShown` and `ShownRangeOnExistingPage` |
| TableModels.ShowingTo | src/pandas_model.py:116-119 | `showing_to`: min((page+1)·size, total); see `AcceptedRowsAreShown` and `ShownRangeOnExistingPage` |
| TableModels.AcceptsRow | src/pandas_model.py:152-155 | `filterAcceptsRow`: page·size ≤ row < page·size + size; see `EveryRowOnOnePage` |
| TableModels.Forward | src/pandas_model.py:136-141 | The page moves forward by one exactly when it is before the last page, and otherwise stays |
| TableModels.Backward | src/pandas_model.py:143-148 | The page moves back by one exactly when it is after the first page, and otherwise stays |
| TableModels.ClampPage | src/pandas_model.py:128-131 | The page lies within [0, max(0, count−1)]; an existing page is kept; a page below range goes to 0 and one above goes to the last page |
| TableModels.StepsStayInRange | src/pandas_model.py:136-148 | Next and Previous keep an existing page existing |
| TableModels.StepsUndo | src/pandas_model.py:136-148 | A Previous undoes a Next that moved, and the other way round |
| TableModels.AcceptedRowsAreShown | src/pandas_model.py:108-119 | A row passes `filterAcceptsRow` iff its 1-based number lies between `showing_from` and `showing_to` |
| TableModels.EveryRowOnOnePage | src/pandas_model.py:152-155 | Each row is accepted by exactly one page, row / size, and that page exists |
| TableModels.ShownRangeOnExistingPage | src/pandas_model.py:108-119 | On an existing page, 1 ≤ from ≤ to ≤ total, and the last page ends at the last row |
| TableModels.NineRowsInThrees | src/pandas_model.py:101-148 | 9 rows in pages of 3: 3 pages, page 5 clamps to page 2, which shows 7 to 9; no rows gives (0, 0) and no step |
| TableModels.PaginationProxyModel.constructor | src/pandas_model.py:80-83 | Page 0, page size 50 |
| TableModels.PaginationProxyModel.CurrentPageCount | src/pandas_model.py:102-106 | `page_count` over the current page size; see `PageCount` |
| TableModels.PaginationProxyModel.CurrentShowingFrom | src/pandas_model.py:109-113 | `showing_from` over the current page and size; see `ShowingFrom` |
| TableModels.PaginationProxyModel.CurrentShowingTo | src/pandas_model.py:116-119 | `showing_to` over the current page and size; see `ShowingTo` |
| TableModels.PaginationProxyModel.FilterAcceptsRow | src/pandas_model.py:152-155 | `filterAcceptsRow` over the current page and size; see `AcceptsRow` |
| TableModels.PaginationProxyModel.SetPageSize | src/pandas_model.py:123-126 | The size becomes max(1, size) and the page becomes 0 |
| TableModels.PaginationProxyModel.GoToPage | src/pandas_model.py:128-131 | The page becomes the requested page clamped to the existing pages; the size is unchanged |
| TableModels.PaginationProxyModel.FirstPage | src/pandas_model.py:133-134 | The page becomes 0 |
| TableModels.PaginationProxyModel.NextPage | src/pandas_model.py:136-141 | The result is true iff page < count − 1; the page is stepped forward exactly then |
| TableModels.PaginationProxyModel.PreviousPage | src/pandas_model.py:143-148 | The result is true iff page > 0; the page is stepped back exactly then |
| Config.LoadedRecentFiles | src/config.py:55-64 | Nothing for a missing or unreadable file; otherwise the stored paths that exist on disk, each as often as it is stored (order by `LoadedKeepsStoredOrder`) |
| Config.LoadedKeepsStoredOrder | src/config.py:61 | The loaded paths are a subsequence of the stored ones |
| Config.Saved | src/config.py:67-72 | What is written is the first min(n, 10) paths |
| Config.AddedRecent | src/config.py:75-83 | The path is first; the length is min(10, old length, plus one if the path is new); the rest is the old list without the path, cut to fit |
| Config.AddedRecentOnce | src/config.py:78-80 | A path listed at most once before is listed exactly once afterwards |
| Config.AddedRecentKeepsOrder | src/config.py:78-81 | The other entries keep their relative order, and every entry was loaded or is the new path |
| Config.AddedRecentIdempotent | src/config.py:75-83 | Adding the most recent path again changes nothing |
| Config.AddedRecentDropsOldest | src/config.py:75-83 | With ten paths listed, a new path goes first and the oldest is dropped |
| Config.AddedRecentExamples | src/config.py:75-83 | Re-opening b in [a, b, c] gives [b, a, c]; a first file gives a one-entry list |
| Config.RecentFilesStore.SaveRecentFiles | src/config.py:67-72 | A writable store then holds the first ten paths; an unwritable one keeps its content |
| Config.RecentFilesStore.AddRecentFile | src/config.py:75-83 | Returns `AddedRecent` of the loaded list, and stores it when the store is writable |
| Seqs.RemoveFirst | src/config.py:79 | `list.remove`: one element fewer when the path is listed, and the list itself when it is not |
| Seqs.RemoveFirstMultiset | src/config.py:79 | Exactly one occurrence of the path is taken away, and nothing else |
| Config.LoadConfig | src/config.py:33-42 | The result is never empty: the parsed document when it is non-empty, else `_DEFAULT_CONFIG` (also for a missing or unreadable file) |
| MainWindow.Basename | src/main_window.py:46 | The base name contains no `/`; it is the whole path when the path has no `/`, and otherwise it is shorter and preceded by a `/` |
| MainWindow.ParseFileInfo | src/main_window.py:44-51 | `_parse_file_info`; what it returns is stated by `ParseCompressedCsv`, `ParsePlainFile` and `ParseFileInfoOfDotted` |
| MainWindow.SplitExt | src/main_window.py:50 | The extension is empty exactly when no dot follows a character other than a dot, and the name is then the whole base name; otherwise the extension is a dot and the text after the last dot, and the name is what precedes that dot |
| MainWindow.SplitExtJoins | src/main_window.py:50 | The name and the extension `splitext` returns concatenate to the base name |
| MainWindow.StripLeadingDots | src/main_window.py:51 | The result is a suffix of the text with no leading dot, and what was cut off is all dots |
| MainWindow.StripLeadingDotsOfDotted | src/main_window.py:50-51 | Stripping the dot off `.` + a dot-free extension gives the extension |
| MainWindow.ParseCompressedCsv | src/main_window.py:44-49 | A base name ending in `.csv.gz` (any case) gives the base name less 7 characters, and `csv.gz` |
| MainWindow.ParsePlainFile | src/main_window.py:50-51 | Otherwise the `splitext` name, and the extension with its dots stripped; the name and extension rebuild the base name |
| MainWindow.ParseFileInfoOfDotted | src/main_window.py:44-51 | For dir/name.ext with a dot-free name and extension that is not `.csv.gz`, the newer rule gives (name, ext) |
| MainWindow.BasenameOfPath | src/main_window.py:46 | The base name of dir/file, for a file name without `/`, is that file name |
| MainWindow.RecentActionForExtension | src/main_window.py:427-441 | An existing file is loaded or reported as unsupported, never as not found |
| MainWindow.KindOfExtension | src/main_window.py:428-438 | The loader for a lower-cased extension; see `KindOfExtensionCases` |
| MainWindow.DropActionForExtension | src/main_window.py:608-619 | The action of `dropEvent` for an extension; related to the recent-file choice by `RecentAndDropAgree` |
| MainWindow.RecentFileAction | src/main_window.py:422-441 | "Not found" iff the path is not on disk; otherwise the decision is taken from the parsed extension |
| MainWindow.KindOfExtensionCases | src/main_window.py:427-438 | parquet, csv.gz, csv and txt each pick their loader iff the lower-cased extension is that string |
| MainWindow.KindOfExtensionIgnoresCase | src/main_window.py:428 | The loader does not depend on the extension's case |
| MainWindow.RecentAndDropAgree | src/main_window.py:602-619 | Dropping a file and opening it from the recent list pick the same loader, separator and compression; only a drop asks for options, and only the recent list warns on other extensions |
| MainWindow.SeparatorOf | src/main_window.py:89 | The tab display value gives a real tab; the other listed values are themselves; an unlisted value is used as typed |
| MainWindow.DisplaySeparator | src/main_window.py:90 | The display shown for a default separator: the tab display for a tab, the separator itself otherwise; see `DisplaySeparatorRoundTrip` |
| MainWindow.DisplaySeparatorRoundTrip | src/main_window.py:89-90 | The value shown for a default separator maps back to that separator |
| MainWindow.QuotingOf | src/main_window.py:133-146 | The result is one of the three csv quoting constants; a listed choice gets its constant, and any other choice gets `QUOTE_MINIMAL` |
| MainWindow.GetOptions | src/main_window.py:137-148 | `has_header` ⇔ the header choice is "True"; header is 0 exactly then, else None; sep and quoting as above; the encoding is as chosen; dtype is None iff inferring, else `str` |
| MainWindow.DictGet | src/main_window.py:256 | `.get` succeeds iff the value is a mapping |
| MainWindow.StripAll | src/main_window.py:258-261 | The list is stripped entry by entry |
| MainWindow.SetupConstants | src/main_window.py:255-263 | Settings read from a configuration have at least one encoding, each stripped and containing no comma |
| Text.Split | src/main_window.py:260 | `split(',')` gives one more piece than there are commas, and no piece has a comma |
| Text.SplitAtSeparator | src/main_window.py:260 | Splitting a separator-free head, the separator and a rest gives the head, then the pieces of the rest |
| Text.JoinSplit | src/main_window.py:260 | Joining the pieces of a split with the separator gives back the text |
| Text.SplitJoin | src/main_window.py:649 | Splitting a join of separator-free pieces gives back the pieces |
| Text.Strip | src/main_window.py:259 | `strip()` leaves no white space at either end, is empty iff the text is all white space, removes only white space, and keeps the text when nothing is cut |
| Text.NatToString | src/schema.py:128-129 | `str(n)`: decimal digits, at least one, no leading zero |
| Text.NatToStringValue | src/schema.py:128-129 | The digits `str(n)` prints denote n |
| MainWindow.EncodingList | src/main_window.py:258-261 | One entry per comma-separated piece of the text, entry i being piece i stripped; so none has a comma or surrounding white space |
| MainWindow.EncodingListOfPiece | src/main_window.py:258-261 | A text without a comma names the one encoding it holds, stripped |
| MainWindow.EncodingListCons | src/main_window.py:258-261 | The first comma-separated piece, stripped, comes ahead of the encodings of the rest |
| MainWindow.FilesSectionSettings | src/main_window.py:255-262 | A configuration whose `app.files` section holds the three settings gives exactly those values, with the encodings split at commas and stripped |
| MainWindow.UnreadableSettings | src/main_window.py:256-261 | A configuration that is not a mapping, or whose encodings are not text, gives no settings (the window cannot start) |
| MainWindow.MissingSectionDefaults | src/main_window.py:256-263 | A configuration without an `app` section gives the defaults: infer true, encodings ["utf-8"] and the pipe character as delimiter |
| MainWindow.DefaultEncoding | src/main_window.py:260 | The default text `utf-8` gives the list ["utf-8"] |
| MainWindow.ColumnHeaders | src/main_window.py:476 | n headers, the i-th being `col` followed by i+1 in decimal |
| MainWindow.ColumnHeadersDistinct | src/main_window.py:476 | The synthesised headers are distinct |
| MainWindow.LoadedTable | src/main_window.py:475-476 | The rows and the column count are kept; a table with a header, or an empty one, is unchanged; otherwise the columns become col1..colN |
| MainWindow.HeaderlessColumnsDistinct | src/main_window.py:475-476 | A renamed table has distinct column names |
| MainWindow.ExcludedColumns | src/main_window.py:648-650 | Every excluded name is non-blank, stripped and has no comma; there are no more names than comma-separated pieces; which names, in which order, is stated by the three lemmas that follow |
| MainWindow.ExcludedColumnsAsComprehension | src/main_window.py:648-649 | An empty field excludes nothing, so the columns are the comprehension over the stripped pieces for every field |
| MainWindow.ExcludedColumnsOfPiece | src/main_window.py:649 | A piece without a comma excludes its stripped text, or nothing when that is blank |
| MainWindow.ExcludedColumnsCons | src/main_window.py:649 | The first comma-separated piece gives its stripped text, unless blank, ahead of the columns the rest of the field gives |
| MainWindow.ExcludedColumnsExample | src/main_window.py:649 | `" a , ,b"` excludes exactly `a` and `b`: padding is stripped and the blank entry is dropped |
| MainWindow.ExcludedColumnsRoundTrip | src/main_window.py:649 | Names without commas and without surrounding blanks, joined by commas, come back exactly |
| MainWindow.SampleSize | src/main_window.py:659-661 | The sample size is min(requested, rows) |
| MainWindow.CompressedPath | src/main_window.py:671-672 | The result ends in `.gz`; a path that already does is kept, otherwise `.gz` is appended |
| MainWindow.CompressedPathIdempotent | src/main_window.py:671-672 | Appending twice is the same as appending once |
| MainWindow.Window.constructor | src/main_window.py:255-267 | No data, page 0 with the limit as page size (set by `_setup_table`, src/main_window.py:294), the header flag set, no file |
| MainWindow.Window.LoadFile | src/main_window.py:447-457 | The load settings, the path and the parsed name are recorded; the header flag is kept |
| MainWindow.Window.SetFileInfo | src/main_window.py:457 | The file info becomes `ParseFileInfo` of the path; the settings, path, header flag and search are kept |
| MainWindow.Window.OpenTextWithOptions | src/main_window.py:404-420 | If accepted, the header choice is kept and the file is loaded with the dialog's options and the given compression; if cancelled, nothing changes |
| MainWindow.Window.OpenRecentFile | src/main_window.py:422-441 | The action is `RecentFileAction`; only a load changes the settings, path and file info; parquet sets the header flag, and otherwise the flag is kept |
| MainWindow.Window.HandleRecent | src/main_window.py:429-441 | Once the action is chosen: a load records its loader and options, the path and the parsed name; any other action changes none of them; the header flag is set exactly for parquet |
| MainWindow.Window.DropFile | src/main_window.py:602-619 | Parquet is loaded with the header flag set, recording the settings, path and parsed name; a text file goes through the options dialog and, if accepted, is loaded the same way with the dialog's header flag and options; any other extension, or a cancelled dialog, leaves the settings, header flag, path and name as they were |
| MainWindow.Window.HandleDrop | src/main_window.py:610-619 | Once the action is chosen: "load" sets the header flag and opens the path as parquet; "ask" with an accepted dialog takes the dialog's header flag and read options; both record the path and its parsed name. An ignored drop or a cancelled dialog leaves the load settings, header flag, path and name as they were |
| MainWindow.Window.OnDataLoaded | src/main_window.py:472-501 | The model holds `LoadedTable` of the old header flag; the search is cleared; the page is 0; the flag is set again; a non-empty path becomes the most recent file |
| MainWindow.Window.OnSearchChanged | src/main_window.py:556-560 | The filter text is stored and the page becomes 0 with the page size kept; the header flag, load settings, path and file name are kept |
| MainWindow.Window.OnShow | src/main_window.py:522-525 | The page becomes 0 |
| MainWindow.Window.OnPagePrevious | src/main_window.py:527-529 | The page is stepped back by `previous_page` |
| MainWindow.Window.OnPageNext | src/main_window.py:531-533 | The page is stepped forward by `next_page` over the filtered rows |
| MainWindow.Window.OnPageSizeChanged | src/main_window.py:535-537 | The size becomes max(1, size) and the page becomes 0 |
| MainWindow.Window.ClearData | src/main_window.py:566-577 | An empty model, no search, page 0, no path, no name and no settings; the header flag is kept |
| LegacyApp.LegacySparkType | app.py:294-303 | The result is integer, double or string. Integer ⇔ `int` prefix or a listed unsigned name; double ⇔ `float` prefix or `double`; string otherwise, so never boolean or timestamp |
| LegacyApp.LegacyRefinedBySparkType | app.py:294-303 | Relative to `Schema.GetSparkType`: they agree on double; legacy integer implies new integer; whatever the new mapping does not call a number is a legacy string; the new mapping adds only unlisted `uint` names to integer |
| LegacyApp.LegacyHasNoBooleanOrTimestamp | app.py:294-303 | `bool` and `datetime64[ns]` are strings to the older mapping, but boolean and timestamp to the newer one |
| LegacyApp.LegacyGetSchemaDf | app.py:305-313 | The loop yields one row per column, in order, with `LegacySparkType`; names and pandas types equal the newer table's |
| LegacyApp.LegacyFileInfo | app.py:185-197 | The extension is the text after the last dot of the whole path. The name is the prefix of `LegacyFileName` that has no dot and is all of it or is followed by a dot, that is the text before its first dot; it has no `/` (and no `\` when the path has no `/`) |
| LegacyApp.LegacyFileName | app.py:188-195 | After the last `/` when there is a `/`; otherwise after the last `\` when there is one; otherwise the whole path |
| LegacyApp.LegacyFileInfoOfWindowsPath | app.py:191-197 | For dir\name.ext without any `/`, the older rule gives (name, ext) |
| LegacyApp.LegacyFileInfoAgrees | app.py:185-197 | For dir/name.ext with a plain name and extension, the older and newer rules both give (name, ext) |
| LegacyApp.LegacyKeepsLastExtension | app.py:186-197 | For dir/name.inner.ext the older rule gives (name, ext); for a `.csv.gz` file it reports `gz`, whereas the newer rule reports `csv.gz` |
| LegacyApp.Advance | app.py:227-236 | The cursor never moves back; it moves to min(index+limit, rows) when rows remain, and stays otherwise; it never passes the row count |
| LegacyApp.Range | app.py:230-235 | The rows rendered are exactly from, from+1, ..., to−1 |
| LegacyApp.AdvanceTimesIsPage | app.py:227-236 | From the first row, k renders leave the cursor at min(k·limit, rows) |
| LegacyApp.CountShowing | app.py:270-277 | The caption ends at the cursor, of the row count, and starts at index−limit+1, or at 1 when the cursor is below the limit |
| LegacyApp.CountShowingShown | app.py:270-277 | The corrected caption: from the first row rendered to the cursor; see `ShownLabelMatchesRows` |
| LegacyApp.ShownLabelMatchesRows | app.py:270-277 | The corrected caption names exactly the first and last rows rendered (see Findings) |
| LegacyApp.CountShowingRightIff | app.py:270-277 | The caption as written is right iff a whole page was rendered, or the page started at row 0 |
| LegacyApp.CountShowingPartialPage | app.py:270-277 | 25 rows in pages of 10: the third page renders rows 21 to 25, but the caption says 16 to 25 |
| LegacyApp.PreviousTarget | app.py:252-259 | The cursor moves back by two limits when it can; otherwise it goes to 0 when it is more than one limit in; it does nothing without rows, at the start, or within the first limit |
| LegacyApp.PreviousAfterWholePage | app.py:252-259 | After whole pages, Previous and the re-render show the page before |
| LegacyApp.PreviousAfterPartialPage | app.py:252-259 | 25 rows in pages of 10, on the partial third page: Previous renders rows 6 to 15, not page 2 |
| LegacyApp.PreviousByPageShowsPreviousPage | app.py:252-259 | Moving back by pages shows page p−1 after any page p, including a partial last one, and does nothing on page 0 |
| LegacyApp.PreviousTargetByPage | app.py:252-259 | The corrected Previous: the start of the page before the one shown; see `PreviousByPageShowsPreviousPage` |
| LegacyApp.LegacyViewer.constructor | app.py:25-49 | No data, the cursor and the count at 0, the header flag set |
| LegacyApp.LegacyViewer.SetStatusTotalRecords | app.py:279-289 | A non-empty table sets the count to its rows and the cursor to 0; an empty one changes neither |
| LegacyApp.LegacyViewer.SetDataFileInfo | app.py:185-200 | The title's name and extension are `LegacyFileInfo` of the path |
| LegacyApp.LegacyViewer.SetLoadedTable | app.py:211-213 | A table without a header takes the names col1..colN with its rows kept (`LoadedTable`); nothing else changes |
| LegacyApp.LegacyViewer.ShowData | app.py:202-239 | An empty table shows nothing. Otherwise the table is renamed to col1..colN when it has no header, the loop renders `Range(old cursor, Advance(...))`, and the caption is `CountShowing` of the new cursor |
| LegacyApp.LegacyViewer.RenderRows | app.py:227-237 | The rendering loop renders exactly the rows from the old cursor up to `Advance(old cursor, limit, rows)`, moves the cursor there, and leaves the table, file info, row count, header flag and path unchanged |
| LegacyApp.LegacyViewer.OnPagePrevious | app.py:252-259 | Without a `PreviousTarget` nothing changes. With one, the cursor moves there; on a non-empty table the page from there is rendered, the caption is `CountShowing` of the new cursor, and the table and file info are as `ShowData` leaves them. The path and header flag are kept |
| LegacyApp.LegacyViewer.OnPageNext | app.py:261-264 | While rows remain and the table is not empty, the next min(limit, remaining) rows are rendered with the `CountShowing` caption; otherwise nothing changes. The path and header flag are kept |
| LegacyApp.LegacyViewer.OnReShow | app.py:266-268 | Back to row 0, then the first page is rendered with the `CountShowing` caption; on an empty table only the cursor moves. The path and header flag are kept |
| LegacyApp.LegacyViewer.OpenFile | app.py:81-158 | The path and table are taken; the header flag is the dialog's answer for text and stays as it was for parquet. A non-empty table resets the count, renders the first page, captions it with `CountShowing` and titles the window with `LegacyFileInfo` of the path; an empty one renders nothing, has no caption and keeps the cursor, the count and the title |
| LegacyApp.LegacyViewer.ClearData | app.py:178-183 | The table is emptied; the cursor, the count, the path, the header flag and the title's name and extension stay |
| LegacyApp.CompareJsonSchemas | app.py:529-539 | The nested loops with the found flag compute `LegacyDiff`, including the `KeyError` on a missing key, which becomes None |
| LegacyApp.LegacyDiff | app.py:529-539 | The result of the nested loops, failing on a missing key; see `LegacyDiffReadable` and `LegacyReportsExactly` |
| LegacyApp.FindColumn | app.py:533-537 | The inner loop's found flag, failing on a missing key; see `FindColumnReadable` |
| LegacyApp.FindColumnReadable | app.py:534-537 | On readable records, the inner loop finds a column iff one with that name and type is present |
| LegacyApp.LegacyReportedCons | app.py:529-539 | The first file-1 column is listed exactly when file 2 has no equal column, ahead of what the rest of file 1 gives |
| LegacyApp.LegacyDiffReadable | app.py:529-539 | On readable records, the comparison never fails, and it lists, in file-1 order, the names of file-1 columns absent from file 2 |
| LegacyApp.LegacyReportsExactly | app.py:529-539 | A file-1 column with no same-name same-type column in file 2 is reported, and with distinct names only those are; nothing outside file 1 is reported |
| LegacyApp.LegacyReportInNewCompare | app.py:529-539 | With distinct file-1 names, a reported column is, to `compare_schemas`, only in file 1 or a type mismatch; so one of those lists is non-empty |
| LegacyApp.NewCompareInLegacyReport | app.py:529-539 | With distinct names on both sides, every "only in file 1" or type-mismatch name is reported by the older comparison |
| LegacyApp.LegacyIsOneDirectional | app.py:529-539 | A column added only to file 2 is not reported by the older comparison, while `compare_schemas` lists it as only in file 2 |

## Left out

- Qt and tkinter widgets, dialogs, menus, shortcuts, drag acceptance and message boxes are not modelled. Dialog answers become parameters; messages become structured results (`RecentAction`, `DropAction`).
- `parquet-viewer.py`, `test-pv.py` and `setup.py` are not part of this model. They are demonstrations and install plumbing.
- `src/workers.py` and the worker-thread handling in `_load_file` are left out (concurrency and pandas readers). A load is modelled as the recorded settings plus the table handed to `OnDataLoaded`.
- pandas is left out: `read_csv`, `read_parquet`, deriving dtypes, `head`, `tail`, `sample`, `drop`, `to_csv` and `to_dict`.
  - A table is column names plus rows of cells.
  - A column's dtype is a given string.
  - Only the sample-size clamp, the exclude list and the `.gz` suffix of the export are modelled.
- The search and sort proxy's matching rules are left out. The number of rows it leaves is a parameter of the pager operations.
- File I/O is left out. JSON and YAML files are stores or outcomes (`StoredFile`, `ConfigSource`); `os.path.exists` is a predicate parameter; a save that fails is a `writable` flag.
  - Config.RecentFilesStore.SaveRecentFiles: an unwritable store keeps its content. The model thus omits the case where `open(..., 'w')` emptied the file before the write failed.
- YAML floats and dates are not part of `Yaml`.
- `datetime.now()` is a `createdAt` parameter.
- Progress-bar percentages (float division) are left out, along with the text of the page caption in `_update_pagination_info`.
- Text.Lower: only the ASCII letters A to Z are lower-cased, because Python's Unicode case mapping is not modelled. Text.Strip uses the characters Python's `str.strip()` counts as white space.
- MainWindow.Basename is the POSIX rule (the text after the last `/`). Windows separators are not modelled for the newer program.
- MainWindow.SetupConstants: a `.get` on a value that is not a mapping gives None; Python would raise `AttributeError`. The legacy `set_constants`, which indexes the configuration directly, is modelled only through the header flag it sets.
- LegacyApp.CompareJsonSchemas: the `schema` key of each document is assumed present; the message box listing the differences and `total_columns` is left out.
- LegacyApp.LegacyViewer.ShowData: the page limit is a `nat` parameter (the spin box's value). Rendering a row is just recording its index; the cell texts are not modelled.
- `fill_table` in `app.py` is never called and is not modelled.

## Findings

| source | as written | input that shows it | evidently intended | confidence | as-written member | corrected member |
|---|---|---|---|---|---|---|
| src/schema.py:119-131 | The order check compares a name's index among file 1's common names with its index in the full file-2 list, because `enumerate(names2)` runs before the filter | file 1 [x, y], file 2 [w, x, y]: x and y keep their relative order, yet both are reported as order mismatches | The comment says positions are over common columns in each schema: a mismatch should mean the common columns are in a different relative order | not executed | Schema.InsertedColumnFlagsAll | Schema.CommonOrderMismatchesIffReordered |
| app.py:270-277 | The caption starts at `dataindex - limit + 1`, even when the page rendered fewer than `limit` rows | 25 rows, limit 10, third page: rows 21 to 25 are rendered, but the caption says "Showing 16 to 25 of 25" | The caption starts at the first row rendered | not executed | LegacyApp.CountShowingPartialPage | LegacyApp.ShownLabelMatchesRows |
| app.py:252-259 | Previous moves the cursor back by `2 * limit`, which is one page back only when the current page was full | 25 rows, limit 10, on the third page (cursor 25): Previous renders rows 6 to 15 instead of 11 to 20 | Previous goes to the start of the page before the one shown | not executed | LegacyApp.PreviousAfterPartialPage | LegacyApp.PreviousByPageShowsPreviousPage |

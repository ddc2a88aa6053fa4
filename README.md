# schemr diff engine, modelled in Dafny

schemr takes schema snapshots of MySQL environments and compares two of
them. `dump_schema` (src/schema.rs) writes one snapshot directory per
environment: a manifest `_index.json` listing the tables, then one
`<table>.json` per table holding its columns, primary key and indexes.
`compare` (src/compare.rs) reads two such directories and builds an HTML
report:
- a "Summary" section listing the tables found in one environment only;
- one section per table the two environments share, listing one-sided
  columns, field differences of shared columns and one-sided indexes.

The model covers both halves.

- **Snapshot data** (`Schema`, `Snapshots`). Covers the `Column`, `Index` and
  `TableSchema` records and how a column row becomes a `Column`. The
  manifest is a `BTreeSet`, and the index-row loop fills a `BTreeMap`; that
  loop is an imperative method proved against the functional grouping
  `Grouped`. `DumpSnapshot` builds a whole snapshot from the query results,
  which are its parameters.
- **Orders and sets** (`Order`, `SortedSets`). Rust's `String` order is
  byte-lexicographic, modelled by `StrLess`. A `BTreeSet` is modelled as the
  strictly ascending sequence it iterates in. Collecting, `union`,
  `difference` and `intersection` are functions on those sequences.
  `SortedUnique` shows that a set has exactly one such sequence.
- **The diff** (`Diff`). `DiffTable` is the structured difference of two
  `TableSchema`s, exactly as `compare` computes it:
  - column maps, in which the last column of a duplicated name wins;
  - name sets;
  - the per-column field check;
  - index triple sets;
  - the shared-index loop.
- **The text** (`Report`, `Text`). Covers the Summary body, the body of each
  table section, `HtmlSection::to_html` and the document.
- **`compare` itself** (`Compare`). Two levels:
  - a value: `ReportSections` gives the sections `compare` pushes, or the
    error it stops with;
  - the source's loops: methods that build the strings with `+=`, skip
    one-sided tables in the loop over the union, and append the HTML piece
    by piece. Their contracts tie each method to the functional
    specification.

  A snapshot directory is a value (`Snapshot`). Each of its files is
  missing, unparseable or parsed.
- **Properties** (`CompareFacts`, `Scenarios`). What a whole comparison
  promises: when it succeeds and where it fails, what the Summary says, that
  the table sections come in ascending order with the right bodies, what
  swapping the environments does, and what comparing a snapshot with itself
  gives. `Scenarios` adds worked cases.

The model follows the code, not schemr's design notes, wherever the two
disagree:
- **Duplicate column names.** The design asks for a load error. The code
  collapses them silently in a `BTreeMap` (src/compare.rs:72-73), and the
  last column of a name wins (`Diff.ColumnMapLastWins`).
- **Indexes.** The design asks for a match by name and a diff of columns and
  uniqueness. The code takes set differences of whole
  `(name, columns, is_unique)` triples (src/compare.rs:110-114), so an index
  whose column order or uniqueness changed shows up as one-sided on both
  sides (`Diff.ChangedIndexOnBothSides`). Its per-index loop destructures the
  same triple twice (src/compare.rs:128-129) and so never reports anything
  (`Diff.SharedIndexDiffsEmpty`).
- **Identical tables.** The design leaves them out of the result. The code
  still pushes a section whose body is `"\n"` (src/compare.rs:67, 143;
  `CompareFacts.CompareSelf`).
- **HTML escaping.** The design asks for escaped markup. The code inserts
  titles and bodies verbatim (src/compare.rs:22-27; `Report.ToHtmlVerbatim`).
- **Manifest errors.** The design says a missing manifest names the
  environment. In the code a missing file fails through `?` with an I/O
  error. Only a manifest that does not parse gives "No dump for env"
  (src/compare.rs:34-37; `Compare.LoadManifest`).
- **Load errors.** The design's error for a missing or malformed table
  file names the table and the environment. In the code a missing file
  gives the bare I/O error of `File::open`, which names no file, and a
  malformed one gives serde's message with a line and a column, but no
  file or table name (src/compare.rs:34-36, 69-70). `Compare.CompareError`
  therefore carries no file or table: a missing manifest and a missing
  table file fail alike, and two malformed table files cannot be told
  apart by file.
- **The "Column differences:" header.** It is written only when a column
  exists on one side only, never because of field differences
  (src/compare.rs:79-81; `Report.ColumnHeaderExactlyForOneSidedColumns`).

The records are datatypes: `Schema.Column`, `Schema.Index` and
`Schema.TableSchema` are the serialised structs of src/schema.rs:10-31, with
the same fields in the same order, and `Report.HtmlSection` is the
`HtmlSection` of src/compare.rs:9-20, whose `new` is its constructor.

## Model

| member | source | states |
|---|---|---|
| Order.StrLessStrictTotal | src/compare.rs:39-41 | the byte-lexicographic order that `BTreeSet<String>` sorts by is a strict total order |
| Order.ListLessStrictTotal | src/compare.rs:110-111 | the lexicographic order on `Vec<String>` (index columns) is a strict total order |
| Diff.KeyLessStrictTotal | src/compare.rs:110-111 | Rust's order on `(name, columns, is_unique)` triples is a strict total order |
| SortedSets.Insert | src/compare.rs:39-40 | the step of the fold by which `FromSeq` models `collect()` into a `BTreeSet`: it keeps the set ascending, adds exactly the new element, and leaves the set unchanged when the element is already there |
| SortedSets.FromSeq | src/compare.rs:39-40 | collecting into a `BTreeSet` gives an ascending sequence holding exactly the collected elements |
| SortedSets.StringSet | src/compare.rs:39-40 | a string set collected from a list is ascending and has exactly the list's elements; the manifest's tables and each manifest's table set in `compare` are this one collect |
| SortedSets.StringUnion | src/compare.rs:41 | `t1.union(&t2)` is ascending and holds exactly the names of either set |
| SortedSets.Difference | src/compare.rs:47-48 | `a.difference(&b)` is ascending and holds exactly the elements of `a` not in `b` |
| SortedSets.Intersection | src/compare.rs:91 | `a.intersection(&b)` is ascending and holds exactly the elements in both |
| SortedSets.SortedUnique | src/compare.rs:39-41 | two ascending sequences with the same elements are equal, so every set output is fixed by its elements |
| SortedSets.IntersectionSwap | src/compare.rs:91 | intersecting in either order gives the same sequence |
| SortedSets.SortedDistinct | src/compare.rs:39-40 | an ascending sequence has no element twice |
| Schema.ColumnOf | src/schema.rs:83-88 | `is_nullable` is true exactly when the raw string is `"YES"`; name, type and default are copied unchanged |
| Schema.ColumnsOf | src/schema.rs:114 | definition: the column names of one index's rows in arrival order; facts in `Schema.ColumnsOfAppend` and `Schema.IndexMap` |
| Schema.FirstUnique | src/schema.rs:113 | definition: `non_unique == 0` of the first row with the name, the value `or_insert` stores; facts in `Schema.GroupedUniqueFromFirstRow` and `Schema.GroupedStable` |
| Schema.ManifestDistinct | src/schema.rs:64-67 | the manifest's `tables`, the queried names collected into a `BTreeSet`, lists no table twice |
| Schema.IndexMap | src/schema.rs:110-115 | after the row loop the map's keys are exactly the index names seen, in ascending order. Each entry holds the column names of that index's rows in arrival order and the uniqueness of its first row |
| Schema.AbsorbRow | src/schema.rs:112-114 | one `entry().or_insert()` plus `push` keeps that grouping invariant for the rows seen so far |
| Schema.AbsorbNextRow | src/schema.rs:111-115 | the loop body keeps the invariant from row `i` to row `i + 1` |
| Schema.GroupIndexes | src/schema.rs:110-119 | the `Vec<Index>` built from the map equals the functional grouping `Grouped` of the rows |
| Schema.Grouped | src/schema.rs:110-119 | definition: one index per distinct name in ascending order, with its rows' columns and its first row's uniqueness; facts in `Schema.GroupIndexes`, `Schema.GroupedOnePerName`, `Schema.GroupedStable` and `Schema.GroupedKeepsEveryRow` |
| Schema.GroupedOnePerName | src/schema.rs:116-119 | the grouping has one index per distinct name, in strictly ascending name order |
| Schema.GroupedUniqueFromFirstRow | src/schema.rs:113 | an index's `is_unique` is `non_unique == 0` of the first row with its name |
| Schema.GroupedStable | src/schema.rs:111-115 | later rows never change an index's uniqueness; their columns are appended after the earlier ones |
| Schema.ColumnsOfAppend | src/schema.rs:114 | an index's columns over two batches of rows are the first batch's followed by the second's |
| Schema.FirstRow | src/schema.rs:113 | the first row with a given index name: it has that name and no earlier row does |
| Schema.GroupedKeepsEveryRow | src/schema.rs:111-119 | the indexes' column lists together hold exactly as many entries as there were rows |
| Schema.DumpTable | src/schema.rs:122-127 | the table schema has the table's name, one column per column row in order (mapped by `ColumnOf`), the primary-key rows as they come, and the grouped indexes |
| Snapshots.DumpSnapshot | src/schema.rs:64-71 | the snapshot's manifest is `StringSet(names)`. Every listed table has a file that parses and holds what `DumpTable` builds for it; there are no other files |
| Snapshots.ManifestReread | src/compare.rs:39-40 | collecting a dumped manifest into a `BTreeSet` again gives it back unchanged |
| Diff.ColumnMap | src/compare.rs:72-73 | the column map's keys are exactly the table's column names |
| Diff.ColumnMapEntry | src/compare.rs:72-73 | every map entry is one of the table's columns, filed under its own name |
| Diff.ColumnMapLastWins | src/compare.rs:72-73 | among columns sharing a name, the last one is the one the map keeps |
| Diff.NameSet | src/compare.rs:74-75 | definition: the `BTreeSet` of the column map's keys; facts in `Diff.DiffTableColumns` |
| Diff.FieldDiffs | src/compare.rs:94-103 | a type, nullable or default difference is listed exactly when that field differs. Nothing else is listed, the order is type, nullable, default, and the list is empty exactly when all three agree. `None` and `Some("")` differ |
| Diff.SharedColumnDiffs | src/compare.rs:91-107 | definition: the shared-column loop's entries; facts in `Diff.SharedColumnDiffsEntries`, `Diff.SharedColumnDiffsAscending` and `Diff.SharedColumnDiffsSnoc` |
| Diff.SharedColumnDiffsEntries | src/compare.rs:91-107 | the shared-column loop yields an entry for a column exactly when its fields differ, carrying those differences |
| Diff.SharedColumnDiffsAscending | src/compare.rs:91 | the entries come in strictly ascending column order |
| Diff.SharedColumnDiffsSnoc | src/compare.rs:91-107 | one more shared column adds its entry at the end exactly when its fields differ |
| Diff.KeySet | src/compare.rs:110-111 | the index triple set is ascending and holds exactly the table's `(name, columns, is_unique)` triples |
| Diff.KeyOf | src/compare.rs:110-111 | definition: the `(name, columns, is_unique)` triple of one index; facts in `Diff.KeySet` and `Diff.ChangedIndexOnBothSides` |
| Diff.KeysOf | src/compare.rs:110-111 | one triple per index of the table, in the table's order |
| Diff.IndexFieldDiffs | src/compare.rs:131-136 | a columns or uniqueness difference is listed exactly when that part differs |
| Diff.SharedIndexDiffs | src/compare.rs:127-141 | definition: the shared-index loop as written, each triple compared with itself; facts in `Diff.SharedIndexDiffsEmpty` |
| Diff.SharedIndexDiffsEmpty | src/compare.rs:127-141 | the shared-index loop, comparing each triple with itself, never produces an entry |
| Diff.DiffTableColumns | src/compare.rs:72-108 | the one-sided column lists are the name-set differences, each ascending. There is an entry for exactly the shared names whose (last-wins) columns differ, carrying those differences, in ascending order |
| Diff.DiffTableIndexes | src/compare.rs:110-141 | the one-sided index lists are the set differences of whole triples, each ascending; no per-index entry is ever produced |
| Diff.DiffTable | src/compare.rs:72-141 | definition: everything `compare` works out for one shared table; facts in `Diff.DiffTableColumns`, `Diff.DiffTableIndexes`, `Diff.DiffTableSame` and `Diff.DiffTableSwap` |
| Diff.ChangedIndexOnBothSides | src/compare.rs:110-124 | an index that keeps its name but changes its column order or uniqueness appears on both one-sided lists |
| Diff.SharedColumnDiffsSame | src/compare.rs:91-107 | comparing a column map with itself yields no entry |
| Diff.DiffTableSame | src/compare.rs:72-141 | a table compared with itself has an empty diff |
| Diff.FieldDiffsSwap | src/compare.rs:95-103 | swapping the two columns swaps the two values inside each field difference and keeps their order |
| Diff.FlipColumnDiffsAppend | src/compare.rs:91-107 | flipping the sides of column entries distributes over concatenation |
| Diff.SharedColumnDiffsSwap | src/compare.rs:91-107 | swapping the sides gives the same entries with each field difference flipped |
| Diff.DiffTableSwap | src/compare.rs:72-141 | diffing the other way round swaps the one-sided lists and flips every field difference |
| Report.SummaryBody | src/compare.rs:45-56 | the body is empty exactly when both only-lists are; there is an "Only in" line for each non-empty side, and `env1`'s line comes first |
| Text.Join | src/compare.rs:105 | definition: `diffs.join(sep)`, the parts with the separator between them; facts in `Scenarios.OneFieldText` and `Scenarios.StatusWidened` |
| Report.OnlyLine | src/compare.rs:51 | definition: the Summary's "Only in" line with the `{:?}` list of tables; facts in `Report.SummaryBody` |
| Report.NestedOnlyLine | src/compare.rs:82-89 | definition: an indented "Only in" line under a column or index header; facts in `Report.ColumnOnlyPartShape` |
| Report.RenderField | src/compare.rs:96-102 | definition: the text of one field difference; facts in `Scenarios.WidenedText` and `Scenarios.DefaultOnly` |
| Report.ColumnLine | src/compare.rs:106 | definition: the line of one shared column whose fields differ; facts in `Report.ColumnLinesIndented` and `Compare.SharedColumnStep` |
| Report.IndexLine | src/compare.rs:139 | definition: the line of one shared index; facts in `Report.IndexLinesIndented` |
| Report.DebugKeys | src/compare.rs:120 | definition: the `{:?}` text of a list of index triples |
| Report.DebugKey | src/compare.rs:120 | definition: the `{:?}` text of one index triple, `("name", ["a", "b"], true)`, without escapes |
| Text.DebugStrings | src/compare.rs:51 | definition: the `{:?}` text of a `Vec<String>`, quoted, comma-separated, in brackets, without escapes |
| Text.DebugOption | src/compare.rs:102 | definition: the `{:?}` text of an `Option<String>`, `None` or `Some("x")`; facts in `Scenarios.DefaultOnly` |
| Report.RenderIndexField | src/compare.rs:131-136 | definition: the text of one index field difference; facts in `Compare.IndexFieldTexts` |
| Report.ColumnLines | src/compare.rs:91-107 | definition: the lines of the shared-column entries in order; facts in `Report.ColumnLinesIndented` and `Compare.SharedColumnText` |
| Report.IndexLines | src/compare.rs:127-141 | definition: the lines of the shared-index entries in order; facts in `Report.IndexLinesIndented` and `Compare.SharedIndexText` |
| Report.ColumnOnlyPart | src/compare.rs:79-89 | definition: the column header and the one-sided column lines; facts in `Report.ColumnOnlyPartShape` and `Report.ColumnHeaderExactlyForOneSidedColumns` |
| Report.IndexOnlyPart | src/compare.rs:115-125 | definition: the index header and the one-sided index lines; facts in `Compare.IndexText` and `Report.TableBodyRegrouped` |
| Report.ColumnPart | src/compare.rs:79-108 | definition: the one-sided column part, then the shared-column lines; facts in `Compare.ColumnText` and `Report.TableBodyRegrouped` |
| Report.IndexPart | src/compare.rs:115-141 | definition: the one-sided index part, then the shared-index lines; facts in `Compare.IndexText` |
| Report.SectionsHtml | src/compare.rs:148-150 | definition: the `to_html` of every section, in push order; facts in `Report.SectionsHtmlAppend` and `Compare.RenderHtml` |
| Report.TableBody | src/compare.rs:67-141 | definition: the leading newline, the column part, the index part; facts in `Report.TableBodyRegrouped`, `Report.EmptyDiffBody` and `Report.ColumnHeaderExactlyForOneSidedColumns` |
| Report.ToHtml | src/compare.rs:22-27 | definition: `to_html`; facts in `Report.ToHtmlVerbatim` |
| Report.Document | src/compare.rs:147-151 | definition: the head, every section's HTML, the tail; facts in `Report.DocumentShape` and `Compare.RenderHtml` |
| Report.EmptyDiffBody | src/compare.rs:67 | a table without differences has the body `"\n"` |
| Report.ColumnLinesIndented | src/compare.rs:106 | the column lines are empty or start with a space (their two-space indent) |
| Report.IndexLinesIndented | src/compare.rs:139 | the index lines are empty or start with a space (their two-space indent) |
| Report.ColumnOnlyPartShape | src/compare.rs:79-89 | the one-sided column part is empty exactly when both column lists are empty, and otherwise starts with the "Column differences:" header |
| Report.ColumnHeaderExactlyForOneSidedColumns | src/compare.rs:79-81 | a table body opens with the "Column differences:" header exactly when some column is on one side only |
| Report.TableBodyRegrouped | src/compare.rs:67-141 | a table body is the leading newline, the one-sided column part, then the rest |
| Report.SectionsHtmlAppend | src/compare.rs:148-150 | the HTML of a list of sections is the HTML of each, in push order |
| Report.ToHtmlVerbatim | src/compare.rs:22-27 | `to_html` puts title and body in verbatim, at fixed offsets between fixed markup |
| Report.DocumentShape | src/compare.rs:147-151 | the document starts with the fixed head and ends with `</body></html>`; one more section adds its element just before the tail |
| Compare.LoadManifest | src/compare.rs:34-37 | a missing manifest gives the I/O error and an unparseable one "No dump for env"; otherwise it yields the listed tables |
| Compare.LoadTable | src/compare.rs:69-70 | a missing table file gives the I/O error and an unparseable one the parse error, neither naming the table; otherwise it yields the file's schema |
| Compare.SummarySection | src/compare.rs:57 | definition: the Summary section of the two table sets; facts in `CompareFacts.SummaryOfCompare` |
| Compare.TableSections | src/compare.rs:59-144 | definition: the table sections of the loaded pairs, or the first load error; facts in `Compare.TableLoop` and `CompareFacts.CompareSections` |
| Compare.LoadPairs | src/compare.rs:69-70 | when every load succeeds there is one pair per table, in order |
| Compare.TableSection | src/compare.rs:143 | a table's section is titled with the table's name |
| Compare.Render | src/compare.rs:143 | one section per loaded pair, in order, each that pair's section |
| Compare.Common | src/compare.rs:59-63 | the tables the loop does not skip are, in ascending order, exactly those in both manifests |
| Compare.ReportSections | src/compare.rs:34-57 | the manifest errors come in the order `env1`, then `env2`; on success the Summary section comes first |
| Compare.InBoth | src/compare.rs:59-63 | the skip lets through exactly the tables listed on both sides, in the loop's order |
| Compare.InBothAppend | src/compare.rs:59-63 | the skip filter distributes over concatenation |
| Compare.UnionInBoth | src/compare.rs:41 | filtering the union of the two table sets by the skip gives exactly the ascending common tables |
| Compare.LoadPairsErrSticky | src/compare.rs:69-70 | once a load has failed, later tables do not change the error |
| Compare.LoadPairsSnoc | src/compare.rs:69-70 | one more table: its `env1` file is loaded first, then its `env2` file, then its pair is added |
| Compare.SummaryText | src/compare.rs:45-56 | the `summary` string built with `+=` is the Summary body |
| Compare.ColumnFieldTexts | src/compare.rs:94-103 | the `diffs` vector pushed for a shared column renders exactly its field differences |
| Compare.IndexFieldTexts | src/compare.rs:128-136 | the shared-index loop body compares the triple with itself |
| Compare.SharedColumnStep | src/compare.rs:104-107 | one iteration of the shared-column loop appends a line exactly when the column's fields differ |
| Compare.SharedColumnText | src/compare.rs:91-108 | the shared-column loop appends exactly the lines of the shared-column entries |
| Compare.ColumnText | src/compare.rs:72-108 | the column half of a section is the column part of the table's diff |
| Compare.SharedIndexText | src/compare.rs:127-141 | the shared-index loop appends exactly the lines of the shared-index entries |
| Compare.IndexText | src/compare.rs:110-141 | the index half of a section is the index part of the table's diff |
| Compare.TableText | src/compare.rs:67-141 | the whole `section` string is the body of the table's diff |
| Compare.RenderHtml | src/compare.rs:147-151 | the `html` string built in the loop is the document of the sections |
| Compare.TableStep | src/compare.rs:65-143 | one shared table: the first failing load is the error, otherwise the section of its diff |
| Compare.TableLoop | src/compare.rs:59-144 | the loop over the union with its skip yields the same sections, or the same first error, as loading the common tables in order |
| Compare.Compare | src/compare.rs:30-151 | `compare` succeeds exactly when `ReportSections` does, with the same error or the same sections, and writes their document |
| CompareFacts.OnlyIn | src/compare.rs:47-48 | `only1` is ascending and holds exactly the tables in the first manifest and not the second |
| CompareFacts.LoadPairsOk | src/compare.rs:59-70 | loading succeeds exactly when every table loads on both sides, and then yields each table's two schemas in order |
| CompareFacts.LoadPairsErr | src/compare.rs:69-70 | a failed load is the failure of the first table that does not load, `env1`'s file before `env2`'s; the error gives only its kind, not the table |
| CompareFacts.CompareOk | src/compare.rs:34-70 | a comparison succeeds exactly when both manifests parse and every table listed in both loads on both sides |
| CompareFacts.CompareFailsAtFirstTable | src/compare.rs:59-70 | a failure after both manifests parse is the load failure of the first common table, in ascending order, that does not load |
| CompareFacts.SummaryOfCompare | src/compare.rs:45-57 | the first section is the Summary of the two only-lists; its body is empty exactly when the manifests list the same tables |
| CompareFacts.SectionCount | src/compare.rs:57-143 | a successful comparison has one section more than there are common tables |
| CompareFacts.SectionAt | src/compare.rs:65-143 | section `k` is the `k`-th common table with the body of its diff |
| CompareFacts.TitleAt | src/compare.rs:59-143 | section `k` is titled with the `k`-th common table |
| CompareFacts.TitlesAre | src/compare.rs:59-143 | the sections after the Summary are titled, in order, with the common tables |
| CompareFacts.TableTitlesOfCompare | src/compare.rs:57-143 | after the Summary come sections for exactly the tables in both manifests, in strictly ascending name order |
| CompareFacts.TableBodiesOfCompare | src/compare.rs:67-143 | every table section's body is the body of that table's diff |
| CompareFacts.CompareSections | src/compare.rs:57-144 | a successful comparison is the Summary section followed by the sections of the loaded pairs |
| CompareFacts.CompareSwap | src/compare.rs:30-143 | comparing the other way round also succeeds. It has the same number of sections with the same titles, a Summary of the swapped only-lists, and each table body rendered from the swapped diff |
| CompareFacts.CompareSelf | src/compare.rs:30-143 | a complete snapshot compared with itself, under any two environment names, gives an empty Summary and the body `"\n"` for every table it lists |
| Scenarios.StatusWidened | src/compare.rs:95-96 | a column widened from `varchar(10)` to `varchar(20)` is reported with its type difference alone |
| Scenarios.StatusWidenedTable | src/compare.rs:72-141 | a table whose only column `status` is widened from `varchar(10)` to `varchar(20)`, indexes unchanged, has no one-sided column or index and exactly one entry: `status` with that type difference |
| Scenarios.DefaultOnly | src/compare.rs:101-102 | a column whose default goes from `None` to `Some("")`, type and nullability unchanged, reports only that default difference, rendered `default None vs Some("")` |
| Scenarios.IndexColumnsSwapped | src/compare.rs:110-114 | an index whose columns go from `[a, b]` to `[b, a]` appears exactly once on each one-sided list, and nowhere else |
| Scenarios.QaAgainstProd | src/compare.rs:39-143 | `qa` with `users` and `orders` against `prod` with `users` and `invoices` gives two sections. The Summary lists `orders` and `invoices`, and the unchanged `users` table still gets a section with body `"\n"` |

## Left out

- File system and JSON: opening, parsing and writing files is not modelled. A snapshot directory is a `Snapshots.Snapshot` value, and the report is returned as `Compare.Outcome.html`; `write("schema_diff_report.html")` and its error are left out. The directory paths under `schemr-dumps` are left out too.
- Snapshots.Snapshot: the manifest is kept apart from the table files. A table named `_index`, whose file `_index.json` would be the manifest itself, is therefore not modelled.
- Compare.LoadTable: the text of the errors is not modelled. A malformed table file yields `Malformed`, not serde's message with its line and column; a missing file yields `NotFound`, not the OS error text. Neither names a file, table or environment, as in the program. Other I/O failures of `File::open` (permissions, say) are not modelled.
- Console output: `println!` duplicates the section text and is I/O, so it is left out.
- Text.DebugStrings and Text.DebugOption: Rust's `{:?}` puts strings in double quotes and escapes characters inside them: quotes, backslashes, control characters, and non-printable or grapheme-extending characters as `\u{…}`. The model puts the quotes in and does no escaping at all.
- MySQL: the connection, the password lookup and the `information_schema` queries are foreign calls. Their result rows are parameters of `DumpSnapshot` and `DumpTable`, taken in the order the queries' `ORDER BY` gives.
- Snapshots.DumpSnapshot: the model dumps into an empty directory. `create_dir_all` keeps the files of an earlier dump, so in the program a table dropped since then still has its old `<table>.json`; the model's "no other files" holds only for a fresh directory.
- Snapshots.DumpSnapshot: `create_dir_all`, `File::create`, `to_writer_pretty` and row conversion can all fail in the source. The model always succeeds.
- src/config.rs, src/cli.rs and src/main.rs are not part of this model: they hold prompts, TOML handling and argument parsing.
- The primary key is stored in each `TableSchema` but, as in the source, never compared.

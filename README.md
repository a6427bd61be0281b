# OpenUpgrade API — a Dafny model of its core

The OpenUpgrade API turns the upgrade-analysis reports of the OpenUpgrade
project into a per-version SQLite table of change records. It serves them over
HTTP and derives from them the YAML data files a migration needs. This project
models that core and proves its properties:

- **Report lines** (`report_lines.dfy`). The four regular expressions of
  `UpgradeAnalysisParser` become deterministic matchers. They follow Python's
  backtracking priorities: the lazy module and clause groups end at the first
  closing delimiter that lets the rest match, and the `\S+` module of a field
  line is tried longest first. For each matcher, a round-trip lemma reads a
  well-formed line back into its parts, and a soundness lemma states what any
  recognised line is made of.
- **Report parser** (`report_parser.dfy`). Parsing is a state machine over the
  report's stripped lines. The current category and module are set by section
  headers, and each line goes to the parser of its category. The model covers
  the record builders for model, field and XML-record lines, parsing one file
  and all files, and `run_parse_for_version`, which refills the store.
- **Records and store** (`records.dfy`, `store.dfy`). `ChangeRecord`, its table
  row with `details_json` serialised, and the round trip between them. The
  per-version database is a `ChangeStore` class whose table may or may not
  exist. It has `setup_database`, `clear_all_changes` and `insert_data` with
  autoincrement ids.
- **Changes endpoint** (`changes_query.dfy`). `ChangesResource.get`:
  - the `WHERE` clause assembled from the optional `module`, `model` and
    `version` arguments;
  - SQLite's `LIKE` for the version prefix;
  - `ORDER BY version DESC`;
  - validation of each row back into a record;
  - the 404, 500 and 200 outcomes.
- **Projections** (`projections.dfy`). The four generators of `get.py`:
  - removed models;
  - removed fields grouped by module;
  - renamed models, read from the `rename_info` detail with the two
    `renamed to` / `renamed from` searches;
  - renamed fields, gathered per module from the rename-script scanner.
- **Rename-script scanner** (`scanner.dfy`). It walks a `pre-migration.py`
  syntax tree. `AssignVisitor` binds names to literal tuple lists, and
  `CallVisitor` collects the rows passed to `openupgrade.rename_fields`.
- **Apriori helpers** (`apriori.dfy`). The module covers:
  - `normalize_version` and `get_url`;
  - the classification of the apriori CSV rows by version or by module;
  - `get_apriori` and `query_apriori`, which merge the database tables with
    the CSV result the way `dict.update` does.
- **Support** (`text.dfy`, `order.dfy`, `wrappers.dfy`). Python's `str.strip`
  and its whitespace set, substring search, and the code-point order of
  strings and tuples shared by Python and SQLite. Also sorting and
  sorted-set enumeration, plus `Option` and `Result`.

Behaviour of the code that the model keeps as written:

- `insert_data` (`processing/db.py:47-82`) appends every record; it does not
  skip a record whose `raw_line` is already stored.
- The assignment walk of `parse_pre_migration_for_renamed_fields` binds names
  assigned at any depth of the script, not only at module level.
- The report parser raises `FileNotFoundError` for any path that is not a
  regular file, directories included (`processing/parser.py:31-32`).
- Clearing the `changes` table and inserting records commit in separate
  transactions (`processing/db.py:37-44` and `processing/db.py:47-82`).
- The docstring of `parse_pre_migration_for_renamed_fields`
  (`processing/parser.py:147-150`) promises 4-tuples; the code returns
  `(model, old, new)` 3-tuples.

## Model

| member | source | states |
|---|---|---|
| Text.StripSpec | upgrade_analysis_parser/processing/parser.py:41 | `strip` leaves a slice of the line with no whitespace at either end, and leaves nothing exactly when the line is all whitespace |
| Text.StripOfStripped | upgrade_analysis_parser/processing/parser.py:41 | a line with no whitespace at either end is its own strip |
| Order.StrLtIsStrictTotalOrder | upgrade_analysis_parser/processing/get.py:32 | the code-point order on strings that `ORDER BY` and Python use is a strict total order |
| Order.KeyLtIsStrictTotalOrder | upgrade_analysis_parser/processing/get.py:114 | Python's element-wise order on string tuples is a strict total order |
| Order.SortBy | upgrade_analysis_parser/processing/get.py:142 | `sorted` yields an ordered permutation of its input |
| Order.SortSet | upgrade_analysis_parser/processing/get.py:114 | sorting a set yields each element exactly once, in strictly increasing order |
| Order.StrictlySortedUnique | upgrade_analysis_parser/processing/get.py:114 | two strictly sorted sequences with the same elements are equal, so the sorted output of a set is determined |
| Records.Serialize | upgrade_analysis_parser/processing/db.py:77 | `json.dumps` of the details decodes back to the same object |
| Records.FromRow | server.py:83-87 | a row validates exactly when its `details_json` decodes to an object, and the record keeps the row's version, module and raw line |
| Records.RowRoundTrip | upgrade_analysis_parser/processing/db.py:65-80 | a record stored as a row validates back into the same record |
| Store.NumberedRows | upgrade_analysis_parser/processing/db.py:65-81 | inserting n records adds n rows |
| Store.NumberedRowsAt | upgrade_analysis_parser/processing/db.py:19 | the i-th inserted record gets the id `first + i` and its own column values |
| Store.NumberRows | upgrade_analysis_parser/processing/db.py:65-80 | the row loop builds exactly the numbered rows of the records |
| Store.AppendKeepsIdsIncreasing | upgrade_analysis_parser/processing/db.py:19 | autoincrement ids after the largest id so far keep the table's ids strictly increasing and bounded by the new largest id |
| Store.ChangeStore.constructor | upgrade_analysis_parser/processing/db.py:15 | a new database file has no `changes` table and no rows |
| Store.ChangeStore.Setup | upgrade_analysis_parser/processing/db.py:14-34 | after `CREATE TABLE IF NOT EXISTS`, the table exists and rows and ids are unchanged |
| Store.ChangeStore.Clear | upgrade_analysis_parser/processing/db.py:37-44 | on an existing table, every row is deleted and the id sequence is reset; without the table it fails and changes nothing |
| Store.ChangeStore.Insert | upgrade_analysis_parser/processing/db.py:47-85 | on an existing table, the records are appended in order with the next ids and their count is reported; without the table it fails and changes nothing |
| ReportLines.MatchHeader | upgrade_analysis_parser/processing/parser.py:18 | a recognised header starts with its section's opening text and names a non-empty module |
| ReportLines.HeaderSound | upgrade_analysis_parser/processing/parser.py:18 | every recognised header is the header line of its section and module followed by some text |
| ReportLines.HeaderRoundTrip | upgrade_analysis_parser/processing/parser.py:18 | a header naming a module without `'---` is read back as that section and module |
| ReportLines.MatchModelLine | upgrade_analysis_parser/processing/parser.py:19-21 | a recognised model line starts with "obsolete model" or "new model", has a non-empty name, and any clause or tag is non-empty |
| ReportLines.ModelLineRoundTrip | upgrade_analysis_parser/processing/parser.py:19-21 | a model line built from a keyword, a name of word characters and dots, an optional clause without `)` and an optional tag is read back into exactly those parts |
| ReportLines.ModelLineSound | upgrade_analysis_parser/processing/parser.py:19-21 | the name captured from any model line consists of word characters and dots |
| ReportLines.MatchFieldLine | upgrade_analysis_parser/processing/parser.py:22-24 | a recognised field line starts with its module, and the model, field, description and any type are non-empty |
| ReportLines.FieldLineRoundTrip | upgrade_analysis_parser/processing/parser.py:22-24 | a field line built from its module, model, field, optional type and description is read back into exactly those parts |
| ReportLines.FieldLineSound | upgrade_analysis_parser/processing/parser.py:22-24 | in any field line, the module holds no whitespace and the model, field and type consist of word characters and dots |
| ReportLines.MatchXmlLine | upgrade_analysis_parser/processing/parser.py:25-27 | a recognised XML line starts with NEW or DEL and has a non-empty record model and id |
| ReportLines.XmlLineRoundTrip | upgrade_analysis_parser/processing/parser.py:25-27 | an XML line built from its kind, record model, id and a remainder that cannot continue the id is read back into exactly those parts |
| ReportLines.XmlLineSound | upgrade_analysis_parser/processing/parser.py:25-27 | in any XML line, the model and id consist of word characters and dots, and the remainder is the line's tail and does not start with one |
| ReportParser.ModelDetailsSpec | upgrade_analysis_parser/processing/parser.py:68-72 | `rename_info` is present exactly when the clause mentions "renamed from" or "renamed to", and holds the stripped clause; `tag` is present exactly when a tag is; nothing else is present |
| ReportParser.ParseModelLineSpec | upgrade_analysis_parser/processing/parser.py:60-81 | a record exists exactly when the line matches; it carries the header's module, the upper-cased keyword, the model name, the line and the details, and no field, XML or description value |
| ReportParser.FieldChangeType | upgrade_analysis_parser/processing/parser.py:88-93 | the type is NEW exactly when the description starts with NEW, DEL exactly when it starts with DEL but not NEW, and MODIFIED otherwise |
| ReportParser.ParseFieldLineSpec | upgrade_analysis_parser/processing/parser.py:83-104 | a record exists exactly when the line matches; it carries the line's own module, model and field, the stripped description, the derived type and `field_type` (null when absent) |
| ReportParser.ParseXmlLineSpec | upgrade_analysis_parser/processing/parser.py:106-125 | a record exists exactly when the line matches; the type is RENAMED exactly when the remainder mentions "renamed" (otherwise NEW or DEL), and `rename_info` holds the stripped remainder in that case only |
| ReportParser.ParseRecordIn | upgrade_analysis_parser/processing/parser.py:49-55 | each category dispatches to its own line parser |
| ReportParser.ParseRecordSpec | upgrade_analysis_parser/processing/parser.py:49-57 | before any header no record is built, and every record carries the report's version and the line |
| ReportParser.StepBlank | upgrade_analysis_parser/processing/parser.py:41-43 | a line that strips to nothing changes nothing |
| ReportParser.StepHeader | upgrade_analysis_parser/processing/parser.py:44-48 | a header switches to its upper-cased category and its module and emits nothing |
| ReportParser.StepRecord | upgrade_analysis_parser/processing/parser.py:49-57 | any other line keeps the state and emits the record its category's parser builds, if any |
| ReportParser.FoldAppend | upgrade_analysis_parser/processing/parser.py:40-57 | parsing two runs of lines yields the first run's records followed by those of the second, started in the first run's final state |
| ReportParser.ParseFromAppend | upgrade_analysis_parser/processing/parser.py:40-57 | the same split property for the report parser itself |
| ReportParser.ParseReport | upgrade_analysis_parser/processing/parser.py:36-58 | the line loop yields exactly the records of the parser's fold, starting with no category |
| ReportParser.ParseFromSound | upgrade_analysis_parser/processing/parser.py:36-58 | a report yields at most one record per line, each with the report's version and the stripped text of one of its lines |
| ReportParser.BlankLinesIgnored | upgrade_analysis_parser/processing/parser.py:41-43 | whitespace-only lines yield nothing and leave the state unchanged |
| ReportParser.NothingBeforeHeader | upgrade_analysis_parser/processing/parser.py:49-57 | lines before the first section header yield nothing |
| ReportParser.ModelReportExample | upgrade_analysis_parser/processing/parser.py:36-81 | a Models header followed by a well-formed model line yields exactly that line's record |
| ReportParser.FieldReportExample | upgrade_analysis_parser/processing/parser.py:36-104 | a Fields header followed by a well-formed field line yields exactly that line's record, with the line's own module |
| ReportParser.XmlReportExample | upgrade_analysis_parser/processing/parser.py:36-125 | an XML records header followed by a well-formed XML line yields exactly that line's record |
| ReportParser.ParseFile | upgrade_analysis_parser/processing/parser.py:29-36 | a path that is not a file fails; otherwise the records of its lines, versioned by the parent directory's name |
| ReportParser.ParseAll | upgrade_analysis_parser/processing/parser.py:141 | fails exactly when some path is not a file; otherwise the records of all files, file after file |
| ReportParser.RunParseForVersion | upgrade_analysis_parser/processing/parser.py:128-144 | the table then exists; on success it holds exactly the numbered records of all files from id 1; on failure it is left cleared |
| Scanner.ExtractTupleList | upgrade_analysis_parser/processing/parser.py:163-185 | the element loop computes the literal's rows, or nothing when there are none or the node is not a list or tuple |
| Scanner.RowsAppend | upgrade_analysis_parser/processing/parser.py:173-184 | the rows of concatenated element lists are the concatenated rows |
| Scanner.RowsEmpty | upgrade_analysis_parser/processing/parser.py:185 | a literal yields no rows exactly when none of its elements is a row |
| Scanner.RowsOrigin | upgrade_analysis_parser/processing/parser.py:173-184 | every extracted row comes from one element of the literal |
| Scanner.FourElementRow | upgrade_analysis_parser/processing/parser.py:174-184 | a 4-element tuple gives its first element as model and its last two as old and new field, whatever the second is |
| Scanner.RowNeedsThreeStrings | upgrade_analysis_parser/processing/parser.py:174-183 | an element that is not a list or tuple, is shorter than three, or has a non-string first, second-to-last or last element gives no row |
| Scanner.RowOfThreeStrings | upgrade_analysis_parser/processing/parser.py:174-184 | a list or tuple of three or more elements whose first and last two are string constants gives the row of exactly those three texts |
| Scanner.ResolveNonEmpty | upgrade_analysis_parser/processing/parser.py:187-204 | with non-empty bindings, a resolved expression is never an empty list |
| Scanner.ResolveAdd | upgrade_analysis_parser/processing/parser.py:199-203 | resolving `a + b` concatenates the rows of both sides, an unresolvable side counting as empty |
| Scanner.AssignBinds | upgrade_analysis_parser/processing/parser.py:207-212 | assigning a literal with rows to a name binds the name to those rows |
| Scanner.AssignWithoutRows | upgrade_analysis_parser/processing/parser.py:210-211 | an assignment whose value has no rows binds nothing |
| Scanner.AssignPassAllNonEmpty | upgrade_analysis_parser/processing/parser.py:211-212 | the assignment walk only ever binds non-empty row lists |
| Scanner.AssignPassAllAppend | upgrade_analysis_parser/processing/parser.py:233 | the assignment walk over two node runs is the walk over the second from the first's bindings |
| Scanner.CallPassAllAppend | upgrade_analysis_parser/processing/parser.py:234-235 | the call walk over two node runs yields the first run's rows followed by the second's |
| Scanner.AssignVisitor.constructor | upgrade_analysis_parser/processing/parser.py:161 | the walk starts with no bindings |
| Scanner.AssignVisitor.Visit | upgrade_analysis_parser/processing/parser.py:206-212 | visiting a node leaves the bindings of the assignment walk over it |
| Scanner.AssignVisitor.VisitAssign | upgrade_analysis_parser/processing/parser.py:207-212 | each name target, in order, is bound to the value's rows when there are some |
| Scanner.CallVisitor.constructor | upgrade_analysis_parser/processing/parser.py:215-216 | the collected rows start empty, with the first walk's bindings |
| Scanner.CallVisitor.Visit | upgrade_analysis_parser/processing/parser.py:218-231 | visiting a node appends exactly the rows of the rename calls within it, in visiting order |
| Scanner.CallVisitor.VisitCall | upgrade_analysis_parser/processing/parser.py:218-231 | a call appends its own rename rows before those of the calls nested in it |
| Scanner.CallVisitor.OwnRows | upgrade_analysis_parser/processing/parser.py:219-230 | only `openupgrade.rename_fields` with at least two arguments contributes, the rows its second argument resolves to |
| Scanner.ParsePreMigration | upgrade_analysis_parser/processing/parser.py:146-236 | the result is the rows of the call walk run with the assignment walk's bindings, or none for an unreadable script |
| Scanner.OnlyRenameCallsEmit | upgrade_analysis_parser/processing/parser.py:220-230 | a tree without a rename call yields no rows |
| Scanner.UnparsableScript | upgrade_analysis_parser/processing/parser.py:151-158 | a script that cannot be read or parsed yields no rows |
| Scanner.RenameCallRows | upgrade_analysis_parser/processing/parser.py:226-230 | a rename call passing a bound name yields that name's rows |
| Scanner.CallBeforeAssignment | upgrade_analysis_parser/processing/parser.py:233-236 | because the assignment walk runs first, a call that comes before the assignment of its name still yields the assigned rows |
| Projections.GenerateRemovedModels | upgrade_analysis_parser/processing/get.py:20-40 | without the database nothing is written; otherwise the distinct obsolete model names, each once, in increasing order |
| Projections.RemovedModelListed | upgrade_analysis_parser/processing/get.py:29-31 | every obsolete model row with a model name contributes that name |
| Projections.GroupEntries | upgrade_analysis_parser/processing/get.py:59-60 | the grouping loop builds exactly the module-to-entries map of the selection |
| Projections.GenerateRemovedFields | upgrade_analysis_parser/processing/get.py:43-70 | without the database nothing is written; otherwise one entry list per module of the sorted selection of deleted fields |
| Projections.EntriesOrigin | upgrade_analysis_parser/processing/get.py:59-60 | every grouped entry comes from a selected row of that module |
| Projections.EntriesComplete | upgrade_analysis_parser/processing/get.py:59-60 | every selected row appears in its module's entries |
| Projections.EntriesSorted | upgrade_analysis_parser/processing/get.py:56-60 | a selection sorted by module, model and field gives each module's entries sorted by model and field |
| Projections.RemovedFieldsSpec | upgrade_analysis_parser/processing/get.py:50-67 | a module has a file exactly when a deleted field of it is selected; the file is non-empty, sorted and holds exactly that module's selected fields |
| Projections.GenerateRenamedModels | upgrade_analysis_parser/processing/get.py:73-116 | without the database nothing is written; a row whose `rename_info` is not a string raises; otherwise the distinct pairs, each once, in increasing order |
| Projections.CollectPairsFailurePersists | upgrade_analysis_parser/processing/get.py:94-111 | once a row raises, the whole collection raises |
| Projections.CollectPairsRaises | upgrade_analysis_parser/processing/get.py:94-111 | the collection raises exactly when some row has a truthy non-string `rename_info` |
| Projections.CollectPairsHolds | upgrade_analysis_parser/processing/get.py:94-111 | a pair is collected exactly when some row gives it |
| Projections.RenameTargetSound | upgrade_analysis_parser/processing/get.py:102-103 | a found rename target comes from a match of the pattern: `renamed` after a word boundary, whitespace, the keyword, whitespace, then the target as a non-empty maximal run of word characters and dots |
| Projections.RenameMatchAtComplete | upgrade_analysis_parser/processing/get.py:102-103 | conversely, a match of the pattern at a position is exactly what the matcher captures there, for a keyword that does not start with whitespace |
| Projections.RenameTargetComplete | upgrade_analysis_parser/processing/get.py:102-103 | a text holding any match of the pattern makes the search succeed |
| Projections.RenameTargetLeftmost | upgrade_analysis_parser/processing/get.py:102-103 | the search returns the leftmost match: a match with no match starting before it is the one captured |
| Projections.RenamedToCaptures | upgrade_analysis_parser/processing/get.py:102 | in "renamed to X", X (a non-empty run of word characters and dots) followed by the end or by a character that is neither a word character nor a dot is captured exactly |
| Projections.RenamedToWins | upgrade_analysis_parser/processing/get.py:104-107 | a model whose `rename_info` is "renamed to X" gives the pair (model, X) |
| Projections.RenamedFromCaptures | upgrade_analysis_parser/processing/get.py:102-103 | in "renamed from X" with no other `renamed` in the text, the "to" pattern finds nothing and the "from" pattern captures exactly X |
| Projections.RenamedFromGives | upgrade_analysis_parser/processing/get.py:104-111 | a model whose `rename_info` is "renamed from X" gives the pair (X, model) |
| Projections.RenamedToAfterFrom | upgrade_analysis_parser/processing/get.py:102-103 | in "renamed from Y renamed to X", with no `renamed` inside Y, the "to" pattern captures X from the later clause |
| Projections.RenamedToAfterFromGives | upgrade_analysis_parser/processing/get.py:104-111 | "renamed to" takes precedence: "renamed from Y renamed to X" gives the pair (model, X) |
| Projections.NoInfoNoPair | upgrade_analysis_parser/processing/get.py:95-101 | details that do not decode, do not decode to an object, lack `rename_info` or hold a falsy one give no pair and no error |
| Projections.NonStringInfoRaises | upgrade_analysis_parser/processing/get.py:99-103 | a truthy `rename_info` that is not a string raises |
| Projections.CollectRenamedFieldsSpec | upgrade_analysis_parser/processing/get.py:130-137 | a module has an entry exactly when its scripts yield rows, and the entry is all of them in script order |
| Projections.CollectScripts | upgrade_analysis_parser/processing/get.py:130-137 | the script loop builds exactly that module map |
| Projections.WriteFiles | upgrade_analysis_parser/processing/get.py:140-148 | one file per listed module, in order, each holding the module's entries sorted |
| Projections.FilesOfSorted | upgrade_analysis_parser/processing/get.py:140-148 | writing the modules in sorted order gives one file per module, in strictly increasing module order, each sorted |
| Projections.WriteModuleFiles | upgrade_analysis_parser/processing/get.py:140-148 | the files cover exactly the map's modules, once each, in increasing order, with sorted entries |
| Projections.GenerateRenamedFields | upgrade_analysis_parser/processing/get.py:118-149 | without the source directory nothing is written; otherwise the files of the collected module map |
| Projections.RenamedFieldsFile | upgrade_analysis_parser/processing/get.py:142 | a module's file is non-empty, sorted and a permutation of the module's rows |
| ChangesQuery.LikePrefix | server.py:65-67 | for a value without wildcards, `LIKE value%` holds exactly when the version starts with the value, up to ASCII case |
| ChangesQuery.LikeRest | server.py:67 | `%` alone matches every text |
| ChangesQuery.BuildQuery | server.py:54-67 | a row satisfies every assembled clause exactly when it passes every given filter, and no clause is added when no filter is given |
| ChangesQuery.FilterCount | server.py:71-72 | the selection keeps every copy of an admitted row and no copy of any other |
| ChangesQuery.ByVersionDescSpec | server.py:69 | the result is ordered by non-increasing version and is a permutation of the selection |
| ChangesQuery.ValidateAllSpec | server.py:80-92 | validation succeeds exactly when every row validates, and then yields each row's record in order |
| ChangesQuery.ValidateAllFailurePersists | server.py:91-92 | once a row fails to validate, the whole response fails |
| ChangesQuery.ValidateRows | server.py:80-92 | the validation loop computes exactly that outcome, stopping at the first failure |
| ChangesQuery.Get | server.py:44-94 | a missing database gives 404; a missing table gives 500; otherwise the response for the admitted rows in descending version order |
| ChangesQuery.SelectionSpec | server.py:57-72 | the listed rows are exactly the admitted stored rows, with multiplicity, in descending version order |
| ChangesQuery.NoFiltersSelectAll | server.py:54 | with no argument given, every stored row is listed |
| ChangesQuery.StoredRowsListed | server.py:77-90 | rows the parser stored always validate; the response lists one record per row, each one of the inserted records |
| Apriori.NormalizeVersionSpec | upgrade_analysis_parser/processing/apriori.py:134-139 | the normalised version extends the input, contains a dot, equals the input exactly when it has a dot, and is idempotent |
| Apriori.GetUrlLayouts | upgrade_analysis_parser/processing/apriori.py:101-108 | a supported version gets one of the two repository layouts; a version that compares at most "09.0" is rejected |
| Apriori.GetUrlMonotone | upgrade_analysis_parser/processing/apriori.py:101-108 | a later version is supported whenever an earlier one is, and keeps the newer layout once an earlier version has it |
| Apriori.GetUrlReleases | upgrade_analysis_parser/processing/apriori.py:101-108 | 8.0 and 9.0 are rejected, 10.0 to 13.0 use the old layout, and 14.0 uses the scripts layout |
| Apriori.Put | upgrade_analysis_parser/processing/apriori.py:26 | `setdefault(key, {})[name] = value` adds the key, sets that one entry and leaves the other keys alone |
| Apriori.FetchAprioriFromCsv | upgrade_analysis_parser/processing/apriori.py:14-38 | the row loop computes exactly the classification for the mode the arguments select, failing at a row of at most five cells |
| Apriori.ClassifyFailurePersists | upgrade_analysis_parser/processing/apriori.py:19 | once a short row is reached, the whole read fails with the unpacking error |
| Apriori.ClassifyRaises | upgrade_analysis_parser/processing/apriori.py:19 | the read fails exactly when some row has at most five cells |
| Apriori.UnfilteredEmpty | upgrade_analysis_parser/processing/apriori.py:22-37 | with neither a version nor a query the result is empty |
| Apriori.StepVersionRecords | upgrade_analysis_parser/processing/apriori.py:22-28 | a matching row with a known status records its module under that status's section |
| Apriori.StepVersionSkips | upgrade_analysis_parser/processing/apriori.py:23-28 | any other row changes nothing |
| Apriori.VersionSections | upgrade_analysis_parser/processing/apriori.py:22-28 | a version read has only the two section tables, each present exactly when some matching row has that status |
| Apriori.VersionEntryKeys | upgrade_analysis_parser/processing/apriori.py:25-28 | a module is listed in a section exactly when some matching row names it with that status |
| Apriori.VersionLastRowWins | upgrade_analysis_parser/processing/apriori.py:25-28 | a module's entry is the value of its last matching row |
| Apriori.StepQueryRecords | upgrade_analysis_parser/processing/apriori.py:30-37 | a row of the queried module creates its normalised version's table and updates its sections |
| Apriori.StepQuerySkips | upgrade_analysis_parser/processing/apriori.py:31-32 | a row of another module changes nothing |
| Apriori.VersionDictStepSpec | upgrade_analysis_parser/processing/apriori.py:33-37 | a row adds its module to the section of its status only, as "odoo" when not needed and its detail when moved |
| Apriori.QueryVersions | upgrade_analysis_parser/processing/apriori.py:30-37 | a query read has a version exactly when some row of the module has that normalised version, and holds only the two sections under it |
| Apriori.QueryKeysAreVersions | upgrade_analysis_parser/processing/apriori.py:33 | every key of a query read is a normalised version, so it contains a dot |
| Apriori.QuerySections | upgrade_analysis_parser/processing/apriori.py:33-37 | a version's section is present exactly when some row of that version has its status, and it only ever names the queried module |
| Apriori.QueryLastRowWins | upgrade_analysis_parser/processing/apriori.py:34-37 | the module's entry in a section is the value of the last row of that version and status |
| Apriori.GetAprioriKeepsTables | upgrade_analysis_parser/processing/apriori.py:40-53 | fails exactly when the CSV has a short row; otherwise each selected table is present with the database's pairs, and an unselected one is absent |
| Apriori.QueryAprioriKeepsTables | upgrade_analysis_parser/processing/apriori.py:55-67 | the same for a module query: the CSV's version keys never overwrite a database table |

## Left out

- I/O is not modelled: file reading, the database connection, HTTP and logging. Files are given as their lines, scripts as their parsed syntax trees, a database as a `ChangeStore` (or `null` when its file is missing), and written YAML files as their entries. The `*Line` functions in the model show the line each entry is written as.
- `db_path_for_version` and `ensure_db_exists` are imported from `db.py` but not defined there; the model stands for their outcome with a null store or the flags `storeExists` / `sourceExists`.
- `sqlite_db` is imported by `apriori.py` but not defined in `db.py`. `_fetch_apriori_from_db` is modelled by its result: the two key-to-value maps are parameters of `Apriori.GetApriori` and `Apriori.QueryApriori`.
- `get.py` imports a configuration name that `config.py` does not define, and `manage.py` calls `run_parse_for_version` with three arguments where it takes two. The model takes the intended values: the source directory's existence is the flag `sourceExists`, and `ReportParser.RunParseForVersion` takes the store and the report files.
- `parse_apriori`, `download` and `make_schema` are not modelled. They fetch Python files over the network and execute SQL DDL.
- `sync.py`, `manage.py` and `config.py` are not part of this model. The configured CSV path is given as an optional row list; `None` means no CSV is configured.
- The `glob` that finds report and script files is not modelled; the files are given in the order the glob returns them.
- ReportLines: `\w` is matched on ASCII letters, digits and `_` only; Python also accepts other Unicode letters and digits.
- Projections.GenerateRenamedModels: the `\b` and `\w` of the rename patterns are matched on ASCII only (`Projections.RenameMatchAt` uses the ASCII `IsWordChar`). Python's are Unicode-aware, so a target name with a non-ASCII letter, such as `café`, is captured in full by Python but cut short at that letter by the model.
- ChangesQuery.ByVersionDescSpec: SQLite leaves the order of rows with equal versions open. The model fixes one such order, the reverse of a stable sort, and proves only what SQL promises: descending versions and the same rows.
- ChangesQuery.Get: SQLite errors other than a missing `changes` table are not modelled. `LIKE` wildcards inside the user's version argument are kept as wildcards, as SQLite does. Only ASCII case-folding is modelled, as in SQLite's default `LIKE`.
- Records.Json: JSON numbers are modelled as integers only, so a fractional number such as `0.5`, or a falsy `0.0`, has no counterpart. The parser stores only strings and `None` in the details, and the renamed-models projection reads only the truthiness of `rename_info`.
- Records.FromRow: pydantic validation is modelled only for `details_json`, which must decode to a JSON object. The stored columns are otherwise well typed.
- The `upgrade_info` projection and the server's other routes, CORS headers and error message texts are not modelled.
- Apriori: CSV quoting is not modelled; rows are given already split into cells.

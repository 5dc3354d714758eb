# Spreadsheet import, verified

A Dafny model of the pipeline that turns a spreadsheet into an action plan: reading the file as a
stream, staging and committing its rows, keeping each row's cells and native columns in step, and
the lock that keeps two imports apart. `dafny verify dfyconfig.toml` checks all of it.

| Part | Modules |
|---|---|
| text and tags | `JsText`, `Tags`, `Decimals` |
| reading .xlsx as a stream (ECMA-376 Part 1, sections 18.3.1.4, 18.3.1.73, 18.3.1.80 and 18.4.8; XML 1.0, section 4.6) | `XmlText`, `SharedStrings`, `SheetCells`, `SheetRows`, `SheetPrint`, `SheetReadBack`, `TextReadBack` |
| reading .csv (section 2 of RFC 4180), headers, row extraction | `CsvLine`, `Headers`, `PhysicalRows` |
| cells and derived row state | `RowCells`, `ProjectRow`, `Calendar`, `RowEdits`, `RowResolve` |
| keys | `ExternalKeys`, `CanonicalKeys`, `CommitKeys` |
| import | `ImportCommit`, `CommitRows`, `SheetImport`, `ParseImport`, `FileRows`, `ImportTwice`, `ImportDelivers` |
| concurrency and cache | `JobLock`, `CrossFilters` |

Objects that the program updates in place are classes (`SheetScanner`, `Extraction`, `KeyAllocator`,
`TakenKeys`, `RowRecord`, `PlanTable`, `ImportRun`), its loops are loops, and each such method is
proved equal to a function of its input. The theorems are about those functions. The lock is a state
machine whose steps are the program's steps between two awaits.

What the program gets from outside is a parameter: the rows of the database and its failures, the
clock, the stream's chunks, `matchCanonical`, `normalizeHeader`, the number formatting of cells, and
the reading of statuses, priorities, due dates and assignees.

## Where the program does less than it says or seems to

- `JobLock.FailureBreaksExclusion`: the comment at `src/config/redis-cache.ts:87-90` promises that two
  imports never run in one process when Redis fails. Two attempts that both wait for Redis and both
  see it fail acquire the lock. `JobLock.DisciplineIsExact` gives the condition: attempts in a process must not overlap.
- `JobLock.LateReleaseBreaksExclusion`: the Redis entry carries no owner, so a late release deletes
  the lock of the next holder. `JobLock.DeletesAreExact` gives the condition: no delete takes an entry that
  another attempt owns in time.
- `SheetCells.SelfClosedCell`, `SheetReadBack.PrintedRowRead`: a self-closed cell swallows the cells after it
  up to the next closed one, whose text lands in the wrong column. `SheetReadBack.RowReadsBackIff` gives the
  condition: no closed cell follows a self-closed one.
- `TextReadBack.AmpersandDecodedTwice`: references are decoded before the entities, so an ampersand written as a
  reference can make an entity of what follows.
- `CommitKeys.CommitsUnlessKeysClash`, `CommitKeys.BroughtKeyDrawnAgain`: the key allocator does not
  know the keys that the same chunk brings, so a chunk of distinct keys can be refused.
- `ImportCommit.RepeatedKeyLosesCells`, `ImportCommit.EarlierValueSurvives`: a row that is named twice
  in one chunk loses what the first input wrote into its cells, unless the last one repeats it.
- `SheetImport.FallbackAddsAll`, `SheetImport.FallbackDuplicates`: the row-by-row fallback for a refused
  chunk forgets the keys; rows the plan already has are added a second time.
- `ParseImport.ExactFillFailsLater`, `ParseImport.FullPlanFailsLater`: an import whose chunk fills the
  plan or the tenant exactly ends in an error when more rows follow, instead of reporting the quota as
  reached.
- `ParseImport.RefusedAfterReplacing`: the quota is asked after the old rows are deleted.
- `CrossFilters.SeparatorsCollide`: filter values that contain a separator can share a cache entry.
- `RowResolve.ResolveCompletes`: a completion date in the years 0 to 99 is stored as 1900 to 1999. (Years
  without four digits, which would undo the completion, do not pass the request's schema.)

## Model

| member | source | states |
|---|---|---|
| `Tags.FindIsLeftmost` | src/modules/action-plan-sheets/parse/xlsx-sheet-stream.ts:24-35 | the tag patterns, read as words of a language: a search reports the first position where some word of the pattern starts, with that word's length, and nothing exactly when there is none |
| `Tags.FindExtend` | src/modules/action-plan-sheets/parse/xlsx-sheet-stream.ts:198-216 | text that arrives later never changes where the first tag was found |
| `Tags.ClearByLength` | src/modules/action-plan-sheets/parse/xlsx-sheet-stream.ts:198-216 | when a tag was not found, dropping all but a tail as long as the longest tag loses no tag that later text could complete |
| `XmlText.DecodeInvertsEscape` | src/modules/action-plan-sheets/parse/xlsx-sheet-stream.ts:41-52 | the ordered replacement passes of decodeXml undo the escaping of the five predefined entities on every text, also one that itself looks like an entity |
| `TextReadBack.EntitiesDecoded` | src/modules/action-plan-sheets/parse/xlsx-sheet-stream.ts:46-50 | the five predefined entities are decoded, spelled out |
| `TextReadBack.HexExactly` | src/modules/action-plan-sheets/parse/xlsx-sheet-stream.ts:44-44 | hexadecimal digits count in either letter case, nothing else does |
| `TextReadBack.OpensExactly` | src/modules/action-plan-sheets/parse/xlsx-sheet-stream.ts:26-30 | an element opens exactly at a less-than sign, an optional prefix and the name as a whole word |
| `TextReadBack.ReferencesDecoded` | src/modules/action-plan-sheets/parse/xlsx-sheet-stream.ts:41-52 | a text of the basic plane without ampersand, each character written as a decimal or hexadecimal reference, is decoded to itself |
| `TextReadBack.AmpersandDecodedTwice` | src/modules/action-plan-sheets/parse/xlsx-sheet-stream.ts:44-50 | an ampersand written as a reference is decoded twice |
| `TextReadBack.CdataDecoded` | src/modules/action-plan-sheets/parse/xlsx-sheet-stream.ts:43-43 | a CDATA section without ampersand gives its text |
| `TextReadBack.RichTextRead` | src/modules/action-plan-sheets/parse/xlsx-sheet-stream.ts:190-196 | a shared string of any number of formatted runs and phonetic readings reads as the texts of its runs put together, trimmed; the readings are cut out |
| `SharedStrings.TakeCompleteSiItems` | src/modules/action-plan-sheets/parse/xlsx-sheet-stream.ts:198-216 | the scanner returns the text of every complete si element and keeps exactly what may still become one |
| `SharedStrings.ScanSplit` | src/modules/action-plan-sheets/parse/xlsx-sheet-stream.ts:198-240 | scanning a text, carrying its rest and scanning on gives the same items in the same order as scanning both texts at once, when no opening tag exceeds the kept tail |
| `SharedStrings.ParseSharedStringsStream` | src/modules/action-plan-sheets/parse/xlsx-sheet-stream.ts:222-240 | however the stream is cut into chunks, the strings are those of the whole text; it refuses exactly the streams over the size limit |
| `SharedStrings.PrintedItemsReadBack` | src/modules/action-plan-sheets/parse/xlsx-sheet-stream.ts:190-220 | printing any strings as escaped si/t elements and parsing them back gives the strings trimmed |
| `SharedStrings.PrintParseRoundTrip` | src/modules/action-plan-sheets/parse/xlsx-sheet-stream.ts:190-240 | the round trip, in any chunking, returns the same list if and only if all strings are trimmed; the tail premise then holds by itself |
| `SheetCells.ColIndexFromRef` | src/modules/action-plan-sheets/parse/xlsx-sheet-stream.ts:54-61 | the loop computes the bijective base-26 value of the leading letters, less one, and 0 without letters |
| `SheetCells.ColumnsAreBijective` | src/modules/action-plan-sheets/parse/xlsx-sheet-stream.ts:54-61 | column letters and column numbers are inverse to each other, with any row number behind the letters |
| `SheetCells.AnyCase` | src/modules/action-plan-sheets/parse/xlsx-sheet-stream.ts:54-55 | the letter case of a reference does not matter |
| `SheetCells.ColumnsInOrder` | src/modules/action-plan-sheets/parse/xlsx-sheet-stream.ts:54-61 | columns are ordered by length of their letters and then alphabetically |
| `SheetCells.ParseRow` | src/modules/action-plan-sheets/parse/xlsx-sheet-stream.ts:262-278 | the loop over the cells, padding and overwriting in place, builds the dense row of all cells |
| `SheetCells.WithoutReference` | src/modules/action-plan-sheets/parse/xlsx-sheet-stream.ts:262-273 | a cell without reference stands in the first column, a row without number has line 0 |
| `SheetCells.RowIsDense` | src/modules/action-plan-sheets/parse/xlsx-sheet-stream.ts:262-278 | a row is as long as one plus its highest column; each position holds the value of its last cell, or the empty string when no cell names it |
| `SheetCells.SelfClosedCell` | src/modules/action-plan-sheets/parse/xlsx-sheet-stream.ts:29-30 | a self-closed cell stands alone only when no closing cell tag follows; otherwise it swallows everything up to that tag |
| `SheetRows.SheetScanner.FindSheet` | src/modules/action-plan-sheets/parse/xlsx-sheet-stream.ts:291-299 | looking for the sheet data leaves the rows still to come as they were, whatever is dropped |
| `SheetRows.SheetScanner.TakeRowXml` | src/modules/action-plan-sheets/parse/xlsx-sheet-stream.ts:300-331 | one step takes the next row still to come and shortens the buffer, or finds that more text is needed |
| `SheetRows.SheetScanner.Consume` | src/modules/action-plan-sheets/parse/xlsx-sheet-stream.ts:289-330 | a consume pass ends, and the rows it yields are the rows that were pending less those still pending for any later text |
| `SheetRows.IterateSheetRows` | src/modules/action-plan-sheets/parse/xlsx-sheet-stream.ts:280-343 | for every cutting of a sheet into chunks the rows are those of the whole text, when no tag exceeds the kept tail; a refused stream is over the limit and has yielded only first rows of that result |
| `SheetPrint.AttributeFound` | src/modules/action-plan-sheets/parse/xlsx-sheet-stream.ts:243-243 | an attribute is found, with either kind of quotes that is allowed |
| `SheetPrint.EmptyAttribute` | src/modules/action-plan-sheets/parse/xlsx-sheet-stream.ts:243-243 | an attribute without a value is none |
| `SheetReadBack.PrintedCellsRead` | src/modules/action-plan-sheets/parse/xlsx-sheet-stream.ts:262-278 | the cells of every printed row are found one by one, where a run of self-closed cells and the closed cell behind it are one cell, in the column of the first |
| `SheetReadBack.PrintedRowRead` | src/modules/action-plan-sheets/parse/xlsx-sheet-stream.ts:242-278 | every printed row of inline texts, shared-string indices, numbers, booleans, formula texts, errors and self-closed cells reads back as its line number and the dense row of its cells so collapsed: texts trimmed, TRUE or FALSE, the number's text as the program makes it |
| `SheetReadBack.NumberLooksDecimal` | src/modules/action-plan-sheets/parse/xlsx-sheet-stream.ts:258-259 | a written number is taken for one exactly when it has no exponent; 1.5E-7 stays text |
| `SheetReadBack.DecimalsAreNumbers` | src/modules/action-plan-sheets/parse/xlsx-sheet-stream.ts:258-259 | the number pattern takes a text if and only if it is a sign, digits and perhaps a fraction |
| `SheetReadBack.ContentValue` | src/modules/action-plan-sheets/parse/xlsx-sheet-stream.ts:242-260 | what a printed cell of each kind reads as, its type in either kind of quotes: a decimal without type or of type n gives the program's text of that number, a boolean TRUE or FALSE by its flag, an error its code, a formula its text or, when that looks like a decimal, a number |
| `SheetReadBack.RowReadsBackIff` | src/modules/action-plan-sheets/parse/xlsx-sheet-stream.ts:29-30 | a row with its columns in order and no closed cell empty reads back as it was meant if and only if no closed cell follows a self-closed one |
| `SheetReadBack.BlankTakesNeighboursText` | src/modules/action-plan-sheets/parse/xlsx-sheet-stream.ts:29-30 | in a row of a self-closed and a closed cell the text lands in the column of the self-closed one |
| `SheetReadBack.PrintedSheetFound` | src/modules/action-plan-sheets/parse/xlsx-sheet-stream.ts:280-331 | the row elements of a printed sheet are found, each whole and in order |
| `SheetReadBack.SheetRoundTrip` | src/modules/action-plan-sheets/parse/xlsx-sheet-stream.ts:242-343 | however any printed sheet is cut into chunks, its tags fit into the kept tails and every row reads back as the dense row of its collapsed cells |
| `SheetReadBack.SheetReadsBackIff` | src/modules/action-plan-sheets/parse/xlsx-sheet-stream.ts:242-343 | in any chunking, a sheet with its columns in order and no closed cell empty reads back as it was meant if and only if in no row a closed cell follows a self-closed one |
| `SheetReadBack.WorkbookRoundTrip` | src/modules/action-plan-sheets/parse/xlsx-sheet-stream.ts:190-343 | a printed table of shared strings and a printed sheet that refers to it, each cut into any chunks: every row reads back with the trimmed strings of the table at its indices |
| `Headers.FirstFree` | src/modules/action-plan-sheets/parse/spreadsheet.ts:68-72 | the suffix search ends at the first free candidate, at most one try later than there are names seen |
| `Headers.UniquifyHeaderNames` | src/modules/action-plan-sheets/parse/spreadsheet.ts:61-78 | the loop gives one name for every header, as specified by the first free candidate each time |
| `Headers.NamesAreUnique` | src/modules/action-plan-sheets/parse/spreadsheet.ts:61-78 | the names are non-empty, trimmed and pairwise distinct |
| `Headers.NamesAre` | src/modules/action-plan-sheets/parse/spreadsheet.ts:61-78 | each name is the header's text, trimmed, or Coluna and its number when blank; when a header before it has that name, the lowest number from 2 on that is free is put behind it in parentheses |
| `Headers.UniquifyIsIdempotent` | src/modules/action-plan-sheets/parse/spreadsheet.ts:61-78 | applied to its own result it changes nothing |
| `Headers.HeadersFromRow` | src/modules/action-plan-sheets/parse/spreadsheet.ts:81-88 | blank cells to the right of the last header are dropped, blank ones before it get names; no header exactly when all are blank |
| `CsvLine.ParseCsvLine` | src/modules/action-plan-sheets/parse/spreadsheet.ts:115-138 | the character loop with its look-ahead computes the fields of the quoting automaton |
| `CsvLine.PrintedLineReadBack` | src/modules/action-plan-sheets/parse/spreadsheet.ts:115-138 | a line printed by section 2 of RFC 4180 is read back as its fields trimmed, for every delimiter but the quote |
| `CsvLine.CsvRoundTrip` | src/modules/action-plan-sheets/parse/spreadsheet.ts:115-138 | the round trip returns the same fields if and only if all of them are trimmed |
| `PhysicalRows.Extraction.EmitPhysicalRow` | src/modules/action-plan-sheets/parse/spreadsheet.ts:481-505 | one row is passed on, dropped as blank, or stops the extraction: by the cap with the truncated flag, or by the blank row that closes a long run |
| `PhysicalRows.ExtractPhysicalRows` | src/modules/action-plan-sheets/parse/spreadsheet.ts:507-595 | the extractor writes, in order and within the cap, the first 20 rows verbatim and then the rows with data before it stops; it stops at the first row over the cap, which sets truncated, or that closes a run of at least 10 blanks; it refuses exactly an empty file |
| `PhysicalRows.DataExactly` | src/shared/helpers/trivial-cell.ts:1-9 | a row has data if and only if some cell is more than blank, a dash, a zero or a formula error in any letter case |
| `PhysicalRows.ClosesAfterTen` | src/modules/action-plan-sheets/parse/spreadsheet.ts:487-494 | the extraction stops at a row after the first twenty when it and the nine rows before it are all blank |
| `PhysicalRows.WidthIsMax` | src/modules/action-plan-sheets/parse/spreadsheet.ts:487-487 | the column count is the width of the widest row |
| `PhysicalRows.BlankRunIsBlank` | src/modules/action-plan-sheets/parse/spreadsheet.ts:487-497 | the run of blanks counted is the longest blank end of the rows seen |
| `Decimals.ReadPrint` | src/modules/action-plans/external-key.ts:11-17 | decimal printing and reading are inverse |
| `Decimals.ReadPadded` | src/modules/action-plans/external-key.ts:11-17 | zero padding does not change the number read |
| `ExternalKeys.KeyNumberOfGenerated` | src/modules/action-plans/external-key.ts:3-17 | a generated key is recognised as generated and carries its number, past four digits as well |
| `ExternalKeys.KeyNumberExactly` | src/modules/action-plans/external-key.ts:3-12 | only keys of A- and digits have a number, the digits read as one |
| `ExternalKeys.KeyAllocator.constructor` | src/modules/action-plans/external-key.ts:6-13 | the allocator starts from the highest number among the existing generated keys |
| `ExternalKeys.KeyAllocator.Next` | src/modules/action-plans/external-key.ts:15-18 | a draw raises the number by one and returns its key |
| `ExternalKeys.DrawsAreFresh` | src/modules/action-plans/external-key.ts:6-19 | any number of draws below 2^53 gives keys that are pairwise distinct, absent from the existing ones and strictly increasing in number |
| `ExternalKeys.NumberRows` | prisma/backfill-canonical-keys.ts:43-57 | the backfill keeps existing keys and gives every other row a key that no row had; equal keys afterwards were equal before |
| `CanonicalKeys.AssignCanonicalKeys` | src/modules/columns/canonical-backfill.ts:14-33 | each column gets the key it wins, by lowest sort order and first place |
| `CanonicalKeys.TakenKeys.PickCanonicalKey` | src/modules/columns/canonical-backfill.ts:35-40 | a matched key is given and marked taken once; otherwise nothing changes |
| `CanonicalKeys.PickForColumns` | src/modules/action-plan-sheets/sheets.service.ts:511-534 | the loop that creates a sheet's columns picks a key for each caption in turn, from the keys taken so far |
| `CanonicalKeys.StableSortIsStable` | src/modules/columns/canonical-backfill.ts:14-24 | the sort used in the comparison sorts by sort order, keeps all columns, and keeps columns of equal order in place |
| `CanonicalKeys.BatchEqualsGreedy` | src/modules/columns/canonical-backfill.ts:14-40 | the batch assignment equals picking greedily, from no taken keys, over the columns stably sorted by sort order |
| `CanonicalKeys.EveryMatchedKeyGivenOnce` | src/modules/columns/canonical-backfill.ts:14-33 | no key is given to two columns, and a key is given exactly when some label matches it |
| `CrossFilters.ColumnOfKey` | src/modules/action-plans/cross-filter.ts:13-24 | a filter's column is the first with the canonical key; the name decides only when no column has the key, the id only when none has the name either |
| `CrossFilters.CleanedExactly` | src/modules/action-plans/cross-filter.ts:36-37 | the values kept are exactly the submitted ones, trimmed, that are not blank |
| `CrossFilters.ResolveCrossFilters` | src/modules/action-plans/cross-filter.ts:25-49 | the result names each column once, with distinct non-empty values, and holds a value for a column exactly when some filter asks for it |
| `CrossFilters.SortIsSorted` | src/modules/action-plans/cross-filter.ts:66-69 | the sort used for the cache text sorts and keeps every element |
| `CrossFilters.CacheTextByMeaning` | src/modules/action-plans/cross-filter.ts:63-72 | the text before hashing does not depend on the order of filters or of values |
| `CrossFilters.CacheTextIdentifies` | src/modules/action-plans/cross-filter.ts:63-72 | without separators in ids and values, two texts are equal if and only if the filters mean the same |
| `CrossFilters.MeaningIsWhatIsAsked` | src/modules/action-plans/cross-filter.ts:63-72 | resolved filter lists have equal meaning if and only if they ask for the same values of the same columns |
| `CrossFilters.CacheTextIsWhatIsAsked` | src/modules/action-plans/cross-filter.ts:25-72 | two resolved filter lists without separators share the text before hashing if and only if they ask for the same values of the same columns |
| `CrossFilters.SeparatorsCollide` | src/modules/action-plans/cross-filter.ts:66-69 | with a separator inside a value, two different filter sets share one text |
| `JobLock.AttemptGets` | src/config/redis-cache.ts:91-110 | an undisturbed attempt gets the lock if and only if neither the process's map nor Redis has an entry for the key that still stands; then both have one for the time to live, otherwise nothing changes |
| `JobLock.ReleaseFrees` | src/config/redis-cache.ts:112-115 | after a release an attempt in any process gets the lock, unless that process's own map still has an entry |
| `JobLock.RedisInvariantHolds` | src/config/redis-cache.ts:91-115 | in every interleaving of any number of processes with a Redis that answers, every lock owned is the unexpired Redis entry of its one owner |
| `JobLock.MutualExclusion` | src/config/redis-cache.ts:91-115 | then at most one attempt holds a key, provided only holders release and each release completes in time |
| `JobLock.ExclusionInOneProcess` | src/config/redis-cache.ts:91-115 | in one process, whatever Redis does, at most one attempt holds a key, provided attempts on it do not overlap and it is held within its time |
| `JobLock.ExclusionWithoutRedis` | src/config/redis-cache.ts:91-110 | in one process without a Redis client the memory lock alone excludes, with no premise on overlapping |
| `JobLock.FailuresBreakIff` | src/config/redis-cache.ts:91-110 | from any state, with any processes, failures of commands already sent can lead to two holders of a key if and only if two attempts are trying for it or have it |
| `JobLock.OverlapBreaks` | src/config/redis-cache.ts:91-110 | an attempt that starts while another one on the key awaits Redis is a step after which failures alone lead to two holders |
| `JobLock.DisciplineIsExact` | src/config/redis-cache.ts:91-115 | in one process, over every run held in time, attempts never overlap if and only if at no point failures of commands already sent could lead to two holders |
| `JobLock.FailureBreaksExclusion` | src/config/redis-cache.ts:87-110 | a run from the start in which two attempts both acquire, within their time, because their Redis commands fail |
| `JobLock.LateReleaseBreaksExclusion` | src/config/redis-cache.ts:112-115 | a release that completes after its time to live lets two other processes hold the key at once, both within their time |
| `JobLock.ExclusionInTime` | src/config/redis-cache.ts:91-115 | when Redis answers and only holders release, at most one attempt owns a key in time, as long as no delete takes an entry that another one owns in time; how late attempts are otherwise does not matter |
| `JobLock.DeletesAreExact` | src/config/redis-cache.ts:112-115 | over every such run, no delete takes an entry that another attempt owns in time if and only if at no point a key is free in Redis while an attempt owns it in time |
| `JobLock.UnguardedBreaks` | src/config/redis-cache.ts:96-103 | at such a point the command of any attempt waiting for the key is granted, and two attempts own it in time |
| `JobLock.TimelyTakesNoForeign` | src/config/redis-cache.ts:112-115 | releases that complete in time take no foreign entry, so the premises of mutual exclusion imply those of exclusion in time |
| `RowCells.BuildKeyMap` | src/modules/action-plans/action-plans.repository.ts:264-268 | a key finds a column exactly when it is some column's id or name, and then the last such column |
| `RowCells.FoundByKey` | src/modules/action-plans/action-plans.repository.ts:264-268 | with distinct ids, a column is found by its id or its name if and only if no later column goes by it |
| `RowCells.LoadedMerges` | src/modules/action-plans/action-plans.repository.ts:252-277 | reading only the columns whose id or name is submitted merges as reading all of them would |
| `RowCells.BuildCells` | src/modules/action-plans/row-cells.ts:50-61 | a column has a cell exactly when some non-empty value names it, and the last such value wins; a later empty value takes nothing away |
| `RowCells.MergeCells` | src/modules/action-plans/row-cells.ts:63-83 | the two loops copy the non-empty cells and apply the values on top |
| `RowCells.MergedAt` | src/modules/action-plans/row-cells.ts:63-83 | after merging a column holds the last value that names it, is gone when that value is empty, and keeps its non-empty cell when none names it |
| `RowCells.MergedStores` | src/modules/action-plans/row-cells.ts:63-83 | null and text that is only white space leave no cell, every other value is stored as it is |
| `RowCells.MergedIsFilled` | src/modules/action-plans/row-cells.ts:63-83 | merging leaves no empty cell |
| `RowCells.BuiltIsMerged` | src/modules/action-plans/row-cells.ts:50-83 | building is merging into no cells, when no two values name one column |
| `RowCells.MergeAgain` | src/modules/action-plans/row-cells.ts:63-83 | merging the same values again restores every cell that was not changed in between |
| `ProjectRow.WriteDerived` | src/modules/action-plans/project-row.ts:151-158 | the derived status and final status are written into their cells, and the final status is deleted when there is none |
| `ProjectRow.ProjectIntoCells` | src/modules/action-plans/project-row.ts:144-172 | cells and native patch are those of the projection, each native column only when the plan has its column |
| `ProjectRow.CellOfById` | src/modules/action-plans/project-row.ts:83-86 | with unique keys, reading the last column with a key and finding the first one are about the same column |
| `ProjectRow.DerivedAgree` | src/modules/action-plans/project-row.ts:144-158 | only the two derived cells are changed |
| `RowEdits.SecondPass` | src/modules/action-plans/action-plans.repository.ts:246-300 | a projection of values merged again into projected cells gives the same cells and the same projection, up to a kept workflow status |
| `RowEdits.UpsertTwice` | src/modules/action-plans/action-plans.repository.ts:246-300 | repeating an edit on the same day changes nothing |
| `RowEdits.UpsertInStep` | src/modules/action-plans/action-plans.repository.ts:246-300 | after an edit the native status is what the status cell says or a workflow status over an open one, the native dates are the parsed cells, and all other cells are the merged ones |
| `RowEdits.EveryEditInStep` | src/modules/action-plans/action-plans.repository.ts:246-300 | the same after each step of every sequence of edits, at any clock, and each step could be repeated without effect |
| `RowEdits.StatusFollowsDates` | src/modules/action-plans/project-row.ts:93-111 | after an edit the native columns agree: only completed and cancelled rows have a final status, a completed row is on time by its two dates, a delayed row is overdue today, and no other open row is |
| `RowEdits.WorkflowSurvives` | src/modules/action-plans/project-row.ts:107-115 | a workflow status survives an edit exactly while the row is not cancelled, not completed and not overdue on that day |
| `RowEdits.UpsertFollows` | src/modules/action-plans/project-row.ts:90-172 | after an edit title, priority, assignee, unit and dates are what the cells of their own columns say, by table and trimmed, unchanged without such a column; status, status cell and final status follow from the merged cells; nothing else changes |
| `Calendar.OnlyDatesRead` | src/modules/action-plans/project-row.ts:64-71 | a cell is read as a date if and only if its trimmed text begins with year, month and day |
| `Calendar.DateRead` | src/modules/action-plans/project-row.ts:64-71 | and then as that day, whatever follows |
| `Calendar.DaysFollow` | src/modules/action-plans/project-row.ts:64-71 | the days of the dates follow each other within months, over months and leap years; days and months past the end run over |
| `RowResolve.RowRecord.UpsertFieldValues` | src/modules/action-plans/action-plans.repository.ts:246-300 | the stored row becomes its projection over the merged cells |
| `RowResolve.RowRecord.Resolve` | src/modules/action-plans/action-plans.service.ts:346-426 | resolving is a native update followed by the upsert of the cell updates, in which given values replace the fixed ones |
| `RowResolve.IsoDayParses` | src/modules/action-plans/action-plans.service.ts:388-390 | the first ten characters of an ISO date parse as that day for the years 100 to 9999, as a day of 1900 to 1999 for the years 0 to 99, and not at all otherwise |
| `RowResolve.PlanMapFindsIds` | src/modules/action-plans/action-plans.repository.ts:264-268 | in a plan whose ids are distinct and are no names, every id finds its column, as resolve needs it |
| `RowResolve.ResolveCompletes` | src/modules/action-plans/action-plans.service.ts:346-426 | a resolved row that was not cancelled is completed if and only if the completion year has four digits; it keeps the day it was resolved with if and only if the year is at least 100, and years 0 to 99 are stored as 1900 to 1999 |
| `RowResolve.UpdatesAre` | src/modules/action-plans/action-plans.service.ts:375-413 | the cell updates of a resolve, key by key: the evidence, the day unless a completion date is there, the comment where no other text is, what was submitted, the fixed words |
| `RowResolve.ResolveStores` | src/modules/action-plans/action-plans.service.ts:375-421 | a column that one key alone finds holds afterwards what the resolve says under that key, submitted values first of all |
| `RowResolve.ResolveFollows` | src/modules/action-plans/action-plans.service.ts:362-421 | the native columns of a resolved row follow its cells; those without a column say that it is completed, and when |
| `RowResolve.StaysDone` | src/modules/action-plans/action-plans.repository.ts:246-300 | a completed row stays completed under every sequence of edits, at any clock, that leave the completion date and the status cell alone |
| `RowResolve.ResolvedStaysCompleted` | src/modules/action-plans/action-plans.service.ts:346-426 | what was resolved stays completed under every later sequence of such edits |
| `ImportCommit.PlanTable.CommitImportChunk` | src/modules/action-plans/action-plans.repository.ts:125-218 | one transaction: existing rows are updated from the state read before it, new ones are added at the end under their own or a drawn key, and a failure leaves the plan as it was |
| `CommitRows.UpdatedRows` | src/modules/action-plans/action-plans.repository.ts:172-196 | a named row: of description, responsible and unit the last input that gives one decides, the title and the assignee are the last given ones unless a column of the plan overrides them, its cells are those of before the commit merged with the last input's values |
| `CommitRows.CreatedRows` | src/modules/action-plans/action-plans.repository.ts:198-208 | one new row for each input that names no row, in order, under its own trimmed or the next key, each field the input's or the default unless a column of the plan is about it |
| `CommitRows.CommittedRows` | src/modules/action-plans/action-plans.repository.ts:157-214 | so a commit leaves the plan's rows, as they were or updated, and the new ones behind them |
| `ImportCommit.UpdatedIsSettled` | src/modules/action-plans/action-plans.repository.ts:172-196 | a row updated by an input would not be changed by that input again |
| `ImportCommit.CreatedIsSettled` | src/modules/action-plans/action-plans.repository.ts:198-208 | nor would a row created by it, although creating builds where updating merges |
| `ImportCommit.PassUpserts` | src/modules/action-plans/action-plans.repository.ts:157-209 | with distinct keys, each row named by the chunk is updated by the one input that names it, the other rows are untouched, and the other inputs become the new rows |
| `ImportCommit.CommitTwice` | src/modules/action-plans/action-plans.repository.ts:125-218 | for distinct trimmed keys the commit succeeds, leaves an active row for every input, adds as many rows as the chunk has keys the plan did not have, and committing again on the same day changes nothing |
| `ImportCommit.LastInputDecides` | src/modules/action-plans/action-plans.repository.ts:168-196 | for every chunk, a row that is named several times ends with the cells of its last input alone, applied to the row as read before |
| `ImportCommit.EarlierValueSurvives` | src/modules/action-plans/action-plans.repository.ts:168-196 | a value of an earlier input survives if and only if the last input gives it again, or leaves the column out and the row had it before |
| `ImportCommit.RepeatedKeyLosesCells` | src/modules/action-plans/action-plans.repository.ts:168-196 | a row and two inputs about different columns, of which the first one's cell is lost |
| `CommitKeys.PassKeys` | src/modules/action-plans/action-plans.repository.ts:157-209 | the new rows carry exactly the keys brought and the keys drawn |
| `CommitKeys.CommitsUnlessKeysClash` | src/modules/action-plans/action-plans.repository.ts:157-209 | for every chunk, the commit is refused if and only if two inputs bring one new key, one brings a key the plan has in another spelling, or one brings a key that the chunk also draws |
| `CommitKeys.BroughtKeyDrawnAgain` | src/modules/action-plans/action-plans.repository.ts:157-209 | a file of A-0001 and a row without key is refused by an empty plan |
| `SheetImport.AddRow` | src/modules/action-plans/action-plans.service.ts:123-165 | adding one row checks both quotas, draws a key, creates the row and then fills it; a failure in between leaves the created row behind |
| `SheetImport.AddRowByRow` | src/modules/action-plan-sheets/sheets.service.ts:675-701 | the fallback adds the rows of a refused batch one by one and counts each as imported or skipped |
| `SheetImport.PrepareRows` | src/modules/action-plan-sheets/sheets.service.ts:561-630 | rows without title, of unknown status or blank are skipped and counted; the others are prepared in order |
| `ImportDelivers.PreparedCarry` | src/modules/action-plan-sheets/sheets.service.ts:561-630 | a row is skipped if and only if it has no title, a status without reading, or is blank; the others are prepared in order, each carrying its title, description, unit, given or matched responsible, assignee, status or PENDING, priority or MEDIUM, due date, values and trimmed key |
| `SheetImport.PreparedKey` | src/modules/action-plan-sheets/sheets.service.ts:617-620 | a prepared key is trimmed and not empty, as the commit's law needs it |
| `SheetImport.ImportBatches` | src/modules/action-plan-sheets/sheets.service.ts:651-702 | the batch loop over slices of 100 with its fallback |
| `SheetImport.ImportJson` | src/modules/action-plan-sheets/sheets.service.ts:455-713 | the whole operation on the plan's rows: preparing, the cut to the quota left, the batches and the counts |
| `SheetImport.BatchesProgress` | src/modules/action-plan-sheets/sheets.service.ts:651-702 | through all batches every prepared row is counted once and adds at most one row and one active row, restored and fallback rows included, and keys stay unique |
| `SheetImport.JsonWithinQuota` | src/modules/action-plan-sheets/sheets.service.ts:632-702 | an import that is let through counts every row once and leaves the plan's active rows and the tenant's rows within their limits, whatever fails; it is refused if and only if one of them is full already, and then writes no row |
| `SheetImport.ActiveCounts` | src/shared/limits/tenant-quota.service.ts:37-47 | the sheet quota counts the rows that are not soft-deleted |
| `SheetImport.AddedExactly` | src/modules/action-plans/action-plans.service.ts:131-147 | a row is added exactly unless it fails at once or a quota is used up, also when it fails later; it counts as added only when nothing fails |
| `SheetImport.FallbackOnlyAppends` | src/modules/action-plan-sheets/sheets.service.ts:675-701 | the fallback leaves every row of the plan as it was and adds rows only at the end, under freshly drawn keys |
| `SheetImport.FallbackAddsAll` | src/modules/action-plan-sheets/sheets.service.ts:675-701 | with room and no failure at once it adds a row for every input of the batch, in order, under the next keys, whatever keys the inputs have |
| `ImportDelivers.AddedRowSays` | src/modules/action-plans/action-plans.service.ts:139-165 | a row added alone has the input's fields without its assignee and, unless adding it fails before, exactly the cells the input's values leave, with native columns and status that follow |
| `SheetImport.FallbackCounts` | src/modules/action-plan-sheets/sheets.service.ts:675-701 | with room, the fallback counts exactly the rows whose adding does not fail as imported and the others as skipped |
| `SheetImport.FallbackDuplicates` | src/modules/action-plan-sheets/sheets.service.ts:654-701 | a plan with A-0001 and a file of A-0001, A-0002 and a row without key: the batch is refused, the plan's own row is added again as A-0002, and the file's A-0002 becomes A-0003 |
| `SheetImport.KeylessBatches` | src/modules/action-plan-sheets/sheets.service.ts:651-702 | when the database does not fail, rows without keys are all imported, each as one more active row |
| `SheetImport.CommittedNumbers` | src/modules/action-plans/action-plans.repository.ts:157-214 | the numbers of generated keys grow by no more than the chunk's size |
| `FileRows.DataRowsAre` | src/modules/action-plan-sheets/sheets.service.ts:1053-1070 | the data rows are made, in order, of exactly the lines below the header with some text |
| `FileRows.TableRows` | src/modules/action-plan-sheets/sheets.service.ts:1053-1070 | in a file of a header line and lines with text below it, every such line is a data row, read by the header's names and padded to the width |
| `FileRows.HeaderAndRows` | src/modules/action-plan-sheets/sheets.service.ts:1053-1070 | and when the quota does not stop the run, exactly these lines are considered, up to the cap |
| `FileRows.AcceptedAre` | src/modules/action-plan-sheets/sheets.service.ts:976-999 | the accepted rows are, in order, exactly the data rows that are neither invalid nor blank and repeat no trimmed key of a data row before them |
| `ParseImport.ImportRun.Flush` | src/modules/action-plan-sheets/sheets.service.ts:1013-1041 | a flush does nothing once the quota is reached or without rows; otherwise its counts are added, the quota flag is kept, and only the first one may replace the plan |
| `ParseImport.ImportRun.Check` | src/modules/action-plan-sheets/sheets.service.ts:976-999 | a row is blocked by a key seen before in the file or by an invalid value; its key is remembered either way |
| `ParseImport.ImportRun.Push` | src/modules/action-plan-sheets/sheets.service.ts:1074-1079 | an accepted row waits in the batch until it completes 500 rows, which are flushed; every row considered stays imported, skipped or waiting |
| `ParseImport.ImportRun.Stage` | src/modules/action-plan-sheets/sheets.service.ts:1066-1079 | a data row below the cap is counted, and then skipped or pushed |
| `ParseImport.ImportRun.TakeRow` | src/modules/action-plan-sheets/sheets.service.ts:1053-1080 | after every row of the file the counters, the batch, the headers, the keys seen and the plan are those of the rows taken so far |
| `ParseImport.ImportRun.FinalFlush` | src/modules/action-plan-sheets/sheets.service.ts:1082-1082 | after the last flush the rows considered are all imported or skipped |
| `ParseImport.ImportFromParse` | src/modules/action-plan-sheets/sheets.service.ts:1044-1146 | however the file is divided into physical batches and wherever the run stops, the plan is as by the run over all accepted rows; imported plus skipped is the number of rows considered, which is every data row up to the cap unless the quota stopped the run; the flags and the error cases follow |
| `ParseImport.WholeRunProgress` | src/modules/action-plan-sheets/sheets.service.ts:1013-1083 | a whole run counts every accepted row once and, once a flush has gone through, keeps the limits |
| `ParseImport.AcceptedKeysDiffer` | src/modules/action-plan-sheets/sheets.service.ts:983-994 | no key reaches importJson twice in one run |
| `ParseImport.StoppedOn` | src/modules/action-plan-sheets/sheets.service.ts:1019-1064 | a run stopped by a failure or by the quota has the result of the run over the whole file |
| `ParseImport.FullPlanFailsLater` | src/modules/action-plan-sheets/sheets.service.ts:632-649 | a later flush fails, with everything imported before left in place, if and only if the plan or the tenant is full by then |
| `ParseImport.ExactFillFailsLater` | src/modules/action-plan-sheets/sheets.service.ts:632-649 | a first flush with exactly as many rows as the quota leaves imports them all, does not report the quota as reached and uses it up, so that any later row makes the run fail |
| `ParseImport.RefusedAfterReplacing` | src/modules/action-plan-sheets/sheets.service.ts:486-643 | a first flush without key column empties the plan and then fails if and only if no quota is left for an empty plan |
| `ImportTwice.CommitExtends` | src/modules/action-plans/action-plans.repository.ts:157-214 | a commit of rows with keys of their own succeeds, settles every input, loses no row and no active row, and leaves every row of another key settled |
| `ImportTwice.BatchesExtend` | src/modules/action-plan-sheets/sheets.service.ts:651-702 | the same over all batches of an import, whose rows are all counted as imported |
| `ImportTwice.JsonTwice` | src/modules/action-plan-sheets/sheets.service.ts:632-702 | a second import of the same keyed rows on the same day leaves the plan as the first one left it, also when the quota cut or refused the first or the second; where the first met the quota, so does the second |
| `ImportDelivers.JsonArrives` | src/modules/action-plan-sheets/sheets.service.ts:561-702 | after an import of keyed rows, every row that is not skipped and has room is in the plan, active and under its key, with the fields and cells it was given |
| `ImportDelivers.FileArrives` | src/modules/action-plan-sheets/sheets.service.ts:1013-1083 | the same for a whole file imported by key, when the run ends without meeting the quota |
| `ImportTwice.KeyedRepeatable` | src/modules/action-plan-sheets/sheets.service.ts:976-999 | the accepted rows of a file meet its premise as soon as each has a key and names no column twice |
| `ImportTwice.FileTwice` | src/modules/action-plan-sheets/sheets.service.ts:1013-1083 | importing a file by key a second time on the same day leaves the plan as the first import left it, over all flushes, also when one of them stopped early |

## Left out

- Zip access, file streams, readline, SheetJS, Prisma, job queues, mail, audit and history records: foreign input and output. Files are sequences of text chunks, lines or rows.
- Decoding bytes to text: each chunk is decoded alone, so a character cut in two by a chunk border is damaged before the model starts.
- UTF-16: strings are sequences of Unicode scalar values. A numeric character reference to a surrogate becomes U+FFFD, and sorting compares scalar values.
- Numbers past 2^53, where JavaScript loses units: key allocation is stated below that bound.
- `SheetCells.ParseRow`: the text of a number and the conversion of a shared index are parameters; a row number is read as an unbounded number.
- `SheetReadBack.SheetRoundTrip`: namespace prefixes, other attributes, several t elements in one cell and empty row elements are not printed.
- `ImportTwice.FileTwice`: for rows with keys and a database that does not fail; a row without a key is a new row each time.
- Choosing the worksheet, scoring sheets, suggesting the header row and detecting the delimiter: heuristics without a law.
- The order of object entries: a value list is in submission order, while JavaScript moves integer-like keys to the front.
- Dates are days: the time of day of `completedAt` and `dueDate` and time zones are not represented. The clock does not move within one commit.
- `RowEdits.EveryEditInStep`: approve, reject and requestCompletion write the native status without touching cells and are no steps of these runs.
- `SheetImport.JsonWithinQuota`: no other writer runs meanwhile. bulkSave and the restore in saveSheetRow ask for no quota and are not modelled.
- `SheetImport.ImportJson`: permissions, finding or creating the plan, column synchronisation and the texts of issues; of the issues only the quota flag remains.
- `SheetImport.PrepareRows`: reading the status and priority tables, due dates, assignees and blank rows are parameters.
- `ParseImport.ImportFromParse`: the staged file only. The two older paths, which read the uploaded file again or named records, the progress calls, the list of missing keys and the deletion of an empty plan are left out; column mapping, value validation and blankness are parameters.
- `JobLock.MutualExclusion`: all processes and Redis share one clock, and a Redis command takes effect at one moment.
- SHA-1 of the cache text: taken to be injective.
- Evidence files and references, row metadata and comments' history: `resolve` is modelled as far as it changes status, dates and cells.
- Raw SQL for analytics, periods and charts, the calendar, authentication and billing: queries and contracts whose state is elsewhere.

# airtable-clone core, modelled in Dafny

The project models the data core of an Airtable-like spreadsheet and proves properties about it. A user owns **bases**. A base holds **tables**. A table has **columns** (TEXT or NUMBER), **rows** and **views**. Each row stores one **cell** per column, in entity–attribute–value form. A view carries three settings:

- a column-visibility record;
- a list of sort keys;
- a list of column filters.

The model has two halves.

**Server.** The tRPC routers `base`, `table`, `column`, `row`, `cell` and `view` are modelled as follows:

- `Store.Database` is a class whose sequence fields are the database tables. Every procedure is a method that keeps the store invariant `Valid()`, which says:
  - ids are distinct;
  - every parent exists;
  - columns and views are stored in creation order;
  - every cell references a stored row and column;
  - every row has exactly one cell for each column of its table.
- `StoreFacts` holds the selections and the invariant lemmas.
- The query of `getRowsFilteredSorted` is a pipeline of pure functions:
  - `Filtering`: the filter `switch`, with its early `return true`;
  - `Sorting`: the multi-key comparator and a stable sort;
  - `Query`: the stages and `slice`.
- `Text` holds the string primitives these need: `includes`, string `<` (by code point), `toLowerCase` and `Number(s)`.

**Client.** The grid component and its three editors:

- `TableClient`: `table.tsx`, with the class `TableClient.Grid`. It covers:
  - the paged infinite query;
  - placeholder rows and columns with temporary ids;
  - the queue of edits to placeholder cells, and its replay once the server answers;
  - the optimistic cell update.
- `SortModal`: the ascending → descending → off cycle of a sort key.
- `VisibilityModal`: the visibility switch and the column search.
- `FilterModal`: the condition list of the filter editor and the operator choice.

Server ids are not generated by the model. They are parameters that the caller supplies as fresh (`newId !in ...`). The database's clock is a counter, `clock`. The client's `Date.now()` is a parameter, `now`. Each transaction that can fail for reasons outside the model is also a parameter:

- `commits` for each bulk chunk;
- `seedCommits` for `createBase`.

## Model

| member | source | states |
|---|---|---|
| Store.Database.GetColumns | src/server/api/routers/column.ts:37-44 | the table's columns, exactly; in a valid store in ascending `created` order, with distinct ids |
| Store.Database.GetViewsByTable | src/server/api/routers/view.ts:5-16 | the table's views, exactly, in ascending `created` order |
| Store.Database.GetTablesByBase | src/server/api/routers/table.ts:61-67 | exactly the tables whose `baseId` is the given base |
| Store.Database.GetBases | src/server/api/routers/base.ts:70-74 | exactly the bases of the user |
| Store.Database.GetBase | src/server/api/routers/base.ts:76-82 | a base iff one has that id and belongs to the user, and then that base |
| Store.Database.GetRows | src/server/api/routers/row.ts:79-86 | the table's rows in store order, each with exactly the stored cells of that row |
| Store.Database.FetchedRowsComplete | src/server/api/routers/row.ts:79-86 | in a valid store a fetched row has exactly one cell per column of its table |
| Store.Database.GetRowsFilteredSorted | src/server/api/routers/row.ts:88-232 | unknown view: empty page with count 0; else the count is the number of rows passing the view's filters, every row returned is a stored row of the table that passes them, and for non-negative bounds at most `size` come back |
| Store.Database.AddRow | src/server/api/routers/row.ts:6-33 | unknown table: foreign-key error, nothing changes; else one new row and one empty cell per column of its table, returned with those cells; invariant kept |
| Store.Database.AddBulkRows | src/server/api/routers/row.ts:35-77 | the rows and cells of exactly the committed chunks are appended (chunks commit in order until the first failure); "Added 1000 rows" only when all commit; otherwise the foreign-key error for an unknown table and the transaction error for a chunk that fails; invariant kept |
| Store.Attach | src/server/api/routers/row.ts:82-85 | `include: { cells: true }`: each row keeps its fields and carries exactly its own cells |
| Store.AllVisible | src/server/api/routers/view.ts:85-91 | the `reduce`: a key for exactly the table's columns, every one `true` |
| Store.CellsForChunk | src/server/api/routers/row.ts:62-70 | the cells of one chunk, built column by column with one empty cell per new row |
| Store.InsertChunks | src/server/api/routers/row.ts:45-72 | the chunk loop inserts exactly the leading committed chunks, and its rows and cells are those of the store after them |
| Store.ChunkAt | src/server/api/routers/row.ts:45-50 | the loop's `Math.min(CHUNK_SIZE, COUNT - offset)` ids from `offset` are chunk k, and the offset advances by a chunk |
| Store.ChunksCoverAll | src/server/api/routers/row.ts:38-46 | all chunks together insert exactly COUNT = 1000 rows |
| Store.ChunksCommitted | src/server/api/routers/row.ts:45-72 | no chunk commits for a missing table; otherwise every counted chunk commits and the next one, if any, fails |
| Store.BulkCellsCount | src/server/api/routers/row.ts:62-70 | after k chunks each new row has exactly one cell per column of the table, and no other pair gains a cell |
| Store.BulkKeepsInvariant | src/server/api/routers/row.ts:45-72 | however many chunks commit, the store invariant holds |
| Store.Database.UpdateCell | src/server/api/routers/cell.ts:5-38 | no cell for the pair: "Cell not found" and no change; else every cell of the pair takes the value and the updated cell is returned; invariant kept |
| Store.Database.AddColumn | src/server/api/routers/column.ts:5-35 | unknown table: error and no change; else the new column and one empty cell per row of its table; views are untouched; invariant kept |
| Store.Database.CreateView | src/server/api/routers/view.ts:77-102 | unknown table: error; else a view with every column of the table visible (and only those), no sort keys and no filters |
| Store.Database.UpdateColumnVisibility | src/server/api/routers/view.ts:18-34 | unknown view: "Record to update not found."; else only that view's visibility record is replaced, and the view is returned |
| Store.Database.UpdateSortingState | src/server/api/routers/view.ts:36-52 | unknown view: error; else only that view's sort keys are replaced |
| Store.Database.UpdateColumnFilters | src/server/api/routers/view.ts:54-75 | unknown view: error; else only that view's filters are replaced |
| Store.Database.CreateTable | src/server/api/routers/table.ts:4-59 | unknown base: error, no change; else the table, its four TEXT columns "Name", "Notes", "Assignee", "Status", three rows and the full grid of empty cells; no view; invariant kept |
| Store.Database.CreateBase | src/server/api/routers/base.ts:5-68 | the base is always stored; if the seeding transaction commits, also "Table 1", its "Grid View" with an empty visibility record, default columns, rows and cells; otherwise an error and the base stays without a table |
| StoreFacts.ColumnsOfAscending | src/server/api/routers/column.ts:40-43 | selecting by table from creation-ordered storage is already ordered by `created` ascending |
| StoreFacts.ViewsOfAscending | src/server/api/routers/view.ts:8-15 | the same for views |
| StoreFacts.CellsOfRowCount | src/server/api/routers/row.ts:82-85 | a row's included cells hold exactly the store's cells of that row |
| StoreFacts.FindView | src/server/api/routers/row.ts:98-100 | a view iff one has the id, and then that view |
| StoreFacts.FindOwnedBase | src/server/api/routers/base.ts:79-81 | a base iff one has the id and the user, and then that base |
| StoreFacts.SetValue | src/server/api/routers/cell.ts:12-20 | `updateMany`: every cell of the pair gets the value, every other cell is unchanged |
| StoreFacts.SetValueKeepsCounts | src/server/api/routers/cell.ts:12-20 | writing a value never adds or removes a cell of any pair |
| StoreFacts.FirstCellOf | src/server/api/routers/cell.ts:26-31 | a cell iff the pair has one, and then a stored cell of that pair |
| StoreFacts.SetValueThenFind | src/server/api/routers/cell.ts:12-31 | after the write, `findFirst` for the pair returns the cell with the new value |
| StoreFacts.SeedColumns | src/server/api/routers/table.ts:16-25 | the four default columns, TEXT, named in order, stamped one after another |
| StoreFacts.AddBlankRowKeepsInvariant | src/server/api/routers/row.ts:10-26 | a new row with a blank cell per column of its table keeps the invariant, and its included cells are exactly those blanks |
| StoreFacts.AddBlankColumnKeepsInvariant | src/server/api/routers/column.ts:9-29 | a new column with a blank cell per row of its table keeps the invariant |
| StoreFacts.AddViewKeepsInvariant | src/server/api/routers/view.ts:93-101 | a new view of an existing table keeps the invariant |
| StoreFacts.ReplaceViewKeepsInvariant | src/server/api/routers/view.ts:18-75 | replacing a view's settings (same id, table, stamp) keeps the invariant |
| StoreFacts.CreateTableKeepsInvariant | src/server/api/routers/table.ts:8-47 | a new table of an existing base, seeded with its columns, rows and grid, keeps the invariant |
| StoreFacts.CreateBaseKeepsInvariant | src/server/api/routers/base.ts:10-64 | a new base, its first table with a view, seeded, keeps the invariant |
| StoreFacts.SetValueKeepsInvariant | src/server/api/routers/cell.ts:12-20 | writing cell values keeps the invariant |
| Model.BlankRowCells | src/server/api/routers/row.ts:20-24 | one empty cell of the row per column, in column order |
| Model.BlankRowCellsCount | src/server/api/routers/row.ts:20-26 | over distinct columns, exactly one cell per column of the new row and none elsewhere |
| Model.GridCount | src/server/api/routers/table.ts:35-47 | the seeding `flatMap` creates exactly one cell per (row, column) pair |
| Model.ColumnMajorCount | src/server/api/routers/row.ts:62-70 | column by column, one cell per new row: exactly one per pair |
| Filtering.FindCellIndex | src/server/api/routers/row.ts:124-126 | the position of the first cell of the column, or none |
| Filtering.RowPasses | src/server/api/routers/row.ts:118-190 | the `rows.filter` callback: a row that no filter rejects passes; its full early-return behaviour is characterised by `RowPassesIff` |
| Filtering.RowPassesIff | src/server/api/routers/row.ts:117-190 | a row passes iff some filter settles it: all earlier ones say "go on" and it accepts, or the list ends |
| Filtering.AcceptIff | src/server/api/routers/row.ts:136-163 | a filter accepts a row outright iff it is `contains`, `not_contains` or `equals` with an empty operand |
| Filtering.AcceptIgnoresLaterFilters | src/server/api/routers/row.ts:137-140 | once a filter accepts, later filters are never consulted |
| Filtering.MissingCellRejects | src/server/api/routers/row.ts:128-130 | a row without a cell for a filter's column is rejected, unless an earlier filter accepted it |
| Filtering.EmptinessIgnoresOperand | src/server/api/routers/row.ts:164-173 | `is_empty`/`is_not_empty` ignore the operand and reject exactly the non-empty/empty cells |
| Filtering.UnknownOperatorRejectsNothing | src/server/api/routers/row.ts:184-186 | an operator outside the switch lets every row through |
| Filtering.SubstringSemantics | src/server/api/routers/row.ts:137-154 | with an operand, `contains` keeps a row iff the operand occurs in the cell; `not_contains` iff it does not |
| Filtering.NumericSemantics | src/server/api/routers/row.ts:174-183 | `greater_than`/`less_than` reject iff both sides are numbers and the comparison fails; NaN never rejects |
| Filtering.ConjunctionWithoutShortcut | src/server/api/routers/row.ts:118-190 | without an accept-shaped filter, a row passes iff no filter rejects it |
| Filtering.KeepPassing | src/server/api/routers/row.ts:118-190 | `rows.filter`: exactly the passing rows, as an order-preserving subsequence |
| Filtering.KeepPassingAppend | src/server/api/routers/row.ts:118-190 | filtering distributes over concatenation: each row's fate is its own, order is kept |
| Filtering.FilterRows | src/server/api/routers/row.ts:117-191 | the filter stage: a row is kept iff it is a fetched row that passes the view's filters, and no rows are added |
| Filtering.FilterRowsIsKeepPassing | src/server/api/routers/row.ts:117-191 | skipping the filter stage for an empty list changes nothing |
| Text.ContainsIff | src/server/api/routers/row.ts:142 | `includes` holds iff the operand occurs at some position |
| Text.Contains | src/server/api/routers/row.ts:142 | `includes`: true only when the operand is no longer than the value, and every string includes itself; `ContainsIff` gives the full meaning |
| Text.StrLess | src/server/api/routers/row.ts:215-220 | string `<` is strict: a string is never below itself; `StrLessTotal` and `StrLessTransitive` make it a strict total order |
| Text.StrLessTotal | src/server/api/routers/row.ts:215-219 | two different strings are ordered by `<` one way or the other |
| Text.StrLessTransitive | src/server/api/routers/row.ts:215-219 | string `<` is transitive |
| Text.ToLower | src/app/_components/basesPage/visibilityModal.tsx:34-36 | `toLowerCase`: same length, each letter A–Z lowered, other characters kept |
| Text.ParseNumExamples | src/server/api/routers/row.ts:175 | `Number("")` is 0, `Number("abc")` is NaN, digit strings are their values, and leading Unicode white space such as U+3000 is skipped |
| Text.ParseNum | src/server/api/routers/row.ts:175 | `Number(s)`: a non-blank string that converts to a number contains a decimal digit, so a lone sign or point is NaN; a blank string is 0 (`ParseNumExamples`) |
| Sorting.CompareAntisymmetric | src/server/api/routers/row.ts:194-223 | swapping the rows negates the comparator |
| Sorting.CompareRows | src/server/api/routers/row.ts:194-223 | the comparator returns -1, 0 or 1, and a row ties with any row carrying the same cells; `CompareAntisymmetric` and `CompareTransitive` make it an order |
| Sorting.CompareTransitive | src/server/api/routers/row.ts:194-223 | on rows with a cell per key, numbers or texts consistently per key, the comparator is transitive |
| Sorting.KeyOrderSameKind | src/server/api/routers/row.ts:208-219 | two numbers, or two strings, compare 0 only when equal, and their order is transitive |
| Sorting.SortPermutes | src/server/api/routers/row.ts:193-224 | the sort returns a permutation of its input, whatever the keys |
| Sorting.SortRows | src/server/api/routers/row.ts:193-224 | the sort keeps the number of rows; `SortPermutes`, `SortSorts` and `SortStable` state that it is a stable sorting permutation |
| Sorting.SortSorts | src/server/api/routers/row.ts:193-224 | under the same conditions the result is ordered by the keys |
| Sorting.SortStable | src/server/api/routers/row.ts:193-224 | for rows that have a cell for every sort key, each key holding numbers in all rows or strings in all rows: rows that tie keep their fetched order |
| Sorting.AllTiedUnchanged | src/server/api/routers/row.ts:204-222 | when every row ties (no key, or keys all rows lack) the order is unchanged |
| Sorting.NoKeysUnchanged | src/server/api/routers/row.ts:193 | skipping the sort for an empty key list changes nothing |
| Query.RelativeIndex | src/server/api/routers/row.ts:227 | a `slice` bound: negative counts from the end, then clamped to the length |
| Query.JsSlice | src/server/api/routers/row.ts:227 | `slice` returns no more rows than it is given, each one of them; `JsSliceWindow` gives the window for non-negative bounds |
| Query.JsSliceWindow | src/server/api/routers/row.ts:227 | for non-negative bounds the page is the window `[start, start+size)` cut to the rows |
| Query.JsSliceAdjacent | src/server/api/routers/row.ts:227 | adjacent windows join into the window that spans both |
| Query.JsSliceNegativeStart | src/server/api/routers/row.ts:227 | a negative `start` returns the last `-start` rows |
| Query.UniversePermutes | src/server/api/routers/row.ts:116-224 | the selection is a reordering of the rows passing the filters |
| Query.Universe | src/server/api/routers/row.ts:116-224 | the filter stage followed by the sort stage never selects more rows than the table holds; `UniverseMembers` and `UniversePermutes` say exactly which rows it holds |
| Query.UniverseMembers | src/server/api/routers/row.ts:116-224 | a row is selected iff it is stored for the table and passes the filters |
| Query.UniverseOrdered | src/server/api/routers/row.ts:116-224 | for rows that have a cell for every sort key, each key holding numbers in all rows or strings in all rows: the selection is sorted by the view's keys and stable |
| Query.FilteredSortedPage | src/server/api/routers/row.ts:97-231 | no view: `{data: [], totalRowCount: 0}`; else the count of passing rows and at most `size` of them |
| Query.PageIsWindow | src/server/api/routers/row.ts:226-231 | a page is the window of the selection and the count is the selection's size |
| Query.PlainViewIsTable | src/server/api/routers/row.ts:116-224 | a view without filters or keys selects the table's rows as fetched |
| Query.ScoreFilterScenario | src/server/api/routers/row.ts:174-178 | scores "10", "2", "" filtered `greater_than "1"` keep "10" and "2" (an empty cell is 0) |
| Query.ScoreSortScenario | src/server/api/routers/row.ts:208-219 | the same scores sort numerically: "", "2", "10" |
| TableClient.PagesJoinIntoPrefix | src/app/_components/basesPage/table.tsx:83-105 | pages requested at `pageParam * fetchSize`, each the window of one selection, join into its leading rows with no gap and no overlap |
| TableClient.ServerPagesCoverSelection | src/app/_components/basesPage/table.tsx:83-105 | pages answered by `getRowsFilteredSorted`, fetched until they cover `totalRowCount`, hold the whole selection exactly once, in order |
| TableClient.Grid.NextStart | src/app/_components/basesPage/table.tsx:84-94 | the next request starts at the number of loaded pages times 40 |
| TableClient.Grid.ReceivePage | src/app/_components/basesPage/table.tsx:99-105 | a page joins the cache and the shown rows are the cached pages joined |
| TableClient.Grid.SyncFromCache | src/app/_components/basesPage/table.tsx:99-105 | the effect resets the shown rows to the cache; nothing else changes |
| TableClient.Grid.constructor | src/app/_components/basesPage/table.tsx:48-69 | an empty cache and queue, the given columns and views |
| TableClient.TempRowId | src/app/_components/basesPage/table.tsx:113 | the placeholder row id contains "temp" |
| TableClient.TempColumnId | src/app/_components/basesPage/table.tsx:221-227 | the placeholder column id contains "temp" |
| TableClient.Placeholder | src/app/_components/basesPage/table.tsx:114-123 | the placeholder row has the temp id and one empty cell per shown column, in order |
| TableClient.PlaceholderBecomesServerRow | src/app/_components/basesPage/table.tsx:181-210 | once renamed, the placeholder equals the row `addRow` stores (`row.ts`:6-33): server id and one empty cell per column |
| TableClient.RowRenamed | src/app/_components/basesPage/table.tsx:181-210 | the temp row takes the server id in itself and in every cell; other rows unchanged |
| TableClient.Grid.CreateRowMutate | src/app/_components/basesPage/table.tsx:108-143 | the placeholder is appended to the shown rows and to the last cached page; the context keeps the previous rows |
| TableClient.AppendToLastPage | src/app/_components/basesPage/table.tsx:127-140 | the joined cache gains exactly the placeholder at its end (an empty cache stays empty) |
| TableClient.Grid.CreateRowSucceed | src/app/_components/basesPage/table.tsx:144-211 | null row: shown rows restored only; other table: no change; else the placeholder's queued edits leave the queue and are sent with the server id, and the last page's temp row is renamed; the queue stays well formed |
| TableClient.Decimal | src/app/_components/basesPage/table.tsx:113 | the number in decimal: only digits, their value is the number, and there is no leading zero |
| TableClient.NewColumnName | src/app/_components/basesPage/table.tsx:383-399 | never empty; a typed name is kept; untyped, it is "Label " followed by digits whose value is the number of shown columns |
| TableClient.DefaultNamesDistinct | src/app/_components/basesPage/table.tsx:384-388 | untyped names made for two column counts are equal exactly when the counts are |
| TableClient.Grid.CreateColumnMutate | src/app/_components/basesPage/table.tsx:220-269 | the placeholder column joins both column lists, and every row of the last page gets an empty cell for it |
| TableClient.WithBlankCell | src/app/_components/basesPage/table.tsx:239-266 | one empty cell of the new column is appended; nothing else changes |
| TableClient.PlaceholderCellBecomesServerCell | src/app/_components/basesPage/table.tsx:350-380 | after the rename the cached row carries exactly the empty cell `addColumn` creates (`column.ts`:21-29) |
| TableClient.ColumnRenamedIn | src/app/_components/basesPage/table.tsx:350-380 | only the cells of the temp column change, and only their column id |
| TableClient.Grid.CreateColumnSucceed | src/app/_components/basesPage/table.tsx:270-381 | null column: columns and rows restored; other table: no change; else the temp column takes the server id in both lists, every view shows it, queued edits are replayed and the last page renamed; queue stays well formed |
| TableClient.ColumnRenamed | src/app/_components/basesPage/table.tsx:283-304 | only the temp column's id changes |
| TableClient.ColumnRenamedDistinct | src/app/_components/basesPage/table.tsx:283-304 | renaming to an id not shown keeps column ids distinct |
| TableClient.Shown | src/app/_components/basesPage/table.tsx:306-323 | the view gets the new column switched on; every other key keeps its value |
| TableClient.ShownInAll | src/app/_components/basesPage/table.tsx:306-323 | every view of `localViews` gets the new column switched on, and only that |
| TableClient.CellUpdated | src/app/_components/basesPage/table.tsx:429-458 | only the cells matching both ids change, and only their value |
| TableClient.UpdateAllPagesFlatten | src/app/_components/basesPage/table.tsx:429-458 | editing each page is editing the joined rows |
| TableClient.Grid.UpdateCellMutate | src/app/_components/basesPage/table.tsx:429-458 | every cached page shows the edit; the shown rows are untouched |
| TableClient.Grid.MutateCell | src/app/_components/basesPage/table.tsx:429-458 | the edit is shown in the cache and sent to the server |
| TableClient.Grid.Replay | src/app/_components/basesPage/table.tsx:156-179 | the edits are applied to the cache and sent, in order |
| TableClient.Grid.OnBlur | src/app/_components/basesPage/table.tsx:515-555 | an edit of a temp row or column is upserted into the queue, reading the current queue for the `some` test; any other edit is shown and sent; the queue stays well formed |
| TableClient.UpsertLatestWins | src/app/_components/basesPage/table.tsx:516-547 | with the `some` test on the current queue: the edit becomes the only entry of its cell, other cells' entries are kept, at most one entry per cell |
| TableClient.Upsert | src/app/_components/basesPage/table.tsx:519-547 | the queue grows by at most one entry, and entries of other cells keep their positions and values; `UpsertLatestWins` proves the latest value is the only entry of its cell |
| TableClient.UpsertFromSnapshot | src/app/_components/basesPage/table.tsx:515-547 | the `some` test reads the queue as of the last `columns` rebuild: a cell it does not find is appended to the current queue, a found one is replaced in place; with an up-to-date snapshot it is `Upsert` |
| TableClient.StaleSnapshotQueuesTwice | src/app/_components/basesPage/table.tsx:474-570 | two blurs of a new row's cell with no column change between them queue two entries for that cell, and both are replayed in order |
| TableClient.Kept | src/app/_components/basesPage/table.tsx:156-179 | the queue after a success: exactly the entries not about the created id |
| TableClient.Replays | src/app/_components/basesPage/table.tsx:156-179 | every replayed entry carries the server id; replayed plus kept is the whole queue |
| TableClient.ReplaysComplete | src/app/_components/basesPage/table.tsx:156-179 | every entry about the created id is replayed, retargeted |
| TableClient.NothingToReplay | src/app/_components/basesPage/table.tsx:156-160 | without an entry for the created id the `some` guard changes nothing |
| TableClient.KeptWellFormed | src/app/_components/basesPage/table.tsx:156-179 | dropping entries keeps at most one per cell and all about placeholders |
| TableClient.ColumnFirstSendsTempRow | src/app/_components/basesPage/table.tsx:325-348 | an edit of a temp row in a temp column, when the column is created first, is sent with the temp row id and the row's later replay finds nothing |
| TableClient.LastCellWins | src/app/_components/basesPage/table.tsx:573-585 | the grid record holds, per column, the value of that column's last cell |
| TableClient.CellMap | src/app/_components/basesPage/table.tsx:578-581 | the `reduce` has a key for exactly the columns that have a cell; `LastCellWins` gives each key its last cell's value |
| TableClient.Record | src/app/_components/basesPage/table.tsx:576-582 | the row object always has a "rowId" key and a key for every column with a cell; `RecordKeepsRowId` gives "rowId" the row's id |
| TableClient.NoCellNoKey | src/app/_components/basesPage/table.tsx:573-585 | a column without a cell has no key in the record |
| TableClient.RecordKeepsRowId | src/app/_components/basesPage/table.tsx:575-582 | unless a column id is literally "rowId", the record carries the row's id |
| SortModal.FindSort | src/app/_components/basesPage/sortModal.tsx:49 | the first entry for the column, or none |
| SortModal.Without | src/app/_components/basesPage/sortModal.tsx:55-56 | exactly the entries of other columns remain |
| SortModal.Flipped | src/app/_components/basesPage/sortModal.tsx:57-60 | entries keep their columns and order; only the clicked column's direction flips |
| SortModal.ToggleSort | src/app/_components/basesPage/sortModal.tsx:48-68 | every other column's entry stays in the list and none is added, and the clicked column keeps an entry unless it was descending; `ToggleAdvances` and `ToggleKeepsOthers` give the cycle and the order |
| SortModal.ToggleAdvances | src/app/_components/basesPage/sortModal.tsx:48-68 | a click moves the column unsorted → ascending → descending → unsorted |
| SortModal.ToggleKeepsOthers | src/app/_components/basesPage/sortModal.tsx:48-68 | entries of other columns are neither changed nor reordered |
| SortModal.ToggleKeepsNoDuplicates | src/app/_components/basesPage/sortModal.tsx:48-68 | a list without duplicate columns stays so |
| SortModal.ToggleUnsortedAppends | src/app/_components/basesPage/sortModal.tsx:52-53 | an absent column is appended ascending, last |
| SortModal.ToggleAscendingFlipsInPlace | src/app/_components/basesPage/sortModal.tsx:57-60 | an ascending entry turns descending where it stands |
| SortModal.ToggleDescendingRemoves | src/app/_components/basesPage/sortModal.tsx:55-56 | a descending entry is removed; the rest close up in order |
| SortModal.ToggleThriceRestores | src/app/_components/basesPage/sortModal.tsx:48-68 | three clicks on an absent column restore the list |
| SortModal.SortingSaved | src/app/_components/basesPage/sortModal.tsx:28-46 | only the selected view's sort keys become the returned ones |
| SortModal.SelectedSortingSaved | src/app/_components/basesPage/sortModal.tsx:41-44 | `setSelectedView`: the selected view takes the returned keys, and its other settings are kept |
| SortModal.SortingSavedAgrees | src/app/_components/basesPage/sortModal.tsx:28-46 | the selected view and its entry in `localViews` agree after the save if they agreed before |
| VisibilityModal.Toggled | src/app/_components/basesPage/visibilityModal.tsx:45-47 | the column's flag is negated (absent reads as hidden, so it becomes shown); other keys kept |
| VisibilityModal.ToggleMissingShows | src/app/_components/basesPage/visibilityModal.tsx:45-47 | a column without an entry becomes visible |
| VisibilityModal.ToggleTwice | src/app/_components/basesPage/visibilityModal.tsx:45-47 | two clicks restore a present key; an absent key ends hidden |
| VisibilityModal.VisibilitySaved | src/app/_components/basesPage/visibilityModal.tsx:66-77 | only the selected view's visibility record changes, to the toggled one |
| VisibilityModal.FilteredColumns | src/app/_components/basesPage/visibilityModal.tsx:34-36 | exactly the columns whose lower-cased name includes the lower-cased search |
| VisibilityModal.FilteredColumnsConcat | src/app/_components/basesPage/visibilityModal.tsx:34-36 | the list keeps column order |
| VisibilityModal.EmptySearchShowsAll | src/app/_components/basesPage/visibilityModal.tsx:34-36 | an empty search shows every column, in order |
| FilterModal.BlankCondition | src/app/_components/basesPage/filterModal.tsx:91-93 | a condition on the first column with empty operator and operand; no column: the error |
| FilterModal.InitialConditions | src/app/_components/basesPage/filterModal.tsx:82-94 | stored filters numbered by position; no list at all: one blank condition on the first column, or the error when there is none |
| FilterModal.InitialConditionsRoundTrip | src/app/_components/basesPage/filterModal.tsx:82-94 | opening on stored filters and saving unchanged gives them back, with distinct row ids |
| FilterModal.FiltersOf | src/app/_components/basesPage/filterModal.tsx:112-115 | the saved list has one filter per condition, in order, with that condition's column, operator and operand |
| FilterModal.ColumnChanged | src/app/_components/basesPage/filterModal.tsx:102-110 | only the conditions with that row id change, and only their column |
| FilterModal.HandleColumnChange | src/app/_components/basesPage/filterModal.tsx:98-131 | the new list is saved and written into only the selected view |
| FilterModal.OperatorChanged | src/app/_components/basesPage/filterModal.tsx:133-152 | only the matching conditions' operator changes |
| FilterModal.OperandChanged | src/app/_components/basesPage/filterModal.tsx:154-173 | only the matching conditions' operand changes |
| FilterModal.AddCondition | src/app/_components/basesPage/filterModal.tsx:175-186 | a blank condition on the first column numbered `conditions.length` is appended; no column: the error |
| FilterModal.AddKeepsPositions | src/app/_components/basesPage/filterModal.tsx:175-186 | while only adding, row ids stay positions |
| FilterModal.DeleteCondition | src/app/_components/basesPage/filterModal.tsx:188-195 | exactly the conditions with other row ids remain |
| FilterModal.DeleteConditionConcat | src/app/_components/basesPage/filterModal.tsx:188-195 | deletion keeps the order of the rest |
| FilterModal.DeleteKeepsDistinct | src/app/_components/basesPage/filterModal.tsx:188-195 | deleting keeps row ids distinct |
| FilterModal.AddAfterDeleteRepeatsRowId | src/app/_components/basesPage/filterModal.tsx:175-186 | delete then add repeats a row id still in use, and an edit then changes both conditions |
| FilterModal.AddConditionFixed | src/app/_components/basesPage/filterModal.tsx:175-186 | the added condition is numbered past every row id in use |
| FilterModal.NextRowIdOfPositions | src/app/_components/basesPage/filterModal.tsx:175-186 | when row ids are positions, the next free id is the length, as the editor numbers it |
| FilterModal.FixAgreesWithoutDeletes | src/app/_components/basesPage/filterModal.tsx:175-186 | without deletions the fix numbers exactly as the editor does |
| FilterModal.EditorKeepsRowIdsDistinct | src/app/_components/basesPage/filterModal.tsx:98-195 | with the fix, adds, deletes and edits keep row ids distinct |
| FilterModal.OperatorsFor | src/app/_components/basesPage/filterModal.tsx:246-261 | the list for the condition's column type; a condition whose column is not listed is the `TypeError` |
| FilterModal.TextOperatorsKnown | src/app/_components/basesPage/filterModal.tsx:30-56 | every TEXT operator offered is one the server's filter applies |
| FilterModal.SmallerThanIgnored | src/app/_components/basesPage/filterModal.tsx:58-71 | the NUMBER list offers `smaller_than`, which the server's switch lacks: it rejects nothing |
| FilterModal.FixedOperatorsKnown | src/app/_components/basesPage/filterModal.tsx:58-71 | with `less_than`, every offered operator is applied and "<" rejects exactly the rows not below the operand |

## Left out

- Prisma, tRPC, sessions and authentication are not modelled. The signed-in user is the `userId` parameter. Database id generation is replaced by fresh ids that the caller supplies.
- Concurrency is not modelled: `Promise.all` and concurrent requests. Each procedure is one atomic step on the store. Transactions that fail for outside reasons are the `commits` / `seedCommits` parameters.
- `Date.now()` and `new Date()` are not modelled. The client takes `now` as a parameter, and the server stamps `created` from a counter.
- JavaScript numbers are only partly modelled. `Number(s)` is modelled for decimal literals with an optional sign and surrounding white space. Fractional `start` and `size` (`z.number()`, `row.ts`:93-94), which `slice` truncates, are not modelled: the model takes integer bounds. Exponents, hexadecimal, `Infinity`, floating-point rounding and `.toString()` of numbers are not.
- Text.ToLower: lowers only the letters A–Z. JavaScript's `toLowerCase` also lowers letters outside ASCII.
- Sorting.SortSorts and Sorting.CompareTransitive: proved only for rows that have a cell for every sort key, with each key holding numbers in all rows or strings in all rows. For mixed rows the comparator the source hands to `sort` is not a total order, and JavaScript leaves the result implementation-defined.
- Sorting.SortStable and Query.UniverseOrdered: stability and sortedness are proved only for such conforming rows. A TEXT column with empty cells beside words breaks that condition, since `""` coerces to 0. Without transitive ties the insertion sort is not stable, and JavaScript leaves the order implementation-defined.
- Text.StrLess: compares strings by Unicode code point. JavaScript's `<` compares UTF-16 code units, so the two orders differ for characters above U+FFFF against characters from U+E000 to U+FFFF.
- TableClient.Grid.OnBlur and TableClient.UpsertLatestWins: the grid's `some` test reads the current queue. The source reads the queue captured by the `columns` `useMemo` (`table.tsx`:474-570, dependencies `localColumns` and `searchQuery`), so it can queue two entries for one cell. `UpsertFromSnapshot` models that test, and `StaleSnapshotQueuesTwice` shows the case. Hooks are not modelled, so the Grid keeps no snapshot.
- Store.Database.CreateBase: the Grid View is stored with no sort keys and no filters. `base.ts`:25-31 passes only `columnVisibility: {}`, so these are taken to be the schema's defaults. The Prisma schema is not part of this model.
- The selected view's visibility map, written by `setColumnVisibility` (`visibilityModal.tsx`:76), is the toggled map `VisibilityModal.Toggled` returns; no separate member models it.
- Filter entries that are null (`row.ts`:120-122) are not modelled. Stored filters are always present records.
- The client stores `rowId` inside each saved filter. This is not modelled: the saved list is the conditions' `{ id, value }` part.
- `createColumn` updates views on the client, but `addColumn` on the server does not touch views. The model follows that code, so a view's visibility record does not list a new column until it is toggled.
- `createRow`'s failure branch restores only the shown rows. The cached page keeps the placeholder. The model follows that code.
- The client reads `trpc.row.getRowsOptimised` (`table.tsx`:85), which the routers do not define; `getRowsOptimised` is not part of this model. The paging lemmas are therefore stated for any server that answers each request with the window of one fixed selection. `ServerPagesCoverSelection` is the case where that server is `getRowsFilteredSorted`.
- React state, rendering, toasts, the row virtualizer, scrolling (`fetchMoreOnBottomReached`), the column modal and the search highlight (`isMatch`) are not modelled.
- `setQueriesData` with a key prefix is modelled on one cache: a single infinite query for the grid. The model does not capture that several views' caches are updated alike.
- The placeholder row's replays are applied to the cache after the rename. This follows from a mutation's `onMutate` running after the current callback returns; the model assumes that ordering rather than modelling React Query's scheduler.
- `addBulkRows` re-reads the newest `chunkCount` rows with `findMany` ordered by `created` desc. The model takes those to be the chunk just inserted; that re-read under concurrent inserts is not modelled.
- `table.ts`:54-59 creates a second table after the transaction's `return`. That code is unreachable and is not modelled.
- `viewsModal.tsx`, `tableBody.tsx`, the dashboard and the other components are not part of this model.

## Findings

| source | as written | input that shows it | evidently intended | confidence | as-written member | corrected member |
|---|---|---|---|---|---|---|
| src/app/_components/basesPage/filterModal.tsx:175-186 | a new condition gets `rowId: conditions.length` | conditions numbered 0 and 1; delete 0, then add: both remaining conditions are numbered 1, and changing the operator of "1" changes both | each condition keeps a `rowId` no other condition has | not executed | FilterModal.AddAfterDeleteRepeatsRowId | FilterModal.EditorKeepsRowIdsDistinct |
| src/app/_components/basesPage/filterModal.tsx:58-71 | the NUMBER operator list offers `smaller_than` | a NUMBER condition "< 5" on a cell "9": the server's switch (`row.ts`:136-186) knows only `less_than`, so the row is kept | the "<" choice sends `less_than`, which the server applies | not executed | FilterModal.SmallerThanIgnored | FilterModal.FixedOperatorsKnown |
| src/app/_components/basesPage/table.tsx:515-547 | `pendingUpdates.some(...)` reads the queue captured by the `columns` `useMemo`, whose dependencies are `[localColumns, searchQuery]` (`table.tsx`:570) | create a row, then blur one of its cells with "a" and again with "b": the queue holds both entries for that cell, and both are sent once the row exists | an edit of a queued cell replaces its entry, so each cell has at most one | not executed | TableClient.StaleSnapshotQueuesTwice | TableClient.UpsertLatestWins |

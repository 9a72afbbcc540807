/** The server's tRPC procedures (the routers under src/server/api/routers) over one
    in-memory store: a class whose fields are the database's tables and whose
    methods are the mutations, with the queries as functions of its state.

    Ids the database would generate are passed in by the caller, fresh; the
    creation time stamps are the ticks of a logical clock. A foreign key that
    names no record makes the insertion fail, as the database's constraint
    does, and a transaction that fails leaves nothing of itself behind. */
module Store {
  import opened Model
  import opened Filtering
  import opened Query
  import opened StoreFacts

  /** The error a foreign-key constraint raises. */
  const ForeignKeyViolation: string := "Foreign key constraint violated"
  /** The error Prisma's `update` raises when no record has the given id. */
  const RecordNotFound: string := "Record to update not found."
  /** `updateCell`'s error when no cell has the given row and column. */
  const CellNotFound: string := "Cell not found"
  /** A transaction that did not commit, for reasons outside the model. */
  const TransactionFailed: string := "Transaction failed"

  /** `addBulkRows` inserts `BulkCount` rows in chunks of `ChunkSize`. */
  const BulkCount: nat := 1000
  const ChunkSize: nat := 500
  /** The number of times the chunk loop runs. */
  const ChunkTotal: nat := (BulkCount + ChunkSize - 1) / ChunkSize
  const AddedMessage: string := "Added 1000 rows"

  /** The names `createBase` gives its first table and that table's view. */
  const FirstTableName: string := "Table 1"
  const FirstViewName: string := "Grid View"

  function Min(a: int, b: int): int {
    if a < b then a else b
  }

  /** How many ids the first `k` chunks take between them: each takes
      `CHUNK_SIZE` more, as long as that many remain. */
  function Inserted(k: nat): (n: nat)
    ensures n <= BulkCount
  {
    if k == 0 then 0 else Min(Inserted(k - 1) + ChunkSize, BulkCount)
  }

  /** The ids of chunk `k`: those after the ids the earlier chunks took, at
      most `CHUNK_SIZE` of them (`ChunkAt` shows that this is the loop's
      `Math.min(CHUNK_SIZE, COUNT - offset)` ids from `offset` on). */
  function ChunkIds(ids: seq<Id>, k: nat): (r: seq<Id>)
    requires |ids| == BulkCount && k < ChunkTotal
    ensures |r| <= ChunkSize
  {
    ids[Inserted(k)..Inserted(k + 1)]
  }

  /** The rows the first `k` chunks insert: chunk `j` is stamped `c0 + j`. */
  function BulkRows(ids: seq<Id>, tableId: Id, c0: nat, k: nat): (r: seq<Row>)
    requires |ids| == BulkCount && k <= ChunkTotal
    ensures |r| == Inserted(k)
    ensures forall i :: 0 <= i < |r| ==> r[i].id == ids[i] && r[i].tableId == tableId && c0 <= r[i].created < c0 + k
  {
    if k == 0 then []
    else BulkRows(ids, tableId, c0, k - 1) + NewRows(ChunkIds(ids, k - 1), tableId, c0 + (k - 1))
  }

  /** The cells the first `k` chunks insert: per chunk, one blank cell per row
      for each column in turn. */
  function BulkCells(ids: seq<Id>, cols: seq<Column>, k: nat): (r: seq<Cell>)
    requires |ids| == BulkCount && k <= ChunkTotal
    ensures forall i :: 0 <= i < |r| ==> r[i].rowId in ids[..Inserted(k)] && r[i].columnId in ColumnIds(cols) && r[i].value == ""
  {
    if k == 0 then []
    else
      var prev := BulkCells(ids, cols, k - 1);
      var added := ColumnMajor(ChunkIds(ids, k - 1), cols);
      assert forall x :: x in ids[..Inserted(k - 1)] ==> x in ids[..Inserted(k)];
      assert forall x :: x in ChunkIds(ids, k - 1) ==> x in ids[..Inserted(k)];
      prev + added
  }

  /** One more chunk appends its rows to those of the earlier chunks. */
  lemma BulkRowsStep(ids: seq<Id>, tableId: Id, c0: nat, k: nat)
    requires |ids| == BulkCount && k < ChunkTotal
    ensures BulkRows(ids, tableId, c0, k + 1) == BulkRows(ids, tableId, c0, k) + NewRows(ChunkIds(ids, k), tableId, c0 + k)
  {
  }

  /** One more chunk appends its cells to those of the earlier chunks. */
  lemma BulkCellsStep(ids: seq<Id>, cols: seq<Column>, k: nat)
    requires |ids| == BulkCount && k < ChunkTotal
    ensures BulkCells(ids, cols, k + 1) == BulkCells(ids, cols, k) + ColumnMajor(ChunkIds(ids, k), cols)
  {
  }

  /** The loop's `offset` before chunk `k`: `k * CHUNK_SIZE`, which stays below
      `COUNT` exactly while chunks remain, and grows by `CHUNK_SIZE` a chunk. */
  lemma {:induction false} ChunkOffsets(k: nat)
    requires k <= ChunkTotal
    ensures Inserted(k) == k * ChunkSize
    ensures k < ChunkTotal <==> Inserted(k) < BulkCount
    ensures k < ChunkTotal ==> Inserted(k + 1) == Inserted(k) + ChunkSize
  {
    assert ChunkTotal == 2;
    if k > 0 {
      ChunkOffsets(k - 1);
    }
  }

  /** The loop's chunk `k`, cut from `offset = k * CHUNK_SIZE`, is `ChunkIds(ids, k)`. */
  lemma ChunkAt(ids: seq<Id>, k: nat, offset: nat)
    requires |ids| == BulkCount && k <= ChunkTotal && offset == Inserted(k) && offset < BulkCount
    ensures k < ChunkTotal && offset + Min(ChunkSize, BulkCount - offset) <= |ids|
    ensures ids[offset..offset + Min(ChunkSize, BulkCount - offset)] == ChunkIds(ids, k)
    ensures Inserted(k + 1) == offset + ChunkSize && (k + 1 < ChunkTotal <==> offset + ChunkSize < BulkCount)
  {
    ChunkOffsets(k);
    ChunkOffsets(k + 1);
  }

  /** The chunk loop visits every id: all chunks together insert all
      `BulkCount` rows. */
  lemma ChunksCoverAll()
    ensures Inserted(ChunkTotal) == BulkCount
  {
  }

  lemma {:induction false} BulkCellsCount(ids: seq<Id>, cols: seq<Column>, k: nat, r: Id, c: Id)
    requires |ids| == BulkCount && k <= ChunkTotal
    requires Distinct(ids) && Distinct(ColumnIds(cols))
    ensures CellCount(BulkCells(ids, cols, k), r, c) == if r in ids[..Inserted(k)] && c in ColumnIds(cols) then 1 else 0
  {
    if k > 0 {
      var a, b := Inserted(k - 1), Inserted(k);
      var chunk := ChunkIds(ids, k - 1);
      assert chunk == ids[a..b];
      DistinctSlice(ids, a, b);
      BulkCellsCount(ids, cols, k - 1, r, c);
      ColumnMajorCount(chunk, cols, r, c);
      CellCountAppend(BulkCells(ids, cols, k - 1), ColumnMajor(chunk, cols), r, c);
      DistinctPrefixSplit(ids, a, b, r);
    }
  }

  /** In a sequence without duplicates, the first `b` elements are the first
      `a` followed by those from `a` to `b`, and no element is in both parts. */
  lemma DistinctPrefixSplit<T>(s: seq<T>, a: nat, b: nat, x: T)
    requires Distinct(s) && a <= b <= |s|
    ensures x in s[..b] <==> x in s[..a] || x in s[a..b]
    ensures !(x in s[..a] && x in s[a..b])
  {
    assert s[..b] == s[..a] + s[a..b];
    assert forall p, q :: 0 <= p < a <= q < b ==> s[p] != s[q];
  }

  lemma DistinctSlice<T>(s: seq<T>, a: nat, b: nat)
    requires Distinct(s) && a <= b <= |s|
    ensures Distinct(s[a..b])
  {
    var t := s[a..b];
    forall i, j | 0 <= i < j < |t| ensures t[i] != t[j] {
      assert t[i] == s[a + i] && t[j] == s[a + j];
    }
  }

  /** The number of leading `true`s: the chunks that commit before the first
      one that fails. */
  function LeadingTrue(s: seq<bool>): (n: nat)
    ensures n <= |s|
    ensures forall i :: 0 <= i < n ==> s[i]
    ensures n < |s| ==> !s[n]
  {
    if s == [] || !s[0] then 0 else 1 + LeadingTrue(s[1..])
  }

  /** `n` is the number of leading `true`s when the first `n` are `true` and
      the next one, if any, is not. */
  lemma {:induction false} LeadingTrueAt(s: seq<bool>, n: nat)
    requires n <= |s| && (forall i :: 0 <= i < n ==> s[i]) && (n < |s| ==> !s[n])
    ensures LeadingTrue(s) == n
  {
    if n > 0 {
      assert s[0];
      assert forall i :: 0 <= i < n - 1 ==> s[1..][i] == s[i + 1];
      LeadingTrueAt(s[1..], n - 1);
    }
  }

  /** The chunks of `addBulkRows` that commit, when chunk `j` commits exactly
      if the table exists and `commits[j]` holds. */
  function ChunksCommitted(tableExists: bool, commits: seq<bool>): (n: nat)
    ensures n <= |commits|
    ensures n > 0 ==> tableExists
    ensures tableExists ==> n == LeadingTrue(commits)
    ensures forall i :: 0 <= i < n ==> commits[i]
    ensures tableExists && n < |commits| ==> !commits[n]
  {
    if tableExists then LeadingTrue(commits) else 0
  }

  /** The ids of chunk `k` are distinct and new: neither stored before the
      procedure started nor taken by an earlier chunk. */
  lemma ChunkFresh(rows: seq<Row>, ids: seq<Id>, tableId: Id, c0: nat, k: nat)
    requires |ids| == BulkCount && k < ChunkTotal
    requires Distinct(ids) && forall i :: 0 <= i < |ids| ==> ids[i] !in RowIds(rows)
    ensures Distinct(ChunkIds(ids, k))
    ensures forall i :: 0 <= i < |ChunkIds(ids, k)| ==> ChunkIds(ids, k)[i] !in RowIds(rows + BulkRows(ids, tableId, c0, k))
  {
    var chunk := ChunkIds(ids, k);
    var a := Inserted(k);
    var done := BulkRows(ids, tableId, c0, k);
    RowIdsAppend(rows, done);
    assert RowIds(done) == ids[..a];
    DistinctSlice(ids, a, Inserted(k + 1));
    forall i | 0 <= i < |chunk| ensures chunk[i] !in RowIds(rows + done) {
      assert chunk[i] == ids[a + i];
      DistinctPrefixSplit(ids, a, Inserted(k + 1), chunk[i]);
    }
  }

  /** A committed chunk keeps the invariant: new rows of an existing table,
      and for each of the table's columns in turn one blank cell per new row. */
  lemma AddChunkKeepsInvariant(bases: seq<Base>, tables: seq<Table>, cols: seq<Column>, rows: seq<Row>,
                               cells: seq<Cell>, views: seq<View>, clock: nat, tableId: Id, chunk: seq<Id>)
    requires Invariant(bases, tables, cols, rows, cells, views, clock) && tableId in TableIds(tables)
    requires Distinct(chunk) && forall i :: 0 <= i < |chunk| ==> chunk[i] !in RowIds(rows)
    ensures Invariant(bases, tables, cols, rows + NewRows(chunk, tableId, clock),
                      cells + ColumnMajor(chunk, ColumnsOf(cols, tableId)), views, clock + 1)
  {
    var sel := ColumnsOf(cols, tableId);
    var chunkCells := ColumnMajor(chunk, sel);
    ColumnsOfDistinct(cols, tableId);
    forall r, c ensures CellCount(chunkCells, r, c) == if r in chunk && c in ColumnIds(sel) then 1 else 0 {
      ColumnMajorCount(chunk, sel, r, c);
    }
    forall m | 0 <= m < |chunkCells| ensures chunkCells[m].rowId in chunk && chunkCells[m].columnId in ColumnIds(cols) {
      ColumnsOfIds(cols, tableId, chunkCells[m].columnId);
    }
    AddRowsKeepsInvariant(bases, tables, cols, rows, cells, views, clock, tableId, chunk, chunkCells);
  }

  /** The stored rows once the first `k` chunks have committed. */
  function RowsAfter(rows: seq<Row>, ids: seq<Id>, tableId: Id, c0: nat, k: nat): seq<Row>
    requires |ids| == BulkCount && k <= ChunkTotal
  {
    if k == 0 then rows
    else RowsAfter(rows, ids, tableId, c0, k - 1) + NewRows(ChunkIds(ids, k - 1), tableId, c0 + (k - 1))
  }

  /** The stored cells once the first `k` chunks have committed. */
  function CellsAfter(cells: seq<Cell>, ids: seq<Id>, cols: seq<Column>, k: nat): seq<Cell>
    requires |ids| == BulkCount && k <= ChunkTotal
  {
    if k == 0 then cells
    else CellsAfter(cells, ids, cols, k - 1) + ColumnMajor(ChunkIds(ids, k - 1), cols)
  }

  /** After `k` chunks the store holds its rows followed by the chunks' rows. */
  lemma {:induction false} RowsAfterIs(rows: seq<Row>, ids: seq<Id>, tableId: Id, c0: nat, k: nat)
    requires |ids| == BulkCount && k <= ChunkTotal
    ensures RowsAfter(rows, ids, tableId, c0, k) == rows + BulkRows(ids, tableId, c0, k)
  {
    if k > 0 {
      RowsAfterIs(rows, ids, tableId, c0, k - 1);
      BulkRowsStep(ids, tableId, c0, k - 1);
      var prev, chunk := BulkRows(ids, tableId, c0, k - 1), NewRows(ChunkIds(ids, k - 1), tableId, c0 + (k - 1));
      ConcatAssoc(rows, prev, chunk);
    }
  }

  /** One more chunk appends its rows and its cells to the store's. */
  lemma AfterStep(rows: seq<Row>, cells: seq<Cell>, ids: seq<Id>, tableId: Id, c0: nat, cols: seq<Column>, k: nat)
    requires |ids| == BulkCount && k < ChunkTotal
    ensures RowsAfter(rows, ids, tableId, c0, k + 1) == RowsAfter(rows, ids, tableId, c0, k) + NewRows(ChunkIds(ids, k), tableId, c0 + k)
    ensures CellsAfter(cells, ids, cols, k + 1) == CellsAfter(cells, ids, cols, k) + ColumnMajor(ChunkIds(ids, k), cols)
  {
  }

  /** After `k` chunks the store holds its cells followed by the chunks' cells. */
  lemma {:induction false} CellsAfterIs(cells: seq<Cell>, ids: seq<Id>, cols: seq<Column>, k: nat)
    requires |ids| == BulkCount && k <= ChunkTotal
    ensures CellsAfter(cells, ids, cols, k) == cells + BulkCells(ids, cols, k)
  {
    if k > 0 {
      CellsAfterIs(cells, ids, cols, k - 1);
      BulkCellsStep(ids, cols, k - 1);
      var prev, chunk := BulkCells(ids, cols, k - 1), ColumnMajor(ChunkIds(ids, k - 1), cols);
      ConcatAssoc(cells, prev, chunk);
    }
  }

  /** The invariant holds of any store equal to one it holds of. */
  lemma Transport(bases: seq<Base>, tables: seq<Table>, cols: seq<Column>, rows: seq<Row>, cells: seq<Cell>,
                  views: seq<View>, clock: nat, rows': seq<Row>, cells': seq<Cell>, clock': nat)
    requires Invariant(bases, tables, cols, rows, cells, views, clock)
    requires rows == rows' && cells == cells' && clock == clock'
    ensures Invariant(bases, tables, cols, rows', cells', views, clock')
  {
  }

  /** However many chunks commit, the store stays valid. */
  lemma {:induction false} BulkKeepsInvariant(bases: seq<Base>, tables: seq<Table>, cols: seq<Column>, rows: seq<Row>,
                                            cells: seq<Cell>, views: seq<View>, clock: nat,
                                            tableId: Id, ids: seq<Id>, k: nat)
    requires Invariant(bases, tables, cols, rows, cells, views, clock)
    requires k > 0 ==> tableId in TableIds(tables)
    requires |ids| == BulkCount && Distinct(ids) && forall i :: 0 <= i < |ids| ==> ids[i] !in RowIds(rows)
    requires k <= ChunkTotal
    ensures Invariant(bases, tables, cols, RowsAfter(rows, ids, tableId, clock, k),
                      CellsAfter(cells, ids, ColumnsOf(cols, tableId), k), views, clock + k)
  {
    if k > 0 {
      BulkKeepsInvariant(bases, tables, cols, rows, cells, views, clock, tableId, ids, k - 1);
      ChunkKeepsInvariant(bases, tables, cols, rows, cells, views, clock, tableId, ids, k - 1, k);
    } else {
      Transport(bases, tables, cols, rows, cells, views, clock,
                RowsAfter(rows, ids, tableId, clock, k), CellsAfter(cells, ids, ColumnsOf(cols, tableId), k), clock + k);
    }
  }

  /** Chunk `j` of the procedure keeps the invariant of the store it finds,
      which then holds the first `k = j + 1` chunks. */
  lemma ChunkKeepsInvariant(bases: seq<Base>, tables: seq<Table>, cols: seq<Column>, rows: seq<Row>,
                            cells: seq<Cell>, views: seq<View>, clock: nat, tableId: Id, ids: seq<Id>, j: nat, k: nat)
    requires |ids| == BulkCount && k == j + 1 <= ChunkTotal && tableId in TableIds(tables)
    requires Invariant(bases, tables, cols, RowsAfter(rows, ids, tableId, clock, j),
                       CellsAfter(cells, ids, ColumnsOf(cols, tableId), j), views, clock + j)
    requires Distinct(ids) && forall i :: 0 <= i < |ids| ==> ids[i] !in RowIds(rows)
    ensures Invariant(bases, tables, cols, RowsAfter(rows, ids, tableId, clock, k),
                      CellsAfter(cells, ids, ColumnsOf(cols, tableId), k), views, clock + k)
  {
    var sel := ColumnsOf(cols, tableId);
    var chunk := ChunkIds(ids, j);
    ChunkFresh(rows, ids, tableId, clock, j);
    RowsAfterIs(rows, ids, tableId, clock, j);
    AddChunkKeepsInvariant(bases, tables, cols, RowsAfter(rows, ids, tableId, clock, j),
                           CellsAfter(cells, ids, sel, j), views, clock + j, tableId, chunk);
    AfterStep(rows, cells, ids, tableId, clock, sel, j);
    Transport(bases, tables, cols, RowsAfter(rows, ids, tableId, clock, j) + NewRows(chunk, tableId, clock + j),
              CellsAfter(cells, ids, sel, j) + ColumnMajor(chunk, sel), views, clock + j + 1,
              RowsAfter(rows, ids, tableId, clock, k), CellsAfter(cells, ids, sel, k), clock + k);
  }

  // ---- the invariant behind a seal ----

  /** The store invariant behind `n` recursive layers. The verifier unfolds a
      recursive predicate one layer at a time, so a procedure that only
      carries `Sealed` along does not see the invariant's quantifiers; the
      lemmas below open the seal, apply one of the invariant lemmas of
      `StoreFacts` and close it again. */
  ghost predicate Sealed(n: nat, bases: seq<Base>, tables: seq<Table>, cols: seq<Column>, rows: seq<Row>,
                         cells: seq<Cell>, views: seq<View>, clock: nat)
  {
    if n == 0 then Invariant(bases, tables, cols, rows, cells, views, clock)
    else Sealed(n - 1, bases, tables, cols, rows, cells, views, clock)
  }

  lemma {:induction false} Seal(n: nat, bases: seq<Base>, tables: seq<Table>, cols: seq<Column>, rows: seq<Row>,
                                cells: seq<Cell>, views: seq<View>, clock: nat)
    requires Invariant(bases, tables, cols, rows, cells, views, clock)
    ensures Sealed(n, bases, tables, cols, rows, cells, views, clock)
  {
    if n > 0 {
      Seal(n - 1, bases, tables, cols, rows, cells, views, clock);
    }
  }

  lemma {:induction false} Unseal(n: nat, bases: seq<Base>, tables: seq<Table>, cols: seq<Column>, rows: seq<Row>,
                                  cells: seq<Cell>, views: seq<View>, clock: nat)
    requires Sealed(n, bases, tables, cols, rows, cells, views, clock)
    ensures Invariant(bases, tables, cols, rows, cells, views, clock)
  {
    if n > 0 {
      Unseal(n - 1, bases, tables, cols, rows, cells, views, clock);
    }
  }

  lemma SealedAddBase(n: nat, bases: seq<Base>, tables: seq<Table>, cols: seq<Column>, rows: seq<Row>,
      cells: seq<Cell>, views: seq<View>, clock: nat, base: Base)
    requires Sealed(n, bases, tables, cols, rows, cells, views, clock) && base.id !in BaseIds(bases)
    ensures Sealed(n, bases + [base], tables, cols, rows, cells, views, clock)
  {
    Unseal(n, bases, tables, cols, rows, cells, views, clock);
    AddBaseKeepsInvariant(bases, tables, cols, rows, cells, views, clock, base);
    Seal(n, bases + [base], tables, cols, rows, cells, views, clock);
  }

  lemma SealedCreateTable(n: nat, bases: seq<Base>, tables: seq<Table>, cols: seq<Column>, rows: seq<Row>,
      cells: seq<Cell>, views: seq<View>, clock: nat, table: Table, colIds: seq<Id>, rowIds: seq<Id>)
    requires Sealed(n, bases, tables, cols, rows, cells, views, clock)
    requires table.id !in TableIds(tables) && table.baseId in BaseIds(bases)
    requires |colIds| == |DefaultColumnNames| && Distinct(colIds) && forall i :: 0 <= i < |colIds| ==> colIds[i] !in ColumnIds(cols)
    requires Distinct(rowIds) && forall i :: 0 <= i < |rowIds| ==> rowIds[i] !in RowIds(rows)
    ensures Sealed(n, bases, tables + [table], cols + SeedColumns(colIds, table.id, clock),
                   rows + NewRows(rowIds, table.id, clock + |colIds|),
                   cells + Grid(rowIds, SeedColumns(colIds, table.id, clock)), views, clock + |colIds| + 1)
  {
    Unseal(n, bases, tables, cols, rows, cells, views, clock);
    CreateTableKeepsInvariant(bases, tables, cols, rows, cells, views, clock, table, colIds, rowIds);
    Seal(n, bases, tables + [table], cols + SeedColumns(colIds, table.id, clock),
         rows + NewRows(rowIds, table.id, clock + |colIds|),
         cells + Grid(rowIds, SeedColumns(colIds, table.id, clock)), views, clock + |colIds| + 1);
  }

  lemma SealedCreateBase(n: nat, bases: seq<Base>, tables: seq<Table>, cols: seq<Column>, rows: seq<Row>,
      cells: seq<Cell>, views: seq<View>, clock: nat,
      base: Base, table: Table, view: View, colIds: seq<Id>, rowIds: seq<Id>)
    requires Sealed(n, bases, tables, cols, rows, cells, views, clock)
    requires base.id !in BaseIds(bases) && table.id !in TableIds(tables) && table.baseId == base.id
    requires view.id !in ViewIds(views) && view.tableId == table.id && view.created == clock
    requires |colIds| == |DefaultColumnNames| && Distinct(colIds) && forall i :: 0 <= i < |colIds| ==> colIds[i] !in ColumnIds(cols)
    requires Distinct(rowIds) && forall i :: 0 <= i < |rowIds| ==> rowIds[i] !in RowIds(rows)
    ensures Sealed(n, bases + [base], tables + [table], cols + SeedColumns(colIds, table.id, clock + 1),
                   rows + NewRows(rowIds, table.id, clock + 1 + |colIds|),
                   cells + Grid(rowIds, SeedColumns(colIds, table.id, clock + 1)), views + [view], clock + 1 + |colIds| + 1)
  {
    Unseal(n, bases, tables, cols, rows, cells, views, clock);
    CreateBaseKeepsInvariant(bases, tables, cols, rows, cells, views, clock, base, table, view, colIds, rowIds);
    Seal(n, bases + [base], tables + [table], cols + SeedColumns(colIds, table.id, clock + 1),
         rows + NewRows(rowIds, table.id, clock + 1 + |colIds|),
         cells + Grid(rowIds, SeedColumns(colIds, table.id, clock + 1)), views + [view], clock + 1 + |colIds| + 1);
  }

  lemma SealedAddView(n: nat, bases: seq<Base>, tables: seq<Table>, cols: seq<Column>, rows: seq<Row>,
      cells: seq<Cell>, views: seq<View>, clock: nat, view: View)
    requires Sealed(n, bases, tables, cols, rows, cells, views, clock)
    requires view.id !in ViewIds(views) && view.tableId in TableIds(tables) && view.created == clock
    ensures Sealed(n, bases, tables, cols, rows, cells, views + [view], clock + 1)
  {
    Unseal(n, bases, tables, cols, rows, cells, views, clock);
    AddViewKeepsInvariant(bases, tables, cols, rows, cells, views, clock, view);
    Seal(n, bases, tables, cols, rows, cells, views + [view], clock + 1);
  }

  lemma SealedReplaceView(n: nat, bases: seq<Base>, tables: seq<Table>, cols: seq<Column>, rows: seq<Row>,
      cells: seq<Cell>, views: seq<View>, clock: nat, k: nat, view: View)
    requires Sealed(n, bases, tables, cols, rows, cells, views, clock)
    requires k < |views| && view.id == views[k].id && view.tableId == views[k].tableId && view.created == views[k].created
    ensures Sealed(n, bases, tables, cols, rows, cells, views[k := view], clock)
  {
    Unseal(n, bases, tables, cols, rows, cells, views, clock);
    ReplaceViewKeepsInvariant(bases, tables, cols, rows, cells, views, clock, k, view);
    Seal(n, bases, tables, cols, rows, cells, views[k := view], clock);
  }

  lemma SealedAddBlankRow(n: nat, bases: seq<Base>, tables: seq<Table>, cols: seq<Column>, rows: seq<Row>,
      cells: seq<Cell>, views: seq<View>, clock: nat, t: Id, newId: Id)
    requires Sealed(n, bases, tables, cols, rows, cells, views, clock)
    requires t in TableIds(tables) && newId !in RowIds(rows)
    ensures Sealed(n, bases, tables, cols, rows + [Row(newId, t, clock)],
                   cells + BlankRowCells(newId, ColumnsOf(cols, t)), views, clock + 1)
    ensures CellsOfRow(cells + BlankRowCells(newId, ColumnsOf(cols, t)), newId) == BlankRowCells(newId, ColumnsOf(cols, t))
  {
    Unseal(n, bases, tables, cols, rows, cells, views, clock);
    AddBlankRowKeepsInvariant(bases, tables, cols, rows, cells, views, clock, t, newId);
    Seal(n, bases, tables, cols, rows + [Row(newId, t, clock)],
         cells + BlankRowCells(newId, ColumnsOf(cols, t)), views, clock + 1);
  }

  lemma SealedAddBlankColumn(n: nat, bases: seq<Base>, tables: seq<Table>, cols: seq<Column>, rows: seq<Row>,
      cells: seq<Cell>, views: seq<View>, clock: nat, col: Column)
    requires Sealed(n, bases, tables, cols, rows, cells, views, clock)
    requires col.tableId in TableIds(tables) && col.id !in ColumnIds(cols) && col.created == clock
    ensures Sealed(n, bases, tables, cols + [col], rows, cells + Grid(RowIds(RowsOf(rows, col.tableId)), [col]), views, clock + 1)
  {
    Unseal(n, bases, tables, cols, rows, cells, views, clock);
    AddBlankColumnKeepsInvariant(bases, tables, cols, rows, cells, views, clock, col);
    Seal(n, bases, tables, cols + [col], rows, cells + Grid(RowIds(RowsOf(rows, col.tableId)), [col]), views, clock + 1);
  }

  lemma SealedSetValue(n: nat, bases: seq<Base>, tables: seq<Table>, cols: seq<Column>, rows: seq<Row>,
      cells: seq<Cell>, views: seq<View>, clock: nat, rowId: Id, columnId: Id, value: string)
    requires Sealed(n, bases, tables, cols, rows, cells, views, clock)
    ensures Sealed(n, bases, tables, cols, rows, SetValue(cells, rowId, columnId, value), views, clock)
  {
    Unseal(n, bases, tables, cols, rows, cells, views, clock);
    SetValueKeepsInvariant(bases, tables, cols, rows, cells, views, clock, rowId, columnId, value);
    Seal(n, bases, tables, cols, rows, SetValue(cells, rowId, columnId, value), views, clock);
  }

  lemma SealedBulk(n: nat, bases: seq<Base>, tables: seq<Table>, cols: seq<Column>, rows: seq<Row>,
      cells: seq<Cell>, views: seq<View>, clock: nat, tableId: Id, ids: seq<Id>, k: nat)
    requires Sealed(n, bases, tables, cols, rows, cells, views, clock)
    requires k > 0 ==> tableId in TableIds(tables)
    requires |ids| == BulkCount && Distinct(ids) && forall i :: 0 <= i < |ids| ==> ids[i] !in RowIds(rows)
    requires k <= ChunkTotal
    ensures Sealed(n, bases, tables, cols, RowsAfter(rows, ids, tableId, clock, k),
                   CellsAfter(cells, ids, ColumnsOf(cols, tableId), k), views, clock + k)
  {
    Unseal(n, bases, tables, cols, rows, cells, views, clock);
    BulkKeepsInvariant(bases, tables, cols, rows, cells, views, clock, tableId, ids, k);
    Seal(n, bases, tables, cols, RowsAfter(rows, ids, tableId, clock, k),
         CellsAfter(cells, ids, ColumnsOf(cols, tableId), k), views, clock + k);
  }

  /** `rows.findMany({ include: { cells: true } })`: each row with its cells. */
  function Attach(rs: seq<Row>, cells: seq<Cell>): (r: seq<RowWithCells>)
    ensures |r| == |rs|
    ensures forall i :: 0 <= i < |rs| ==>
      r[i] == RowWithCells(rs[i].id, rs[i].tableId, rs[i].created, CellsOfRow(cells, rs[i].id))
  {
    if rs == [] then []
    else [RowWithCells(rs[0].id, rs[0].tableId, rs[0].created, CellsOfRow(cells, rs[0].id))] + Attach(rs[1..], cells)
  }

  /** The `columnVisibility` record `createView` builds with `reduce`: every
      column of `cols` visible, and nothing else. */
  method AllVisible(cols: seq<Column>) returns (m: map<Id, bool>)
    ensures forall id :: id in m <==> id in ColumnIds(cols)
    ensures forall id :: id in m ==> m[id]
  {
    m := map[];
    for i := 0 to |cols|
      invariant forall id :: id in m <==> id in ColumnIds(cols[..i])
      invariant forall id :: id in m ==> m[id]
    {
      assert cols[..i + 1] == cols[..i] + [cols[i]];
      ColumnIdsAppend(cols[..i], [cols[i]]);
      m := m[cols[i].id := true];
    }
    assert cols[..|cols|] == cols;
  }

  /** The inner loop of a chunk's transaction: for each column in turn, one
      empty cell per row of the chunk. */
  method CellsForChunk(chunkIds: seq<Id>, cols: seq<Column>) returns (chunkCells: seq<Cell>)
    ensures chunkCells == ColumnMajor(chunkIds, cols)
  {
    chunkCells := [];
    for j := 0 to |cols|
      invariant chunkCells == ColumnMajor(chunkIds, cols[..j])
    {
      assert cols[..j + 1][..j] == cols[..j];
      chunkCells := chunkCells + Grid(chunkIds, [cols[j]]);
    }
    assert cols[..|cols|] == cols;
  }

  /** The chunk loop of `addBulkRows` over the stored `rows` and `cells`:
      chunk after chunk, while the table exists (`found`) and the chunk's
      transaction commits, its rows, stamped `clock` plus the chunk's
      number, and their blank cells for the table's columns `cols` are
      appended; the first chunk that fails ends the loop. */
  method InsertChunks(rows: seq<Row>, cells: seq<Cell>, clock: nat, cols: seq<Column>, found: bool,
                      tableId: Id, ids: seq<Id>, commits: seq<bool>)
    returns (k: nat, rs: seq<Row>, cs: seq<Cell>)
    requires |ids| == BulkCount && |commits| == ChunkTotal
    ensures k == ChunksCommitted(found, commits)
    ensures rs == RowsAfter(rows, ids, tableId, clock, k) && cs == CellsAfter(cells, ids, cols, k)
  {
    rs, cs := rows, cells;
    var offset := 0;
    k := 0;
    while offset < BulkCount && found && commits[k]
      invariant k <= ChunkTotal && offset == Inserted(k) && (k < ChunkTotal <==> offset < BulkCount)
      invariant k > 0 ==> found
      invariant forall j :: 0 <= j < k ==> commits[j]
      invariant rs == RowsAfter(rows, ids, tableId, clock, k) && cs == CellsAfter(cells, ids, cols, k)
      decreases ChunkTotal - k
    {
      var chunkCount := Min(ChunkSize, BulkCount - offset);
      ChunkAt(ids, k, offset);
      var chunkIds := ids[offset..offset + chunkCount];
      var chunkCells := CellsForChunk(chunkIds, cols);
      AfterStep(rows, cells, ids, tableId, clock, cols, k);
      assert forall j :: 0 <= j < k + 1 ==> commits[j] by {
        forall j | 0 <= j < k + 1 ensures commits[j] {
          if j == k { assert commits[k]; }
        }
      }
      rs := rs + NewRows(chunkIds, tableId, clock + k);
      cs := cs + chunkCells;
      offset := offset + ChunkSize;
      k := k + 1;
    }
    if found {
      LeadingTrueAt(commits, k);
    }
  }

  class Database {
    var bases: seq<Base>
    var tables: seq<Table>
    var columns: seq<Column>
    var rows: seq<Row>
    var cells: seq<Cell>
    var views: seq<View>
    /** The next creation time stamp. */
    var clock: nat
    /** How many layers seal the invariant in `Valid`. */
    ghost const depth: nat

    ghost predicate Valid()
      reads this
    {
      depth > 0 && Sealed(depth, bases, tables, columns, rows, cells, views, clock)
    }

    constructor ()
      ensures Valid()
      ensures bases == [] && tables == [] && columns == [] && rows == [] && cells == [] && views == []
    {
      bases, tables, columns, rows, cells, views := [], [], [], [], [], [];
      clock := 0;
      depth := 1;
      new;
      Seal(1, [], [], [], [], [], [], 0);
    }

    // ---- queries ----

    /** `getColumns`: the table's columns, oldest first. */
    function GetColumns(tableId: Id): (r: seq<Column>)
      reads this
      ensures forall c :: c in r <==> c in columns && c.tableId == tableId
      ensures Valid() ==> ColumnsAscending(r) && Distinct(ColumnIds(r))
    {
      var r := ColumnsOf(columns, tableId);
      assert Valid() ==> ColumnsAscending(r) && Distinct(ColumnIds(r)) by {
        if Valid() {
          Unseal(depth, bases, tables, columns, rows, cells, views, clock);
          ColumnsOfAscending(columns, tableId);
          ColumnsOfDistinct(columns, tableId);
        }
      }
      r
    }

    /** `getViewsByTable`: the table's views, oldest first. */
    function GetViewsByTable(tableId: Id): (r: seq<View>)
      reads this
      ensures forall v :: v in r <==> v in views && v.tableId == tableId
      ensures Valid() ==> ViewsAscending(r)
    {
      var r := ViewsOf(views, tableId);
      assert Valid() ==> ViewsAscending(r) by {
        if Valid() {
          Unseal(depth, bases, tables, columns, rows, cells, views, clock);
          ViewsOfAscending(views, tableId);
        }
      }
      r
    }

    /** `getTablesByBase`. */
    function GetTablesByBase(baseId: Id): (r: seq<Table>)
      reads this
      ensures forall t :: t in r <==> t in tables && t.baseId == baseId
    {
      TablesOf(tables, baseId)
    }

    /** `getBases`: the signed-in user's bases. */
    function GetBases(userId: Id): (r: seq<Base>)
      reads this
      ensures forall b :: b in r <==> b in bases && b.userId == userId
    {
      BasesOf(bases, userId)
    }

    /** `getBase`: the base, if it exists and belongs to the user. */
    function GetBase(baseId: Id, userId: Id): (r: Option<Base>)
      reads this
      ensures r.Some? <==> exists b :: b in bases && b.id == baseId && b.userId == userId
      ensures r.Some? ==> r.value in bases && r.value.id == baseId && r.value.userId == userId
    {
      FindOwnedBase(bases, baseId, userId)
    }

    /** `getRows`: the table's rows, each with the cells stored for it. */
    function GetRows(tableId: Id): (r: seq<RowWithCells>)
      reads this
      ensures forall x :: x in r ==> x.tableId == tableId && (forall c :: c in x.cells <==> c in cells && c.rowId == x.id)
      ensures |r| == |RowsOf(rows, tableId)| && forall i :: 0 <= i < |r| ==> r[i].id == RowsOf(rows, tableId)[i].id
    {
      var rs := RowsOf(rows, tableId);
      var r := Attach(rs, cells);
      assert forall i :: 0 <= i < |rs| ==> rs[i] in rs;
      r
    }

    /** In a valid store every fetched row has exactly one cell for each
        column of its table. */
    lemma FetchedRowsComplete(tableId: Id, x: RowWithCells, col: Column)
      requires Valid() && x in GetRows(tableId) && col in GetColumns(tableId)
      ensures CellCount(x.cells, x.id, col.id) == 1
    {
      Unseal(depth, bases, tables, columns, rows, cells, views, clock);
      var rs := RowsOf(rows, tableId);
      var i :| 0 <= i < |GetRows(tableId)| && GetRows(tableId)[i] == x;
      assert rs[i] in rs;
      var p :| 0 <= p < |rows| && rows[p] == rs[i];
      var q :| 0 <= q < |columns| && columns[q] == col;
      CellsOfRowCount(cells, x.id, x.id, col.id);
    }

    /** `getRowsFilteredSorted`: the view is looked up by id alone (it is not
        checked to belong to `tableId`); a missing view gives an empty page
        with a count of zero. */
    function GetRowsFilteredSorted(tableId: Id, viewId: Id, start: int, size: int): (p: Page)
      reads this
      ensures viewId !in ViewIds(views) ==> p == Page([], 0)
      ensures viewId in ViewIds(views) ==>
        var v := FindView(views, viewId).value;
        && v in views && v.id == viewId
        && p.totalRowCount == |KeepPassing(GetRows(tableId), v.columnFilters)|
        && (forall x :: x in p.data ==> x in GetRows(tableId) && RowPasses(x.cells, v.columnFilters))
      ensures 0 <= start && 0 <= size ==> |p.data| <= size
    {
      FilteredSortedPage(FindView(views, viewId), GetRows(tableId), start, size)
    }

    // ---- rows, columns and cells ----

    /** `addRow`: a new row with one empty cell for each column of its table,
        returned with its cells. */
    method AddRow(tableId: Id, newId: Id) returns (res: Result<RowWithCells>)
      requires Valid() && newId !in RowIds(rows)
      modifies this
      ensures Valid()
      ensures bases == old(bases) && tables == old(tables) && columns == old(columns) && views == old(views)
      ensures tableId !in TableIds(old(tables)) ==>
        res == Err(ForeignKeyViolation) && rows == old(rows) && cells == old(cells) && clock == old(clock)
      ensures tableId in TableIds(old(tables)) ==>
        var blank := BlankRowCells(newId, ColumnsOf(old(columns), tableId));
        && rows == old(rows) + [Row(newId, tableId, old(clock))]
        && cells == old(cells) + blank
        && clock == old(clock) + 1
        && res == Ok(RowWithCells(newId, tableId, old(clock), blank))
    {
      if tableId !in TableIds(tables) {
        return Err(ForeignKeyViolation);
      }
      var created := clock;
      rows, cells, clock := rows + [Row(newId, tableId, clock)], cells + BlankRowCells(newId, ColumnsOf(columns, tableId)), clock + 1;
      SealedAddBlankRow(depth, old(bases), old(tables), old(columns), old(rows), old(cells), old(views), old(clock), tableId, newId);
      res := Ok(RowWithCells(newId, tableId, created, CellsOfRow(cells, newId)));
    }

    /** `addBulkRows`: `BulkCount` rows in chunks of `ChunkSize`, each chunk its
        own transaction that inserts the chunk's rows and then, column by
        column, one empty cell per new row. Chunk `j` commits when the table
        exists and `commits[j]` holds; the first chunk that fails ends the
        procedure with an error and leaves the earlier chunks in place. For an
        unknown table the first chunk's row insert breaks the foreign key. */
    method AddBulkRows(tableId: Id, ids: seq<Id>, commits: seq<bool>) returns (res: Result<string>)
      requires Valid()
      requires |ids| == BulkCount && Distinct(ids) && forall i :: 0 <= i < |ids| ==> ids[i] !in RowIds(rows)
      requires |commits| == ChunkTotal
      modifies this
      ensures Valid()
      ensures bases == old(bases) && tables == old(tables) && columns == old(columns) && views == old(views)
      ensures var k := ChunksCommitted(tableId in TableIds(old(tables)), commits);
        && rows == old(rows) + BulkRows(ids, tableId, old(clock), k)
        && cells == old(cells) + BulkCells(ids, ColumnsOf(old(columns), tableId), k)
        && clock == old(clock) + k
        && (k == ChunkTotal ==> res == Ok(AddedMessage))
        && (k < ChunkTotal ==> res == Err(if tableId in TableIds(old(tables)) then TransactionFailed else ForeignKeyViolation))
    {
      var k, rs, cs := InsertChunks(rows, cells, clock, ColumnsOf(columns, tableId), tableId in TableIds(tables),
                                    tableId, ids, commits);
      rows, cells, clock := rs, cs, clock + k;
      SealedBulk(depth, old(bases), old(tables), old(columns), old(rows), old(cells), old(views), old(clock), tableId, ids, k);
      RowsAfterIs(old(rows), ids, tableId, old(clock), k);
      CellsAfterIs(old(cells), ids, ColumnsOf(columns, tableId), k);
      if k == ChunkTotal {
        res := Ok(AddedMessage);
      } else if tableId in TableIds(tables) {
        res := Err(TransactionFailed);
      } else {
        res := Err(ForeignKeyViolation);
      }
    }

    /** `updateCell`: `updateMany` sets the value of every cell of the row and
        column; none matched is the error "Cell not found", otherwise the cell
        read back carries the new value. */
    method UpdateCell(rowId: Id, columnId: Id, value: string) returns (res: Result<Cell>)
      requires Valid()
      modifies this
      ensures Valid()
      ensures bases == old(bases) && tables == old(tables) && columns == old(columns)
      ensures rows == old(rows) && views == old(views) && clock == old(clock)
      ensures CellCount(old(cells), rowId, columnId) == 0 ==> res == Err(CellNotFound) && cells == old(cells)
      ensures CellCount(old(cells), rowId, columnId) > 0 ==>
        res == Ok(Cell(rowId, columnId, value)) && cells == SetValue(old(cells), rowId, columnId, value)
    {
      var count := CellCount(cells, rowId, columnId);
      if count == 0 {
        return Err(CellNotFound);
      }
      cells := SetValue(cells, rowId, columnId, value);
      SealedSetValue(depth, old(bases), old(tables), old(columns), old(rows), old(cells), old(views), old(clock), rowId, columnId, value);
      var updated := FirstCellOf(cells, rowId, columnId);
      SetValueThenFind(old(cells), rowId, columnId, value);
      res := Ok(updated.value);
    }

    /** `addColumn`: a new column with one empty cell for each row of its
        table. No view is touched, so views with a visibility record do not
        list the new column. */
    method AddColumn(tableId: Id, name: string, columnType: ColumnType, newId: Id) returns (res: Result<Column>)
      requires Valid() && newId !in ColumnIds(columns)
      modifies this
      ensures Valid()
      ensures bases == old(bases) && tables == old(tables) && rows == old(rows) && views == old(views)
      ensures tableId !in TableIds(old(tables)) ==>
        res == Err(ForeignKeyViolation) && columns == old(columns) && cells == old(cells) && clock == old(clock)
      ensures tableId in TableIds(old(tables)) ==>
        var col := Column(newId, name, columnType, tableId, old(clock));
        && columns == old(columns) + [col]
        && cells == old(cells) + Grid(RowIds(RowsOf(old(rows), tableId)), [col])
        && clock == old(clock) + 1
        && res == Ok(col)
    {
      if tableId !in TableIds(tables) {
        return Err(ForeignKeyViolation);
      }
      var col := Column(newId, name, columnType, tableId, clock);
      columns, cells, clock := columns + [col], cells + Grid(RowIds(RowsOf(rows, col.tableId)), [col]), clock + 1;
      SealedAddBlankColumn(depth, old(bases), old(tables), old(columns), old(rows), old(cells), old(views), old(clock), col);
      res := Ok(col);
    }

    // ---- views ----

    /** `createView`: every column of the table visible, no sorting, no filters. */
    method CreateView(tableId: Id, name: string, newId: Id) returns (res: Result<View>)
      requires Valid() && newId !in ViewIds(views)
      modifies this
      ensures Valid()
      ensures bases == old(bases) && tables == old(tables) && columns == old(columns)
      ensures rows == old(rows) && cells == old(cells)
      ensures tableId !in TableIds(old(tables)) ==> res == Err(ForeignKeyViolation) && views == old(views) && clock == old(clock)
      ensures tableId in TableIds(old(tables)) ==>
        && res.Ok? && views == old(views) + [res.value] && clock == old(clock) + 1
        && res.value.id == newId && res.value.name == name && res.value.tableId == tableId
        && res.value.created == old(clock)
        && res.value.sortingState == [] && res.value.columnFilters == []
        && (forall id :: id in res.value.columnVisibility <==> id in ColumnIds(ColumnsOf(old(columns), tableId)))
        && (forall id :: id in res.value.columnVisibility ==> res.value.columnVisibility[id])
    {
      var visibility := AllVisible(ColumnsOf(columns, tableId));
      if tableId !in TableIds(tables) {
        return Err(ForeignKeyViolation);
      }
      var view := View(newId, name, tableId, visibility, [], [], clock);
      views, clock := views + [view], clock + 1;
      SealedAddView(depth, old(bases), old(tables), old(columns), old(rows), old(cells), old(views), old(clock), view);
      res := Ok(view);
    }

    /** `updateColumnVisibility`: replaces the whole record of the view. */
    method UpdateColumnVisibility(viewId: Id, columnVisibility: map<Id, bool>) returns (res: Result<View>)
      requires Valid()
      modifies this
      ensures Valid()
      ensures bases == old(bases) && tables == old(tables) && columns == old(columns)
      ensures rows == old(rows) && cells == old(cells) && clock == old(clock)
      ensures viewId !in ViewIds(old(views)) ==> res == Err(RecordNotFound) && views == old(views)
      ensures viewId in ViewIds(old(views)) ==>
        var k := ViewIndex(old(views), viewId);
        && views == old(views)[k := old(views)[k].(columnVisibility := columnVisibility)]
        && res == Ok(views[k])
    {
      var k := ViewIndex(views, viewId);
      if k == |views| {
        return Err(RecordNotFound);
      }
      var view := views[k].(columnVisibility := columnVisibility);
      views := views[k := view];
      SealedReplaceView(depth, old(bases), old(tables), old(columns), old(rows), old(cells), old(views), old(clock), k, view);
      res := Ok(view);
    }

    /** `updateSortingState`: replaces the view's sort keys. */
    method UpdateSortingState(viewId: Id, sortingState: seq<SortEntry>) returns (res: Result<View>)
      requires Valid()
      modifies this
      ensures Valid()
      ensures bases == old(bases) && tables == old(tables) && columns == old(columns)
      ensures rows == old(rows) && cells == old(cells) && clock == old(clock)
      ensures viewId !in ViewIds(old(views)) ==> res == Err(RecordNotFound) && views == old(views)
      ensures viewId in ViewIds(old(views)) ==>
        var k := ViewIndex(old(views), viewId);
        && views == old(views)[k := old(views)[k].(sortingState := sortingState)]
        && res == Ok(views[k])
    {
      var k := ViewIndex(views, viewId);
      if k == |views| {
        return Err(RecordNotFound);
      }
      var view := views[k].(sortingState := sortingState);
      views := views[k := view];
      SealedReplaceView(depth, old(bases), old(tables), old(columns), old(rows), old(cells), old(views), old(clock), k, view);
      res := Ok(view);
    }

    /** `updateColumnFilters`: replaces the view's filters. */
    method UpdateColumnFilters(viewId: Id, columnFilters: seq<ColumnFilter>) returns (res: Result<View>)
      requires Valid()
      modifies this
      ensures Valid()
      ensures bases == old(bases) && tables == old(tables) && columns == old(columns)
      ensures rows == old(rows) && cells == old(cells) && clock == old(clock)
      ensures viewId !in ViewIds(old(views)) ==> res == Err(RecordNotFound) && views == old(views)
      ensures viewId in ViewIds(old(views)) ==>
        var k := ViewIndex(old(views), viewId);
        && views == old(views)[k := old(views)[k].(columnFilters := columnFilters)]
        && res == Ok(views[k])
    {
      var k := ViewIndex(views, viewId);
      if k == |views| {
        return Err(RecordNotFound);
      }
      var view := views[k].(columnFilters := columnFilters);
      views := views[k := view];
      SealedReplaceView(depth, old(bases), old(tables), old(columns), old(rows), old(cells), old(views), old(clock), k, view);
      res := Ok(view);
    }

    // ---- tables and bases ----

    /** `createTable`: the table with its default columns, rows and cells, in
        one transaction; it creates no view. */
    method CreateTable(baseId: Id, name: string, tableId: Id, colIds: seq<Id>, rowIds: seq<Id>) returns (res: Result<Table>)
      requires Valid() && tableId !in TableIds(tables)
      requires |colIds| == |DefaultColumnNames| && Distinct(colIds) && forall i :: 0 <= i < |colIds| ==> colIds[i] !in ColumnIds(columns)
      requires |rowIds| == SeedRowCount && Distinct(rowIds) && forall i :: 0 <= i < |rowIds| ==> rowIds[i] !in RowIds(rows)
      modifies this
      ensures Valid()
      ensures bases == old(bases) && views == old(views)
      ensures baseId !in BaseIds(old(bases)) ==>
        && res == Err(ForeignKeyViolation) && tables == old(tables) && columns == old(columns)
        && rows == old(rows) && cells == old(cells) && clock == old(clock)
      ensures baseId in BaseIds(old(bases)) ==>
        var seeded := SeedColumns(colIds, tableId, old(clock));
        && res == Ok(Table(tableId, name, baseId))
        && tables == old(tables) + [Table(tableId, name, baseId)]
        && columns == old(columns) + seeded
        && rows == old(rows) + NewRows(rowIds, tableId, old(clock) + |colIds|)
        && cells == old(cells) + Grid(rowIds, seeded)
        && clock == old(clock) + |colIds| + 1
    {
      if baseId !in BaseIds(bases) {
        return Err(ForeignKeyViolation);
      }
      var table := Table(tableId, name, baseId);
      var seeded := SeedColumns(colIds, table.id, clock);
      tables, columns, rows, cells, clock :=
        tables + [table], columns + seeded, rows + NewRows(rowIds, table.id, clock + |colIds|),
        cells + Grid(rowIds, seeded), clock + |colIds| + 1;
      SealedCreateTable(depth, old(bases), old(tables), old(columns), old(rows), old(cells), old(views), old(clock),
                        table, colIds, rowIds);
      res := Ok(table);
    }

    /** `createBase`: the base is created first, on its own; then one
        transaction creates "Table 1", its "Grid View" with an empty
        visibility record, and the table's default columns, rows and cells.
        When that transaction fails (`seedCommits` false) the error is
        reported but the base stays, without any table. */
    method CreateBase(name: string, userId: Id, baseId: Id, tableId: Id, viewId: Id,
                      colIds: seq<Id>, rowIds: seq<Id>, seedCommits: bool) returns (res: Result<Base>)
      requires Valid() && baseId !in BaseIds(bases) && tableId !in TableIds(tables) && viewId !in ViewIds(views)
      requires |colIds| == |DefaultColumnNames| && Distinct(colIds) && forall i :: 0 <= i < |colIds| ==> colIds[i] !in ColumnIds(columns)
      requires |rowIds| == SeedRowCount && Distinct(rowIds) && forall i :: 0 <= i < |rowIds| ==> rowIds[i] !in RowIds(rows)
      modifies this
      ensures Valid()
      ensures bases == old(bases) + [Base(baseId, name, userId)]
      ensures !seedCommits ==>
        && res == Err(TransactionFailed) && tables == old(tables) && columns == old(columns)
        && rows == old(rows) && cells == old(cells) && views == old(views) && clock == old(clock)
      ensures seedCommits ==>
        var seeded := SeedColumns(colIds, tableId, old(clock) + 1);
        && res == Ok(Base(baseId, name, userId))
        && tables == old(tables) + [Table(tableId, FirstTableName, baseId)]
        && views == old(views) + [View(viewId, FirstViewName, tableId, map[], [], [], old(clock))]
        && columns == old(columns) + seeded
        && rows == old(rows) + NewRows(rowIds, tableId, old(clock) + 1 + |colIds|)
        && cells == old(cells) + Grid(rowIds, seeded)
        && clock == old(clock) + |colIds| + 2
    {
      var base := Base(baseId, name, userId);
      if !seedCommits {
        bases := bases + [base];
        SealedAddBase(depth, old(bases), old(tables), old(columns), old(rows), old(cells), old(views), old(clock), base);
        return Err(TransactionFailed);
      }
      var table := Table(tableId, FirstTableName, baseId);
      var view := View(viewId, FirstViewName, tableId, map[], [], [], clock);
      var seeded := SeedColumns(colIds, table.id, clock + 1);
      bases, tables, views, columns, rows, cells, clock :=
        bases + [base], tables + [table], views + [view], columns + seeded,
        rows + NewRows(rowIds, table.id, clock + 1 + |colIds|), cells + Grid(rowIds, seeded), clock + 1 + |colIds| + 1;
      SealedCreateBase(depth, old(bases), old(tables), old(columns), old(rows), old(cells), old(views), old(clock), base, table, view, colIds, rowIds);
      res := Ok(base);
    }
  }
}

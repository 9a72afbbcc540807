/** The value-level facts about the store's tables that the procedures in
    `Store` rely on: the per-kind id lists, the per-parent selections the
    queries make, and the store invariant with the lemmas showing that each
    kind of insertion keeps it. */
module StoreFacts {
  import opened Model

  function BaseIds(bases: seq<Base>): (r: seq<Id>)
    ensures |r| == |bases| && forall i :: 0 <= i < |bases| ==> r[i] == bases[i].id
  {
    if bases == [] then [] else [bases[0].id] + BaseIds(bases[1..])
  }

  function TableIds(tables: seq<Table>): (r: seq<Id>)
    ensures |r| == |tables| && forall i :: 0 <= i < |tables| ==> r[i] == tables[i].id
  {
    if tables == [] then [] else [tables[0].id] + TableIds(tables[1..])
  }

  function RowIds(rows: seq<Row>): (r: seq<Id>)
    ensures |r| == |rows| && forall i :: 0 <= i < |rows| ==> r[i] == rows[i].id
  {
    if rows == [] then [] else [rows[0].id] + RowIds(rows[1..])
  }

  function ViewIds(views: seq<View>): (r: seq<Id>)
    ensures |r| == |views| && forall i :: 0 <= i < |views| ==> r[i] == views[i].id
  {
    if views == [] then [] else [views[0].id] + ViewIds(views[1..])
  }

  lemma BaseIdsAppend(a: seq<Base>, b: seq<Base>)
    ensures BaseIds(a + b) == BaseIds(a) + BaseIds(b)
  {
    assert forall i :: 0 <= i < |a + b| ==> BaseIds(a + b)[i] == (BaseIds(a) + BaseIds(b))[i];
  }

  lemma TableIdsAppend(a: seq<Table>, b: seq<Table>)
    ensures TableIds(a + b) == TableIds(a) + TableIds(b)
  {
    assert forall i :: 0 <= i < |a + b| ==> TableIds(a + b)[i] == (TableIds(a) + TableIds(b))[i];
  }

  lemma RowIdsAppend(a: seq<Row>, b: seq<Row>)
    ensures RowIds(a + b) == RowIds(a) + RowIds(b)
  {
    assert forall i :: 0 <= i < |a + b| ==> RowIds(a + b)[i] == (RowIds(a) + RowIds(b))[i];
  }

  lemma ViewIdsAppend(a: seq<View>, b: seq<View>)
    ensures ViewIds(a + b) == ViewIds(a) + ViewIds(b)
  {
    assert forall i :: 0 <= i < |a + b| ==> ViewIds(a + b)[i] == (ViewIds(a) + ViewIds(b))[i];
  }

  /** The rows one `createMany` inserts for a table, all stamped `created`. */
  function NewRows(ids: seq<Id>, tableId: Id, created: nat): (r: seq<Row>)
    ensures |r| == |ids| && forall i :: 0 <= i < |ids| ==> r[i] == Row(ids[i], tableId, created)
  {
    if ids == [] then [] else [Row(ids[0], tableId, created)] + NewRows(ids[1..], tableId, created)
  }

  lemma NewRowIds(ids: seq<Id>, tableId: Id, created: nat)
    ensures RowIds(NewRows(ids, tableId, created)) == ids
  {
  }

  /** `column.findMany({ where: { tableId } })`, in store order. */
  function ColumnsOf(cols: seq<Column>, tableId: Id): (r: seq<Column>)
    ensures forall c :: c in r <==> c in cols && c.tableId == tableId
  {
    if cols == [] then []
    else (if cols[0].tableId == tableId then [cols[0]] else []) + ColumnsOf(cols[1..], tableId)
  }

  function RowsOf(rows: seq<Row>, tableId: Id): (r: seq<Row>)
    ensures forall x :: x in r <==> x in rows && x.tableId == tableId
  {
    if rows == [] then []
    else (if rows[0].tableId == tableId then [rows[0]] else []) + RowsOf(rows[1..], tableId)
  }

  function ViewsOf(views: seq<View>, tableId: Id): (r: seq<View>)
    ensures forall v :: v in r <==> v in views && v.tableId == tableId
  {
    if views == [] then []
    else (if views[0].tableId == tableId then [views[0]] else []) + ViewsOf(views[1..], tableId)
  }

  function TablesOf(tables: seq<Table>, baseId: Id): (r: seq<Table>)
    ensures forall t :: t in r <==> t in tables && t.baseId == baseId
  {
    if tables == [] then []
    else (if tables[0].baseId == baseId then [tables[0]] else []) + TablesOf(tables[1..], baseId)
  }

  function BasesOf(bases: seq<Base>, userId: Id): (r: seq<Base>)
    ensures forall b :: b in r <==> b in bases && b.userId == userId
  {
    if bases == [] then []
    else (if bases[0].userId == userId then [bases[0]] else []) + BasesOf(bases[1..], userId)
  }

  /** The cells attached to a row by `include: { cells: true }`. */
  function CellsOfRow(cells: seq<Cell>, rowId: Id): (r: seq<Cell>)
    ensures forall c :: c in r <==> c in cells && c.rowId == rowId
  {
    if cells == [] then []
    else (if cells[0].rowId == rowId then [cells[0]] else []) + CellsOfRow(cells[1..], rowId)
  }

  lemma {:induction false} CellsOfRowAppend(a: seq<Cell>, b: seq<Cell>, rowId: Id)
    ensures CellsOfRow(a + b, rowId) == CellsOfRow(a, rowId) + CellsOfRow(b, rowId)
  {
    if a == [] {
      assert a + b == b;
    } else {
      assert (a + b)[1..] == a[1..] + b;
      CellsOfRowAppend(a[1..], b, rowId);
    }
  }

  lemma {:induction false} CellsOfRowAll(cells: seq<Cell>, rowId: Id)
    requires forall k :: 0 <= k < |cells| ==> cells[k].rowId == rowId
    ensures CellsOfRow(cells, rowId) == cells
  {
    if cells != [] {
      CellsOfRowAll(cells[1..], rowId);
      assert [cells[0]] + cells[1..] == cells;
    }
  }

  lemma {:induction false} CellsOfRowNone(cells: seq<Cell>, rowId: Id)
    requires forall k :: 0 <= k < |cells| ==> cells[k].rowId != rowId
    ensures CellsOfRow(cells, rowId) == []
  {
    if cells != [] {
      CellsOfRowNone(cells[1..], rowId);
    }
  }

  /** A row's attached cells hold exactly the store's cells for that row. */
  lemma {:induction false} CellsOfRowCount(cells: seq<Cell>, rowId: Id, r: Id, c: Id)
    ensures CellCount(CellsOfRow(cells, rowId), r, c) == if r == rowId then CellCount(cells, r, c) else 0
  {
    if cells != [] {
      CellsOfRowCount(cells[1..], rowId, r, c);
      var head := if cells[0].rowId == rowId then [cells[0]] else [];
      CellCountAppend(head, CellsOfRow(cells[1..], rowId), r, c);
    }
  }

  /** Selecting by table keeps distinct column ids distinct. */
  lemma {:induction false} ColumnsOfDistinct(cols: seq<Column>, tableId: Id)
    requires Distinct(ColumnIds(cols))
    ensures Distinct(ColumnIds(ColumnsOf(cols, tableId)))
  {
    if cols != [] {
      var rest := cols[1..];
      assert ColumnIds(cols) == [cols[0].id] + ColumnIds(rest);
      DistinctCons(cols[0].id, ColumnIds(rest));
      ColumnsOfDistinct(rest, tableId);
      if cols[0].tableId == tableId {
        var sel := ColumnsOf(rest, tableId);
        assert ColumnsOf(cols, tableId) == [cols[0]] + sel;
        assert ColumnIds([cols[0]] + sel) == [cols[0].id] + ColumnIds(sel);
        forall k | 0 <= k < |sel| ensures ColumnIds(sel)[k] != cols[0].id {
          assert sel[k] in rest;
          var m :| 0 <= m < |rest| && rest[m] == sel[k];
          assert ColumnIds(rest)[m] == sel[k].id;
        }
        DistinctCons(cols[0].id, ColumnIds(sel));
      }
    }
  }

  lemma {:induction false} RowsOfDistinct(rows: seq<Row>, tableId: Id)
    requires Distinct(RowIds(rows))
    ensures Distinct(RowIds(RowsOf(rows, tableId)))
  {
    if rows != [] {
      var rest := rows[1..];
      assert RowIds(rows) == [rows[0].id] + RowIds(rest);
      DistinctCons(rows[0].id, RowIds(rest));
      RowsOfDistinct(rest, tableId);
      if rows[0].tableId == tableId {
        var sel := RowsOf(rest, tableId);
        assert RowsOf(rows, tableId) == [rows[0]] + sel;
        assert RowIds([rows[0]] + sel) == [rows[0].id] + RowIds(sel);
        forall k | 0 <= k < |sel| ensures RowIds(sel)[k] != rows[0].id {
          assert sel[k] in rest;
          var m :| 0 <= m < |rest| && rest[m] == sel[k];
          assert RowIds(rest)[m] == sel[k].id;
        }
        DistinctCons(rows[0].id, RowIds(sel));
      }
    }
  }

  /** Columns in strictly increasing `created` order. */
  ghost predicate ColumnsAscending(cols: seq<Column>) {
    forall i, j :: 0 <= i < j < |cols| ==> cols[i].created < cols[j].created
  }

  ghost predicate ViewsAscending(views: seq<View>) {
    forall i, j :: 0 <= i < j < |views| ==> views[i].created < views[j].created
  }

  /** Selecting by table keeps creation order, so the store-order selection
      is the `orderBy: { created: "asc" }` answer. */
  lemma {:induction false} ColumnsOfAscending(xs: seq<Column>, tableId: Id)
    requires ColumnsAscending(xs)
    ensures ColumnsAscending(ColumnsOf(xs, tableId))
  {
    if xs != [] {
      ColumnsAscendingTail(xs);
      ColumnsOfAscending(xs[1..], tableId);
      if xs[0].tableId == tableId {
        ColumnsAscendingCons(xs[0], ColumnsOf(xs[1..], tableId));
      }
    }
  }

  /** The tail of an ascending list is ascending and stamped after its head. */
  lemma ColumnsAscendingTail(xs: seq<Column>)
    requires xs != [] && ColumnsAscending(xs)
    ensures ColumnsAscending(xs[1..])
    ensures forall x :: x in xs[1..] ==> xs[0].created < x.created
  {
    var rest := xs[1..];
    forall i, j | 0 <= i < j < |rest| ensures rest[i].created < rest[j].created {
      assert rest[i] == xs[i + 1] && rest[j] == xs[j + 1];
    }
    forall x | x in rest ensures xs[0].created < x.created {
      var m :| 0 <= m < |rest| && rest[m] == x;
      assert xs[m + 1] == x;
    }
  }

  lemma ColumnsAscendingCons(x: Column, xs: seq<Column>)
    requires ColumnsAscending(xs) && forall y :: y in xs ==> x.created < y.created
    ensures ColumnsAscending([x] + xs)
  {
    var r := [x] + xs;
    forall i, j | 0 <= i < j < |r| ensures r[i].created < r[j].created {
      assert r[j] == xs[j - 1] && xs[j - 1] in xs;
      if i > 0 {
        assert r[i] == xs[i - 1];
      }
    }
  }

  lemma {:induction false} ViewsOfAscending(xs: seq<View>, tableId: Id)
    requires ViewsAscending(xs)
    ensures ViewsAscending(ViewsOf(xs, tableId))
  {
    if xs != [] {
      ViewsAscendingTail(xs);
      ViewsOfAscending(xs[1..], tableId);
      if xs[0].tableId == tableId {
        ViewsAscendingCons(xs[0], ViewsOf(xs[1..], tableId));
      }
    }
  }

  lemma ViewsAscendingTail(xs: seq<View>)
    requires xs != [] && ViewsAscending(xs)
    ensures ViewsAscending(xs[1..])
    ensures forall x :: x in xs[1..] ==> xs[0].created < x.created
  {
    var rest := xs[1..];
    forall i, j | 0 <= i < j < |rest| ensures rest[i].created < rest[j].created {
      assert rest[i] == xs[i + 1] && rest[j] == xs[j + 1];
    }
    forall x | x in rest ensures xs[0].created < x.created {
      var m :| 0 <= m < |rest| && rest[m] == x;
      assert xs[m + 1] == x;
    }
  }

  lemma ViewsAscendingCons(x: View, xs: seq<View>)
    requires ViewsAscending(xs) && forall y :: y in xs ==> x.created < y.created
    ensures ViewsAscending([x] + xs)
  {
    var r := [x] + xs;
    forall i, j | 0 <= i < j < |r| ensures r[i].created < r[j].created {
      assert r[j] == xs[j - 1] && xs[j - 1] in xs;
      if i > 0 {
        assert r[i] == xs[i - 1];
      }
    }
  }

  /** Every cell belongs to a stored row and a stored column. */
  ghost predicate Referenced(rows: seq<Row>, cols: seq<Column>, cells: seq<Cell>) {
    forall k :: 0 <= k < |cells| ==> cells[k].rowId in RowIds(rows) && cells[k].columnId in ColumnIds(cols)
  }

  /** The EAV invariant: a row has exactly one cell for every column of its table. */
  ghost predicate Complete(rows: seq<Row>, cols: seq<Column>, cells: seq<Cell>) {
    forall i, j {:trigger CellCount(cells, rows[i].id, cols[j].id)} :: 0 <= i < |rows| && 0 <= j < |cols| && rows[i].tableId == cols[j].tableId ==>
      CellCount(cells, rows[i].id, cols[j].id) == 1
  }

  ghost predicate IdsDistinct(bases: seq<Base>, tables: seq<Table>, cols: seq<Column>, rows: seq<Row>, views: seq<View>) {
    Distinct(BaseIds(bases)) && Distinct(TableIds(tables)) && Distinct(ColumnIds(cols))
    && Distinct(RowIds(rows)) && Distinct(ViewIds(views))
  }

  /** Every record's parent exists: tables in bases, the rest in tables. */
  ghost predicate ParentsExist(bases: seq<Base>, tables: seq<Table>, cols: seq<Column>, rows: seq<Row>, views: seq<View>) {
    && (forall i :: 0 <= i < |tables| ==> tables[i].baseId in BaseIds(bases))
    && (forall i :: 0 <= i < |cols| ==> cols[i].tableId in TableIds(tables))
    && (forall i :: 0 <= i < |rows| ==> rows[i].tableId in TableIds(tables))
    && (forall i :: 0 <= i < |views| ==> views[i].tableId in TableIds(tables))
  }

  /** Columns and views are stored in creation order, stamped before `clock`. */
  ghost predicate Chronological(cols: seq<Column>, views: seq<View>, clock: nat) {
    && ColumnsAscending(cols) && (forall i :: 0 <= i < |cols| ==> cols[i].created < clock)
    && ViewsAscending(views) && (forall i :: 0 <= i < |views| ==> views[i].created < clock)
  }

  ghost predicate Invariant(bases: seq<Base>, tables: seq<Table>, cols: seq<Column>, rows: seq<Row>,
                            cells: seq<Cell>, views: seq<View>, clock: nat) {
    && IdsDistinct(bases, tables, cols, rows, views)
    && ParentsExist(bases, tables, cols, rows, views)
    && Chronological(cols, views, clock)
    && Referenced(rows, cols, cells)
    && Complete(rows, cols, cells)
  }

  /** A pair no stored cell is about has no cells. */
  lemma FreshRowHasNoCells(rows: seq<Row>, cols: seq<Column>, cells: seq<Cell>, r: Id, c: Id)
    requires Referenced(rows, cols, cells) && r !in RowIds(rows)
    ensures CellCount(cells, r, c) == 0
  {
    CellCountAbsent(cells, r, c);
  }

  lemma FreshColumnHasNoCells(rows: seq<Row>, cols: seq<Column>, cells: seq<Cell>, r: Id, c: Id)
    requires Referenced(rows, cols, cells) && c !in ColumnIds(cols)
    ensures CellCount(cells, r, c) == 0
  {
    CellCountAbsent(cells, r, c);
  }

  /** Adding rows of table `t` with cells for exactly (new row, column of `t`)
      keeps every row complete. */
  lemma {:induction false} CompleteAddRows(rows: seq<Row>, cols: seq<Column>, cells: seq<Cell>,
                        newRows: seq<Row>, newCells: seq<Cell>, t: Id)
    requires Complete(rows, cols, cells) && Referenced(rows, cols, cells)
    requires forall i :: 0 <= i < |newRows| ==> newRows[i].tableId == t && newRows[i].id !in RowIds(rows)
    requires forall r, c :: CellCount(newCells, r, c) ==
               if r in RowIds(newRows) && c in ColumnIds(ColumnsOf(cols, t)) then 1 else 0
    ensures Complete(rows + newRows, cols, cells + newCells)
  {
    var all := rows + newRows;
    forall i, j | 0 <= i < |all| && 0 <= j < |cols| && all[i].tableId == cols[j].tableId
      ensures CellCount(cells + newCells, all[i].id, cols[j].id) == 1
    {
      CellCountAppend(cells, newCells, all[i].id, cols[j].id);
      if i < |rows| {
        assert all[i] == rows[i];
        assert RowIds(rows)[i] == rows[i].id;
        assert forall m :: 0 <= m < |newRows| ==> RowIds(newRows)[m] != rows[i].id;
      } else {
        var m := i - |rows|;
        assert all[i] == newRows[m];
        FreshRowHasNoCells(rows, cols, cells, newRows[m].id, cols[j].id);
        assert RowIds(newRows)[m] == newRows[m].id;
        var sel := ColumnsOf(cols, t);
        assert cols[j] in sel;
        var p :| 0 <= p < |sel| && sel[p] == cols[j];
        assert ColumnIds(sel)[p] == cols[j].id;
      }
    }
  }

  /** Adding a column with cells for exactly (row of its table, new column)
      keeps every row complete. */
  lemma {:induction false} CompleteAddColumn(rows: seq<Row>, cols: seq<Column>, cells: seq<Cell>, col: Column, newCells: seq<Cell>)
    requires Complete(rows, cols, cells) && Referenced(rows, cols, cells)
    requires col.id !in ColumnIds(cols)
    requires forall r, c :: CellCount(newCells, r, c) ==
               if c == col.id && r in RowIds(RowsOf(rows, col.tableId)) then 1 else 0
    ensures Complete(rows, cols + [col], cells + newCells)
  {
    var all := cols + [col];
    forall i, j | 0 <= i < |rows| && 0 <= j < |all| && rows[i].tableId == all[j].tableId
      ensures CellCount(cells + newCells, rows[i].id, all[j].id) == 1
    {
      CellCountAppend(cells, newCells, rows[i].id, all[j].id);
      if j < |cols| {
        assert all[j] == cols[j];
        assert ColumnIds(cols)[j] == cols[j].id;
      } else {
        assert all[j] == col;
        FreshColumnHasNoCells(rows, cols, cells, rows[i].id, col.id);
        var sel := RowsOf(rows, col.tableId);
        assert rows[i] in sel;
        var p :| 0 <= p < |sel| && sel[p] == rows[i];
        assert RowIds(sel)[p] == rows[i].id;
      }
    }
  }

  /** A new table's columns, rows and the grid of their cells keep every row
      complete: the old rows and columns belong to other tables. */
  lemma {:induction false} CompleteSeed(rows: seq<Row>, cols: seq<Column>, cells: seq<Cell>,
                     newCols: seq<Column>, newRows: seq<Row>, newCells: seq<Cell>, t: Id)
    requires Complete(rows, cols, cells) && Referenced(rows, cols, cells)
    requires forall i :: 0 <= i < |rows| ==> rows[i].tableId != t
    requires forall j :: 0 <= j < |cols| ==> cols[j].tableId != t
    requires forall i :: 0 <= i < |newRows| ==> newRows[i].tableId == t && newRows[i].id !in RowIds(rows)
    requires forall j :: 0 <= j < |newCols| ==> newCols[j].tableId == t && newCols[j].id !in ColumnIds(cols)
    requires forall r, c :: CellCount(newCells, r, c) ==
               if r in RowIds(newRows) && c in ColumnIds(newCols) then 1 else 0
    ensures Complete(rows + newRows, cols + newCols, cells + newCells)
  {
    var allR := rows + newRows;
    var allC := cols + newCols;
    forall i, j | 0 <= i < |allR| && 0 <= j < |allC| && allR[i].tableId == allC[j].tableId
      ensures CellCount(cells + newCells, allR[i].id, allC[j].id) == 1
    {
      CellCountAppend(cells, newCells, allR[i].id, allC[j].id);
      if i < |rows| {
        assert allR[i] == rows[i];
        assert forall n :: |cols| <= n < |allC| ==> allC[n].tableId == t;
        assert allC[j] == cols[j];
        assert ColumnIds(cols)[j] == cols[j].id;
        assert forall m :: 0 <= m < |newCols| ==> ColumnIds(newCols)[m] != cols[j].id;
      } else {
        var m := i - |rows|;
        assert allR[i] == newRows[m];
        assert forall n :: 0 <= n < |cols| ==> allC[n].tableId != t;
        var n := j - |cols|;
        assert allC[j] == newCols[n];
        FreshRowHasNoCells(rows, cols, cells, newRows[m].id, newCols[n].id);
        assert RowIds(newRows)[m] == newRows[m].id;
        assert ColumnIds(newCols)[n] == newCols[n].id;
      }
    }
  }

  /** Sets the value of every cell of the pair (rowId, columnId): `updateMany`. */
  function SetValue(cells: seq<Cell>, rowId: Id, columnId: Id, value: string): (r: seq<Cell>)
    ensures |r| == |cells|
    ensures forall k :: 0 <= k < |cells| ==>
      r[k] == if cells[k].rowId == rowId && cells[k].columnId == columnId then cells[k].(value := value) else cells[k]
  {
    if cells == [] then []
    else
      var c := cells[0];
      [if c.rowId == rowId && c.columnId == columnId then c.(value := value) else c]
        + SetValue(cells[1..], rowId, columnId, value)
  }

  /** Writing values never adds or removes a cell of any pair. */
  lemma {:induction false} SetValueKeepsCounts(cells: seq<Cell>, rowId: Id, columnId: Id, value: string, r: Id, c: Id)
    ensures CellCount(SetValue(cells, rowId, columnId, value), r, c) == CellCount(cells, r, c)
  {
    if cells != [] {
      SetValueKeepsCounts(cells[1..], rowId, columnId, value, r, c);
      assert SetValue(cells, rowId, columnId, value)[1..] == SetValue(cells[1..], rowId, columnId, value);
    }
  }

  /** `cell.findFirst({ where: { rowId, columnId } })`. */
  function FirstCellOf(cells: seq<Cell>, rowId: Id, columnId: Id): (r: Option<Cell>)
    ensures r.Some? <==> CellCount(cells, rowId, columnId) > 0
    ensures r.Some? ==> r.value in cells && r.value.rowId == rowId && r.value.columnId == columnId
  {
    if cells == [] then None
    else if cells[0].rowId == rowId && cells[0].columnId == columnId then Some(cells[0])
    else FirstCellOf(cells[1..], rowId, columnId)
  }

  /** After the write, the pair's first cell carries the written value. */
  lemma {:induction false} SetValueThenFind(cells: seq<Cell>, rowId: Id, columnId: Id, value: string)
    requires CellCount(cells, rowId, columnId) > 0
    ensures FirstCellOf(SetValue(cells, rowId, columnId, value), rowId, columnId) == Some(Cell(rowId, columnId, value))
  {
    var s := SetValue(cells, rowId, columnId, value);
    assert s[1..] == SetValue(cells[1..], rowId, columnId, value);
    if !(cells[0].rowId == rowId && cells[0].columnId == columnId) {
      SetValueThenFind(cells[1..], rowId, columnId, value);
    }
  }

  /** The position of the view with id `viewId`, or `|views|`. */
  function ViewIndex(views: seq<View>, viewId: Id): (k: nat)
    ensures k <= |views|
    ensures k < |views| ==> views[k].id == viewId
    ensures k == |views| <==> viewId !in ViewIds(views)
  {
    if views == [] then 0
    else if views[0].id == viewId then 0
    else
      assert ViewIds(views) == [views[0].id] + ViewIds(views[1..]);
      1 + ViewIndex(views[1..], viewId)
  }

  /** `view.findUnique({ where: { id } })`. */
  function FindView(views: seq<View>, viewId: Id): (r: Option<View>)
    ensures r.Some? <==> viewId in ViewIds(views)
    ensures r.Some? ==> r.value in views && r.value.id == viewId
  {
    var k := ViewIndex(views, viewId);
    if k < |views| then Some(views[k]) else None
  }

  /** `base.findFirst({ where: { id, userId } })`. */
  function FindOwnedBase(bases: seq<Base>, baseId: Id, userId: Id): (r: Option<Base>)
    ensures r.Some? <==> exists b :: b in bases && b.id == baseId && b.userId == userId
    ensures r.Some? ==> r.value in bases && r.value.id == baseId && r.value.userId == userId
  {
    if bases == [] then None
    else if bases[0].id == baseId && bases[0].userId == userId then Some(bases[0])
    else
      var r := FindOwnedBase(bases[1..], baseId, userId);
      assert forall b :: b in bases && b != bases[0] ==> b in bases[1..];
      r
  }

  /** The columns every new table is seeded with. */
  const DefaultColumnNames: seq<string> := ["Name", "Notes", "Assignee", "Status"]

  /** The number of empty rows every new table is seeded with. */
  const SeedRowCount: nat := 3

  /** The seeded columns, all TEXT, created one after another from `created`. */
  function SeedColumns(ids: seq<Id>, tableId: Id, created: nat): (r: seq<Column>)
    requires |ids| == |DefaultColumnNames|
    ensures |r| == |ids|
    ensures forall i :: 0 <= i < |ids| ==> r[i] == Column(ids[i], DefaultColumnNames[i], TEXT, tableId, created + i)
  {
    SeedFrom(ids, DefaultColumnNames, tableId, created)
  }

  function SeedFrom(ids: seq<Id>, names: seq<string>, tableId: Id, created: nat): (r: seq<Column>)
    requires |ids| == |names|
    ensures |r| == |ids|
    ensures forall i :: 0 <= i < |ids| ==> r[i] == Column(ids[i], names[i], TEXT, tableId, created + i)
  {
    if ids == [] then [] else [Column(ids[0], names[0], TEXT, tableId, created)] + SeedFrom(ids[1..], names[1..], tableId, created + 1)
  }

  lemma SeedColumnIds(ids: seq<Id>, tableId: Id, created: nat)
    requires |ids| == |DefaultColumnNames|
    ensures ColumnIds(SeedColumns(ids, tableId, created)) == ids
  {
  }

  lemma {:induction false} AddBaseKeepsInvariant(bases: seq<Base>, tables: seq<Table>, cols: seq<Column>, rows: seq<Row>,
                                               cells: seq<Cell>, views: seq<View>, clock: nat, base: Base)
    requires Invariant(bases, tables, cols, rows, cells, views, clock)
    requires base.id !in BaseIds(bases)
    ensures Invariant(bases + [base], tables, cols, rows, cells, views, clock)
  {
    BaseIdsAppend(bases, [base]);
    DistinctAppend(BaseIds(bases), [base.id]);
  }

  lemma {:induction false} AddViewKeepsInvariant(bases: seq<Base>, tables: seq<Table>, cols: seq<Column>, rows: seq<Row>,
                                               cells: seq<Cell>, views: seq<View>, clock: nat, view: View)
    requires Invariant(bases, tables, cols, rows, cells, views, clock)
    requires view.id !in ViewIds(views) && view.tableId in TableIds(tables) && view.created == clock
    ensures Invariant(bases, tables, cols, rows, cells, views + [view], clock + 1)
  {
    ViewIdsAppend(views, [view]);
    DistinctAppend(ViewIds(views), [view.id]);
    var vs := views + [view];
    assert forall i :: 0 <= i < |views| ==> vs[i] == views[i];
  }

  /** Replacing a view by one with the same id, table and stamp keeps the invariant. */
  lemma {:induction false} ReplaceViewKeepsInvariant(bases: seq<Base>, tables: seq<Table>, cols: seq<Column>, rows: seq<Row>,
                                                   cells: seq<Cell>, views: seq<View>, clock: nat, k: nat, view: View)
    requires Invariant(bases, tables, cols, rows, cells, views, clock)
    requires k < |views| && view.id == views[k].id && view.tableId == views[k].tableId && view.created == views[k].created
    ensures Invariant(bases, tables, cols, rows, cells, views[k := view], clock)
  {
    assert ViewIds(views[k := view]) == ViewIds(views);
  }

  lemma {:induction false} AddRowsKeepsInvariant(bases: seq<Base>, tables: seq<Table>, cols: seq<Column>, rows: seq<Row>,
                                               cells: seq<Cell>, views: seq<View>, clock: nat,
                                               t: Id, ids: seq<Id>, newCells: seq<Cell>)
    requires Invariant(bases, tables, cols, rows, cells, views, clock)
    requires t in TableIds(tables)
    requires Distinct(ids) && forall i :: 0 <= i < |ids| ==> ids[i] !in RowIds(rows)
    requires forall r, c :: CellCount(newCells, r, c) == if r in ids && c in ColumnIds(ColumnsOf(cols, t)) then 1 else 0
    requires forall k :: 0 <= k < |newCells| ==> newCells[k].rowId in ids && newCells[k].columnId in ColumnIds(cols)
    ensures Invariant(bases, tables, cols, rows + NewRows(ids, t, clock), cells + newCells, views, clock + 1)
  {
    var nr := NewRows(ids, t, clock);
    NewRowIds(ids, t, clock);
    RowIdsAppend(rows, nr);
    assert forall x :: x in RowIds(rows) ==> x !in ids;
    DistinctAppend(RowIds(rows), ids);
    var all := rows + nr;
    assert forall i :: 0 <= i < |all| ==> all[i].tableId in TableIds(tables) by {
      forall i | 0 <= i < |all| ensures all[i].tableId in TableIds(tables) {
        if i < |rows| { assert all[i] == rows[i]; } else { assert all[i] == nr[i - |rows|]; }
      }
    }
    CompleteAddRows(rows, cols, cells, nr, newCells, t);
    var cs := cells + newCells;
    forall k | 0 <= k < |cs| ensures cs[k].rowId in RowIds(all) && cs[k].columnId in ColumnIds(cols) {
      if k < |cells| { assert cs[k] == cells[k]; } else { assert cs[k] == newCells[k - |cells|]; }
    }
  }

  lemma {:induction false} AddColumnKeepsInvariant(bases: seq<Base>, tables: seq<Table>, cols: seq<Column>, rows: seq<Row>,
                                                 cells: seq<Cell>, views: seq<View>, clock: nat,
                                                 col: Column, newCells: seq<Cell>)
    requires Invariant(bases, tables, cols, rows, cells, views, clock)
    requires col.tableId in TableIds(tables) && col.id !in ColumnIds(cols) && col.created == clock
    requires forall r, c :: CellCount(newCells, r, c) == if c == col.id && r in RowIds(RowsOf(rows, col.tableId)) then 1 else 0
    requires forall k :: 0 <= k < |newCells| ==> newCells[k].rowId in RowIds(rows) && newCells[k].columnId == col.id
    ensures Invariant(bases, tables, cols + [col], rows, cells + newCells, views, clock + 1)
  {
    ColumnIdsAppend(cols, [col]);
    DistinctAppend(ColumnIds(cols), [col.id]);
    var all := cols + [col];
    assert forall i :: 0 <= i < |cols| ==> all[i] == cols[i];
    CompleteAddColumn(rows, cols, cells, col, newCells);
    var cs := cells + newCells;
    forall k | 0 <= k < |cs| ensures cs[k].rowId in RowIds(rows) && cs[k].columnId in ColumnIds(all) {
      if k < |cells| { assert cs[k] == cells[k]; } else { assert cs[k] == newCells[k - |cells|]; }
    }
  }

  /** One new row of an existing table, with a blank cell for each of the
      table's columns, keeps the invariant; the cells stored for the row are
      exactly those blank cells. */
  lemma {:induction false} AddBlankRowKeepsInvariant(bases: seq<Base>, tables: seq<Table>, cols: seq<Column>, rows: seq<Row>,
                                                   cells: seq<Cell>, views: seq<View>, clock: nat, t: Id, newId: Id)
    requires Invariant(bases, tables, cols, rows, cells, views, clock)
    requires t in TableIds(tables) && newId !in RowIds(rows)
    ensures Invariant(bases, tables, cols, rows + [Row(newId, t, clock)],
                      cells + BlankRowCells(newId, ColumnsOf(cols, t)), views, clock + 1)
    ensures CellsOfRow(cells + BlankRowCells(newId, ColumnsOf(cols, t)), newId) == BlankRowCells(newId, ColumnsOf(cols, t))
  {
    var sel := ColumnsOf(cols, t);
    var newCells := BlankRowCells(newId, sel);
    ColumnsOfDistinct(cols, t);
    forall r, c ensures CellCount(newCells, r, c) == if r in [newId] && c in ColumnIds(sel) then 1 else 0 {
      BlankRowCellsCount(newId, sel, r, c);
    }
    forall k | 0 <= k < |newCells| ensures newCells[k].rowId in [newId] && newCells[k].columnId in ColumnIds(cols) {
      assert ColumnIds(sel)[k] == newCells[k].columnId;
      ColumnsOfIds(cols, t, newCells[k].columnId);
    }
    AddRowsKeepsInvariant(bases, tables, cols, rows, cells, views, clock, t, [newId], newCells);
    assert NewRows([newId], t, clock) == [Row(newId, t, clock)];
    assert forall k :: 0 <= k < |cells| ==> cells[k].rowId != newId;
    CellsOfRowNone(cells, newId);
    CellsOfRowAll(newCells, newId);
    CellsOfRowAppend(cells, newCells, newId);
  }

  /** One new column of an existing table, with a blank cell for each of the
      table's rows, keeps the invariant. */
  lemma {:induction false} AddBlankColumnKeepsInvariant(bases: seq<Base>, tables: seq<Table>, cols: seq<Column>, rows: seq<Row>,
                                                      cells: seq<Cell>, views: seq<View>, clock: nat, col: Column)
    requires Invariant(bases, tables, cols, rows, cells, views, clock)
    requires col.tableId in TableIds(tables) && col.id !in ColumnIds(cols) && col.created == clock
    ensures Invariant(bases, tables, cols + [col], rows, cells + Grid(RowIds(RowsOf(rows, col.tableId)), [col]), views, clock + 1)
  {
    var rowIds := RowIds(RowsOf(rows, col.tableId));
    var newCells := Grid(rowIds, [col]);
    RowsOfDistinct(rows, col.tableId);
    assert ColumnIds([col]) == [col.id];
    forall r, c ensures CellCount(newCells, r, c) == if c == col.id && r in rowIds then 1 else 0 {
      GridCount(rowIds, [col], r, c);
    }
    forall k | 0 <= k < |newCells| ensures newCells[k].rowId in RowIds(rows) && newCells[k].columnId == col.id {
      RowsOfIds(rows, col.tableId, newCells[k].rowId);
    }
    AddColumnKeepsInvariant(bases, tables, cols, rows, cells, views, clock, col, newCells);
  }

  /** No column and no row belongs to table `t` yet. */
  ghost predicate NoChildren(cols: seq<Column>, rows: seq<Row>, t: Id) {
    (forall j :: 0 <= j < |cols| ==> cols[j].tableId != t) && (forall i :: 0 <= i < |rows| ==> rows[i].tableId != t)
  }

  /** A new table of an existing base keeps the invariant and has no children. */
  lemma {:induction false} AddTableKeepsInvariant(bases: seq<Base>, tables: seq<Table>, cols: seq<Column>, rows: seq<Row>,
                                                cells: seq<Cell>, views: seq<View>, clock: nat, table: Table)
    requires Invariant(bases, tables, cols, rows, cells, views, clock)
    requires table.id !in TableIds(tables) && table.baseId in BaseIds(bases)
    ensures Invariant(bases, tables + [table], cols, rows, cells, views, clock)
    ensures NoChildren(cols, rows, table.id)
  {
    var tables' := tables + [table];
    TableIdsAppend(tables, [table]);
    DistinctAppend(TableIds(tables), [table.id]);
    assert forall i :: 0 <= i < |tables| ==> tables'[i] == tables[i];
  }

  /** Seeding an existing, still empty table with its default columns, its
      empty rows and the grid of their cells keeps the invariant. */
  lemma {:induction false} SeedKeepsInvariant(bases: seq<Base>, tables: seq<Table>, cols: seq<Column>, rows: seq<Row>,
                                            cells: seq<Cell>, views: seq<View>, clock: nat,
                                            t: Id, colIds: seq<Id>, rowIds: seq<Id>)
    requires Invariant(bases, tables, cols, rows, cells, views, clock)
    requires t in TableIds(tables) && NoChildren(cols, rows, t)
    requires |colIds| == |DefaultColumnNames| && Distinct(colIds) && forall i :: 0 <= i < |colIds| ==> colIds[i] !in ColumnIds(cols)
    requires Distinct(rowIds) && forall i :: 0 <= i < |rowIds| ==> rowIds[i] !in RowIds(rows)
    ensures Invariant(bases, tables, cols + SeedColumns(colIds, t, clock),
                      rows + NewRows(rowIds, t, clock + |colIds|),
                      cells + Grid(rowIds, SeedColumns(colIds, t, clock)), views, clock + |colIds| + 1)
  {
    var nc := SeedColumns(colIds, t, clock);
    var nr := NewRows(rowIds, t, clock + |colIds|);
    SeedColumnIds(colIds, t, clock);
    NewRowIds(rowIds, t, clock + |colIds|);
    SeedDistinct(cols, rows, nc, nr);
    SeedParents(bases, tables, cols, rows, views, t, nc, nr);
    SeedChronological(cols, views, clock, nc);
    SeedCells(cols, rows, cells, t, nc, nr);
  }

  /** `createTable`'s transaction keeps the invariant: a new table of an
      existing base, seeded. */
  lemma {:induction false} CreateTableKeepsInvariant(bases: seq<Base>, tables: seq<Table>, cols: seq<Column>, rows: seq<Row>,
                                                   cells: seq<Cell>, views: seq<View>, clock: nat,
                                                   table: Table, colIds: seq<Id>, rowIds: seq<Id>)
    requires Invariant(bases, tables, cols, rows, cells, views, clock)
    requires table.id !in TableIds(tables) && table.baseId in BaseIds(bases)
    requires |colIds| == |DefaultColumnNames| && Distinct(colIds) && forall i :: 0 <= i < |colIds| ==> colIds[i] !in ColumnIds(cols)
    requires Distinct(rowIds) && forall i :: 0 <= i < |rowIds| ==> rowIds[i] !in RowIds(rows)
    ensures Invariant(bases, tables + [table], cols + SeedColumns(colIds, table.id, clock),
                      rows + NewRows(rowIds, table.id, clock + |colIds|),
                      cells + Grid(rowIds, SeedColumns(colIds, table.id, clock)), views, clock + |colIds| + 1)
  {
    AddTableKeepsInvariant(bases, tables, cols, rows, cells, views, clock, table);
    TableIdsAppend(tables, [table]);
    SeedKeepsInvariant(bases, tables + [table], cols, rows, cells, views, clock, table.id, colIds, rowIds);
  }

  /** `createBase` keeps the invariant: a new base, then its first table with
      that table's view, seeded. */
  lemma {:induction false} CreateBaseKeepsInvariant(bases: seq<Base>, tables: seq<Table>, cols: seq<Column>, rows: seq<Row>,
                                                  cells: seq<Cell>, views: seq<View>, clock: nat,
                                                  base: Base, table: Table, view: View, colIds: seq<Id>, rowIds: seq<Id>)
    requires Invariant(bases, tables, cols, rows, cells, views, clock)
    requires base.id !in BaseIds(bases) && table.id !in TableIds(tables) && table.baseId == base.id
    requires view.id !in ViewIds(views) && view.tableId == table.id && view.created == clock
    requires |colIds| == |DefaultColumnNames| && Distinct(colIds) && forall i :: 0 <= i < |colIds| ==> colIds[i] !in ColumnIds(cols)
    requires Distinct(rowIds) && forall i :: 0 <= i < |rowIds| ==> rowIds[i] !in RowIds(rows)
    ensures Invariant(bases + [base], tables + [table], cols + SeedColumns(colIds, table.id, clock + 1),
                      rows + NewRows(rowIds, table.id, clock + 1 + |colIds|),
                      cells + Grid(rowIds, SeedColumns(colIds, table.id, clock + 1)), views + [view], clock + 1 + |colIds| + 1)
  {
    AddBaseKeepsInvariant(bases, tables, cols, rows, cells, views, clock, base);
    BaseIdsAppend(bases, [base]);
    AddTableKeepsInvariant(bases + [base], tables, cols, rows, cells, views, clock, table);
    TableIdsAppend(tables, [table]);
    AddViewKeepsInvariant(bases + [base], tables + [table], cols, rows, cells, views, clock, view);
    SeedKeepsInvariant(bases + [base], tables + [table], cols, rows, cells, views + [view], clock + 1, table.id, colIds, rowIds);
  }

  lemma {:induction false} SeedDistinct(cols: seq<Column>, rows: seq<Row>, nc: seq<Column>, nr: seq<Row>)
    requires Distinct(ColumnIds(cols)) && Distinct(RowIds(rows))
    requires Distinct(ColumnIds(nc)) && forall i :: 0 <= i < |nc| ==> ColumnIds(nc)[i] !in ColumnIds(cols)
    requires Distinct(RowIds(nr)) && forall i :: 0 <= i < |nr| ==> RowIds(nr)[i] !in RowIds(rows)
    ensures Distinct(ColumnIds(cols + nc)) && Distinct(RowIds(rows + nr))
  {
    ColumnIdsAppend(cols, nc);
    assert forall x :: x in ColumnIds(cols) ==> x !in ColumnIds(nc);
    DistinctAppend(ColumnIds(cols), ColumnIds(nc));
    RowIdsAppend(rows, nr);
    assert forall x :: x in RowIds(rows) ==> x !in RowIds(nr);
    DistinctAppend(RowIds(rows), RowIds(nr));
  }

  lemma {:induction false} SeedParents(bases: seq<Base>, tables: seq<Table>, cols: seq<Column>, rows: seq<Row>,
                                     views: seq<View>, t: Id, nc: seq<Column>, nr: seq<Row>)
    requires ParentsExist(bases, tables, cols, rows, views)
    requires t in TableIds(tables)
    requires forall i :: 0 <= i < |nc| ==> nc[i].tableId == t
    requires forall i :: 0 <= i < |nr| ==> nr[i].tableId == t
    ensures ParentsExist(bases, tables, cols + nc, rows + nr, views)
  {
    var allC := cols + nc;
    var allR := rows + nr;
    forall i | 0 <= i < |allC| ensures allC[i].tableId in TableIds(tables) {
      if i < |cols| { assert allC[i] == cols[i]; } else { assert allC[i] == nc[i - |cols|]; }
    }
    forall i | 0 <= i < |allR| ensures allR[i].tableId in TableIds(tables) {
      if i < |rows| { assert allR[i] == rows[i]; } else { assert allR[i] == nr[i - |rows|]; }
    }
  }

  lemma {:induction false} SeedChronological(cols: seq<Column>, views: seq<View>, clock: nat, nc: seq<Column>)
    requires Chronological(cols, views, clock)
    requires forall i :: 0 <= i < |nc| ==> nc[i].created == clock + i
    ensures Chronological(cols + nc, views, clock + |nc| + 1)
  {
    var allC := cols + nc;
    forall i, j | 0 <= i < j < |allC| ensures allC[i].created < allC[j].created {
      if j < |cols| { assert allC[i] == cols[i] && allC[j] == cols[j]; }
      else if i < |cols| { assert allC[i] == cols[i] && allC[j] == nc[j - |cols|]; }
      else { assert allC[i] == nc[i - |cols|] && allC[j] == nc[j - |cols|]; }
    }
    forall i | 0 <= i < |allC| ensures allC[i].created < clock + |nc| + 1 {
      if i < |cols| { assert allC[i] == cols[i]; } else { assert allC[i] == nc[i - |cols|]; }
    }
  }

  lemma {:induction false} SeedCells(cols: seq<Column>, rows: seq<Row>, cells: seq<Cell>, t: Id,
                                   nc: seq<Column>, nr: seq<Row>)
    requires Referenced(rows, cols, cells) && Complete(rows, cols, cells)
    requires NoChildren(cols, rows, t)
    requires Distinct(ColumnIds(nc)) && forall i :: 0 <= i < |nc| ==> nc[i].tableId == t && nc[i].id !in ColumnIds(cols)
    requires Distinct(RowIds(nr)) && forall i :: 0 <= i < |nr| ==> nr[i].tableId == t && nr[i].id !in RowIds(rows)
    ensures Referenced(rows + nr, cols + nc, cells + Grid(RowIds(nr), nc))
    ensures Complete(rows + nr, cols + nc, cells + Grid(RowIds(nr), nc))
  {
    var g := Grid(RowIds(nr), nc);
    forall r, c ensures CellCount(g, r, c) == if r in RowIds(nr) && c in ColumnIds(nc) then 1 else 0 {
      GridCount(RowIds(nr), nc, r, c);
    }
    CompleteSeed(rows, cols, cells, nc, nr, g, t);
    RowIdsAppend(rows, nr);
    ColumnIdsAppend(cols, nc);
    var cs := cells + g;
    forall k | 0 <= k < |cs| ensures cs[k].rowId in RowIds(rows + nr) && cs[k].columnId in ColumnIds(cols + nc) {
      if k < |cells| { assert cs[k] == cells[k]; } else { assert cs[k] == g[k - |cells|]; }
    }
  }

  /** A column id of a table's columns is a column id of the store. */
  lemma ColumnsOfIds(cols: seq<Column>, t: Id, x: Id)
    requires x in ColumnIds(ColumnsOf(cols, t))
    ensures x in ColumnIds(cols)
  {
    var sel := ColumnsOf(cols, t);
    var p :| 0 <= p < |sel| && ColumnIds(sel)[p] == x;
    assert sel[p] in cols;
    var q :| 0 <= q < |cols| && cols[q] == sel[p];
    assert ColumnIds(cols)[q] == x;
  }

  lemma RowsOfIds(rows: seq<Row>, t: Id, x: Id)
    requires x in RowIds(RowsOf(rows, t))
    ensures x in RowIds(rows)
  {
    var sel := RowsOf(rows, t);
    var p :| 0 <= p < |sel| && RowIds(sel)[p] == x;
    assert sel[p] in rows;
    var q :| 0 <= q < |rows| && rows[q] == sel[p];
    assert RowIds(rows)[q] == x;
  }

  /** Writing cell values keeps the invariant: no pair gains or loses a cell. */
  lemma {:induction false} SetValueKeepsInvariant(bases: seq<Base>, tables: seq<Table>, cols: seq<Column>, rows: seq<Row>,
                                                cells: seq<Cell>, views: seq<View>, clock: nat,
                                                rowId: Id, columnId: Id, value: string)
    requires Invariant(bases, tables, cols, rows, cells, views, clock)
    ensures Invariant(bases, tables, cols, rows, SetValue(cells, rowId, columnId, value), views, clock)
  {
    var cs := SetValue(cells, rowId, columnId, value);
    forall r, c ensures CellCount(cs, r, c) == CellCount(cells, r, c) {
      SetValueKeepsCounts(cells, rowId, columnId, value, r, c);
    }
  }
}

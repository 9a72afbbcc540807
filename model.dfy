/** The records of the spreadsheet's entity–attribute–value store, shared by the
    server procedures and the client transforms. Every cell value is a string;
    numbers are only interpreted when a query filters or sorts. */
module Model {

  /** Record identities (database cuids on the server, "temp-…" strings for
      client placeholders). */
  type Id = string

  datatype Option<T> = None | Some(value: T)

  /** A procedure's outcome: its value, or the message of the error it throws. */
  datatype Result<T> = Ok(value: T) | Err(message: string)

  datatype ColumnType = TEXT | NUMBER

  datatype Base = Base(id: Id, name: string, userId: Id)

  datatype Table = Table(id: Id, name: string, baseId: Id)

  datatype Column = Column(id: Id, name: string, columnType: ColumnType, tableId: Id, created: nat)

  datatype Row = Row(id: Id, tableId: Id, created: nat)

  datatype Cell = Cell(rowId: Id, columnId: Id, value: string)

  /** A row as the queries return it, with its cells attached (`include: { cells: true }`). */
  datatype RowWithCells = RowWithCells(id: Id, tableId: Id, created: nat, cells: seq<Cell>)

  /** One entry of a view's `sortingState`: a column and its direction. */
  datatype SortEntry = SortEntry(id: Id, desc: bool)

  /** One entry of a view's `columnFilters`: `{ id, value: { operator, value } }`. */
  datatype ColumnFilter = ColumnFilter(id: Id, operator: string, operand: string)

  datatype View = View(
    id: Id,
    name: string,
    tableId: Id,
    columnVisibility: map<Id, bool>,
    sortingState: seq<SortEntry>,
    columnFilters: seq<ColumnFilter>,
    created: nat)

  predicate Distinct<T(==)>(s: seq<T>) {
    forall i, j :: 0 <= i < j < |s| ==> s[i] != s[j]
  }

  lemma DistinctCons<T>(x: T, s: seq<T>)
    ensures Distinct([x] + s) <==> x !in s && Distinct(s)
  {
    var t := [x] + s;
    if x !in s && Distinct(s) {
      forall i, j | 0 <= i < j < |t| ensures t[i] != t[j] {
        assert t[j] == s[j - 1];
        if i > 0 { assert t[i] == s[i - 1]; }
      }
    }
    if Distinct(t) {
      forall i, j | 0 <= i < j < |s| ensures s[i] != s[j] {
        assert s[i] == t[i + 1] && s[j] == t[j + 1];
      }
      forall j | 0 <= j < |s| ensures s[j] != x {
        assert t[0] == x && t[j + 1] == s[j];
      }
    }
  }

  lemma DistinctAppend<T>(a: seq<T>, b: seq<T>)
    requires Distinct(a) && Distinct(b)
    requires forall x :: x in a ==> x !in b
    ensures Distinct(a + b)
  {
    var t := a + b;
    forall i, j | 0 <= i < j < |t| ensures t[i] != t[j] {
      if j < |a| {
        assert t[i] == a[i] && t[j] == a[j];
      } else if i >= |a| {
        assert t[i] == b[i - |a|] && t[j] == b[j - |a|];
      } else {
        assert t[i] == a[i] && t[j] == b[j - |a|];
        assert a[i] in a && b[j - |a|] in b;
      }
    }
  }

  function ColumnIds(cols: seq<Column>): (r: seq<Id>)
    ensures |r| == |cols| && forall i :: 0 <= i < |cols| ==> r[i] == cols[i].id
  {
    if cols == [] then [] else [cols[0].id] + ColumnIds(cols[1..])
  }

  lemma ColumnIdsAppend(a: seq<Column>, b: seq<Column>)
    ensures ColumnIds(a + b) == ColumnIds(a) + ColumnIds(b)
  {
    assert forall i :: 0 <= i < |a + b| ==> ColumnIds(a + b)[i] == (ColumnIds(a) + ColumnIds(b))[i];
  }

  /** The number of cells in `cells` for the pair (rowId, columnId). */
  function CellCount(cells: seq<Cell>, rowId: Id, columnId: Id): nat {
    if cells == [] then 0
    else (if cells[0].rowId == rowId && cells[0].columnId == columnId then 1 else 0)
         + CellCount(cells[1..], rowId, columnId)
  }

  lemma {:induction false} CellCountAppend(a: seq<Cell>, b: seq<Cell>, rowId: Id, columnId: Id)
    ensures CellCount(a + b, rowId, columnId) == CellCount(a, rowId, columnId) + CellCount(b, rowId, columnId)
  {
    if a == [] {
      assert a + b == b;
    } else {
      assert (a + b)[1..] == a[1..] + b;
      CellCountAppend(a[1..], b, rowId, columnId);
    }
  }

  /** A pair no cell of `cells` is about has count zero. */
  lemma {:induction false} CellCountAbsent(cells: seq<Cell>, rowId: Id, columnId: Id)
    requires forall i :: 0 <= i < |cells| ==> cells[i].rowId != rowId || cells[i].columnId != columnId
    ensures CellCount(cells, rowId, columnId) == 0
  {
    if cells != [] {
      CellCountAbsent(cells[1..], rowId, columnId);
    }
  }

  /** One empty cell of row `rowId` for every column of `cols`, in column order:
      the cells `addRow` creates and the client's placeholder row carries. */
  function BlankRowCells(rowId: Id, cols: seq<Column>): (r: seq<Cell>)
    ensures |r| == |cols|
    ensures forall i :: 0 <= i < |cols| ==> r[i] == Cell(rowId, cols[i].id, "")
  {
    if cols == [] then [] else [Cell(rowId, cols[0].id, "")] + BlankRowCells(rowId, cols[1..])
  }

  /** Over distinct columns, the blank cells of a row hold exactly one cell per
      column and none for any other pair. */
  lemma {:induction false} BlankRowCellsCount(rowId: Id, cols: seq<Column>, r: Id, c: Id)
    requires Distinct(ColumnIds(cols))
    ensures CellCount(BlankRowCells(rowId, cols), r, c) == if r == rowId && c in ColumnIds(cols) then 1 else 0
  {
    if cols != [] {
      var rest := cols[1..];
      assert ColumnIds(cols) == [cols[0].id] + ColumnIds(rest);
      assert Distinct(ColumnIds(rest)) by {
        forall i, j | 0 <= i < j < |ColumnIds(rest)| ensures ColumnIds(rest)[i] != ColumnIds(rest)[j] {
          assert ColumnIds(rest)[i] == ColumnIds(cols)[i + 1];
          assert ColumnIds(rest)[j] == ColumnIds(cols)[j + 1];
        }
      }
      assert cols[0].id !in ColumnIds(rest) by {
        forall j | 0 <= j < |ColumnIds(rest)| ensures ColumnIds(rest)[j] != cols[0].id {
          assert ColumnIds(rest)[j] == ColumnIds(cols)[j + 1];
        }
      }
      assert BlankRowCells(rowId, cols)[1..] == BlankRowCells(rowId, rest);
      BlankRowCellsCount(rowId, rest, r, c);
    }
  }

  /** Blank cells for every pair of `rowIds` × `cols`, row by row: the
      `rows.flatMap(row => columns.map(...))` of the seeding procedures. */
  function Grid(rowIds: seq<Id>, cols: seq<Column>): (r: seq<Cell>)
    ensures forall k :: 0 <= k < |r| ==> r[k].rowId in rowIds && r[k].columnId in ColumnIds(cols) && r[k].value == ""
  {
    if rowIds == [] then []
    else BlankRowCells(rowIds[0], cols) + Grid(rowIds[1..], cols)
  }

  /** Over distinct rows and distinct columns, the grid holds exactly one
      cell for each pair and none for any other. */
  lemma {:induction false} GridCount(rowIds: seq<Id>, cols: seq<Column>, r: Id, c: Id)
    requires Distinct(rowIds) && Distinct(ColumnIds(cols))
    ensures CellCount(Grid(rowIds, cols), r, c) == if r in rowIds && c in ColumnIds(cols) then 1 else 0
  {
    if rowIds != [] {
      assert rowIds == [rowIds[0]] + rowIds[1..];
      DistinctCons(rowIds[0], rowIds[1..]);
      GridCount(rowIds[1..], cols, r, c);
      BlankRowCellsCount(rowIds[0], cols, r, c);
      CellCountAppend(BlankRowCells(rowIds[0], cols), Grid(rowIds[1..], cols), r, c);
    }
  }

  /** Blank cells column by column: for each column in turn, one cell per row. */
  function ColumnMajor(rowIds: seq<Id>, cols: seq<Column>): (r: seq<Cell>)
    ensures forall k :: 0 <= k < |r| ==> r[k].rowId in rowIds && r[k].columnId in ColumnIds(cols) && r[k].value == ""
  {
    if cols == [] then []
    else
      var init := cols[..|cols| - 1];
      var last := cols[|cols| - 1];
      ColumnIdsAppend(init, [last]);
      assert init + [last] == cols;
      ColumnMajor(rowIds, init) + Grid(rowIds, [last])
  }

  lemma InitLast<T>(s: seq<T>)
    requires s != []
    ensures s[..|s| - 1] + [s[|s| - 1]] == s
  {
  }

  lemma DistinctSnoc<T>(a: seq<T>, x: T)
    requires Distinct(a + [x])
    ensures Distinct(a) && x !in a
  {
    var t := a + [x];
    forall i, j | 0 <= i < j < |a| ensures a[i] != a[j] {
      assert a[i] == t[i] && a[j] == t[j];
    }
    forall i | 0 <= i < |a| ensures a[i] != x {
      assert a[i] == t[i] && x == t[|a|];
    }
  }

  /** Splitting distinct columns into the leading ones and the last keeps
      both parts distinct and apart. */
  lemma SplitLastDistinct(cols: seq<Column>)
    requires cols != [] && Distinct(ColumnIds(cols))
    ensures Distinct(ColumnIds(cols[..|cols| - 1])) && Distinct(ColumnIds([cols[|cols| - 1]]))
    ensures cols[|cols| - 1].id !in ColumnIds(cols[..|cols| - 1])
  {
    var init := cols[..|cols| - 1];
    var last := cols[|cols| - 1];
    InitLast(cols);
    ColumnIdsAppend(init, [last]);
    assert ColumnIds([last]) == [last.id];
    DistinctSnoc(ColumnIds(init), last.id);
  }

  lemma {:induction false} ColumnMajorCount(rowIds: seq<Id>, cols: seq<Column>, r: Id, c: Id)
    requires Distinct(rowIds) && Distinct(ColumnIds(cols))
    ensures CellCount(ColumnMajor(rowIds, cols), r, c) == if r in rowIds && c in ColumnIds(cols) then 1 else 0
  {
    if cols != [] {
      var init := cols[..|cols| - 1];
      var last := cols[|cols| - 1];
      InitLast(cols);
      ColumnIdsAppend(init, [last]);
      SplitLastDistinct(cols);
      ColumnMajorCount(rowIds, init, r, c);
      GridCount(rowIds, [last], r, c);
      CellCountAppend(ColumnMajor(rowIds, init), Grid(rowIds, [last]), r, c);
      assert ColumnMajor(rowIds, cols) == ColumnMajor(rowIds, init) + Grid(rowIds, [last]);
      assert c in ColumnIds(cols) <==> c in ColumnIds(init) || c in ColumnIds([last]);
    }
  }

  /** `localViews.map(view => view.id === selected ? edit(view) : view)`: the
      client editors' way of writing a new setting into the selected view only. */
  function ReplaceSelected(views: seq<View>, selectedId: Id, edit: View -> View): (r: seq<View>)
    ensures |r| == |views|
    ensures forall i :: 0 <= i < |views| && views[i].id != selectedId ==> r[i] == views[i]
    ensures forall i :: 0 <= i < |views| && views[i].id == selectedId ==> r[i] == edit(views[i])
  {
    seq(|views|, i requires 0 <= i < |views| => if views[i].id == selectedId then edit(views[i]) else views[i])
  }

  /** Concatenation regroups freely. */
  lemma ConcatAssoc<T>(a: seq<T>, b: seq<T>, c: seq<T>)
    ensures a + (b + c) == a + b + c
  {
  }
}

/** `getRowsFilteredSorted` (src/server/api/routers/row.ts) as a function of the
    view it looks up and the table's rows: filter, then sort, then cut one
    window out of the result and report the size of the whole result. */
module Query {
  import opened Model
  import opened Text
  import opened Filtering
  import opened Sorting

  /** The procedure's answer: `{ data, meta: { totalRowCount } }`. */
  datatype Page = Page(data: seq<RowWithCells>, totalRowCount: nat)

  /** ECMAScript's treatment of a `slice` bound: a negative bound counts from
      the end, and every bound is clamped to `[0, len]`. */
  function RelativeIndex(i: int, len: nat): (r: nat)
    ensures r <= len
    ensures 0 <= i ==> r == if i < len then i else len
    ensures i < 0 ==> r == if len + i < 0 then 0 else len + i
  {
    if i < 0 then (if len + i < 0 then 0 else len + i)
    else if i > len then len
    else i
  }

  /** `s.slice(start, end)`. */
  function JsSlice<T>(s: seq<T>, start: int, end: int): (r: seq<T>)
    ensures |r| <= |s|
    ensures forall x :: x in r ==> x in s
  {
    var from := RelativeIndex(start, |s|);
    var to := RelativeIndex(end, |s|);
    if from < to then s[from..to] else []
  }

  /** For non-negative bounds, `slice` is the window `[start, end)` cut down
      to the sequence, so a window holds at most `end - start` elements. */
  lemma JsSliceWindow<T>(s: seq<T>, start: int, end: int)
    requires 0 <= start <= end
    ensures start <= |s| ==> JsSlice(s, start, end) == s[start..if end < |s| then end else |s|]
    ensures |JsSlice(s, start, end)| <= end - start
  {
  }

  lemma WindowBound<T>(s: seq<T>, start: int, size: int)
    ensures 0 <= start && 0 <= size ==> |JsSlice(s, start, start + size)| <= size
  {
    if 0 <= start && 0 <= size {
      JsSliceWindow(s, start, start + size);
    }
  }

  /** Two adjacent windows make up the window that spans both. */
  lemma JsSliceAdjacent<T>(s: seq<T>, a: int, b: int, c: int)
    requires 0 <= a <= b <= c
    ensures JsSlice(s, a, b) + JsSlice(s, b, c) == JsSlice(s, a, c)
  {
    var n := |s|;
    var ra, rb, rc := RelativeIndex(a, n), RelativeIndex(b, n), RelativeIndex(c, n);
    assert ra <= rb <= rc;
    if ra < rb && rb < rc {
      assert s[ra..rb] + s[rb..rc] == s[ra..rc];
    }
  }

  /** A negative `start` asks for the last `-start` rows. */
  lemma JsSliceNegativeStart<T>(s: seq<T>, start: int, end: int)
    requires start < 0 && -start <= |s| && end >= |s|
    ensures JsSlice(s, start, end) == s[|s| + start..]
  {
  }

  /** The sort stage runs only when the view has sort keys. */
  function SortStage(rows: seq<RowWithCells>, sorting: seq<SortEntry>): seq<RowWithCells> {
    if |sorting| > 0 then SortRows(rows, sorting) else rows
  }

  /** Skipping the sort for an empty key list is the same as sorting. */
  lemma SortStageIsSortRows(rows: seq<RowWithCells>, sorting: seq<SortEntry>)
    ensures SortStage(rows, sorting) == SortRows(rows, sorting)
  {
    if sorting == [] {
      NoKeysUnchanged(rows);
    }
  }

  /** Everything the view selects, in the order the pages are cut from. */
  function Universe(view: View, rows: seq<RowWithCells>): (r: seq<RowWithCells>)
    ensures |r| <= |rows|
  {
    SortStage(FilterRows(rows, view.columnFilters), view.sortingState)
  }

  /** The selected rows are a reordering of the rows that pass the view's
      filters, whatever the filters and keys. */
  lemma UniversePermutes(view: View, rows: seq<RowWithCells>)
    ensures multiset(Universe(view, rows)) == multiset(KeepPassing(rows, view.columnFilters))
    ensures |Universe(view, rows)| == |KeepPassing(rows, view.columnFilters)|
  {
    FilterRowsIsKeepPassing(rows, view.columnFilters);
    SortStageIsSortRows(FilterRows(rows, view.columnFilters), view.sortingState);
    SortPermutes(FilterRows(rows, view.columnFilters), view.sortingState);
    assert |multiset(Universe(view, rows))| == |multiset(KeepPassing(rows, view.columnFilters))|;
  }

  lemma UniverseMembers(view: View, rows: seq<RowWithCells>)
    ensures forall x :: x in Universe(view, rows) <==> x in rows && RowPasses(x.cells, view.columnFilters)
  {
    UniversePermutes(view, rows);
    forall x ensures x in Universe(view, rows) <==> x in multiset(KeepPassing(rows, view.columnFilters)) {
      assert x in Universe(view, rows) <==> x in multiset(Universe(view, rows));
    }
  }

  /** When every selected row has a cell for each sort key and each key's cells
      are all numbers or all texts, the selection is ordered by the keys, and
      rows that tie keep the order in which they were fetched. */
  lemma UniverseOrdered(view: View, rows: seq<RowWithCells>, numeric: seq<bool>, x: RowWithCells)
    requires AllConform(KeepPassing(rows, view.columnFilters), view.sortingState, numeric)
    requires Conforms(x, view.sortingState, numeric)
    ensures SortedBy(Universe(view, rows), view.sortingState)
    ensures Ties(Universe(view, rows), x, view.sortingState)
         == Ties(KeepPassing(rows, view.columnFilters), x, view.sortingState)
  {
    FilterRowsIsKeepPassing(rows, view.columnFilters);
    SortStageIsSortRows(FilterRows(rows, view.columnFilters), view.sortingState);
    SortSorts(KeepPassing(rows, view.columnFilters), view.sortingState, numeric);
    SortStable(KeepPassing(rows, view.columnFilters), x, view.sortingState, numeric);
  }

  /** The procedure after the view lookup: no view gives an empty page with a
      count of zero; otherwise the window `[start, start + size)` of the
      selection, with the size of the whole selection. */
  function FilteredSortedPage(view: Option<View>, rows: seq<RowWithCells>, start: int, size: int): (p: Page)
    ensures view.None? ==> p == Page([], 0)
    ensures view.Some? ==> p.totalRowCount == |KeepPassing(rows, view.value.columnFilters)|
    ensures view.Some? ==> forall x :: x in p.data ==> x in rows && RowPasses(x.cells, view.value.columnFilters)
    ensures 0 <= start && 0 <= size ==> |p.data| <= size
  {
    match view
    case None => Page([], 0)
    case Some(v) =>
      var u := Universe(v, rows);
      UniversePermutes(v, rows);
      UniverseMembers(v, rows);
      WindowBound(u, start, size);
      Page(JsSlice(u, start, start + size), |u|)
  }

  /** A view's page is the window of its selection. */
  lemma PageIsWindow(view: View, rows: seq<RowWithCells>, start: int, size: int)
    ensures FilteredSortedPage(Some(view), rows, start, size).data == JsSlice(Universe(view, rows), start, start + size)
    ensures FilteredSortedPage(Some(view), rows, start, size).totalRowCount == |Universe(view, rows)|
  {
  }

  /** A window that reaches past the end, starting at the front, is the whole sequence. */
  lemma JsSliceWhole<T>(s: seq<T>, end: int)
    requires end >= |s|
    ensures JsSlice(s, 0, end) == s
  {
  }

  lemma PageOffsets(n: nat, size: nat)
    requires n > 0
    ensures 0 <= (n - 1) * size && (n - 1) * size + size == n * size
  {
  }

  /** The first `n` windows of `size` elements of `u`, joined. */
  function Windows<T>(u: seq<T>, size: nat, n: nat): seq<T> {
    if n == 0 then [] else Windows(u, size, n - 1) + JsSlice(u, (n - 1) * size, (n - 1) * size + size)
  }

  lemma {:induction false} WindowsPrefix<T>(u: seq<T>, size: nat, n: nat)
    ensures Windows(u, size, n) == JsSlice(u, 0, n * size)
  {
    if n > 0 {
      var m := (n - 1) * size;
      PageOffsets(n, size);
      WindowsPrefix(u, size, n - 1);
      assert Windows(u, size, n) == JsSlice(u, 0, m) + JsSlice(u, m, m + size);
      JsSliceAdjacent(u, 0, m, m + size);
    }
  }

  /** An unfiltered, unsorted view pages through the table's rows as fetched. */
  lemma PlainViewIsTable(view: View, rows: seq<RowWithCells>)
    requires view.columnFilters == [] && view.sortingState == []
    ensures Universe(view, rows) == rows
  {
  }

  const NameColumn: Id := "name"
  const ScoreColumn: Id := "score"

  function ScoreRow(id: Id, score: string): RowWithCells {
    RowWithCells(id, "t", 0, [Cell(id, NameColumn, ""), Cell(id, ScoreColumn, score)])
  }

  lemma ScoreRowFind(id: Id, score: string)
    ensures FindCell(ScoreRow(id, score).cells, ScoreColumn) == Some(Cell(id, ScoreColumn, score))
  {
    assert NameColumn[0] != ScoreColumn[0];
    var cells := ScoreRow(id, score).cells;
    assert cells[1..] == [Cell(id, ScoreColumn, score)];
    assert FindCellIndex(cells, ScoreColumn) == 1;
  }

  lemma ScoreValues()
    ensures ParseNum("") == Some(0.0) && ParseNum("1") == Some(1.0)
    ensures ParseNum("2") == Some(2.0) && ParseNum("10") == Some(10.0)
  {
    assert DigitRun("1") == 1;
    assert DigitsValue("1") == 1;
    ParseNumExamples();
  }

  /** Scores "10", "2" and "": `greater_than "1"` keeps "10" and "2", since an
      empty cell is the number 0. */
  lemma ScoreFilterScenario()
    ensures KeepPassing([ScoreRow("a", "10"), ScoreRow("b", "2"), ScoreRow("c", "")],
                        [ColumnFilter(ScoreColumn, "greater_than", "1")])
         == [ScoreRow("a", "10"), ScoreRow("b", "2")]
  {
    var f := [ColumnFilter(ScoreColumn, "greater_than", "1")];
    var a, b, c := ScoreRow("a", "10"), ScoreRow("b", "2"), ScoreRow("c", "");
    ScoreValues();
    ScoreRowFind("a", "10");
    ScoreRowFind("b", "2");
    ScoreRowFind("c", "");
    assert RowPasses(a.cells, f);
    assert RowPasses(b.cells, f);
    assert !RowPasses(c.cells, f);
    assert [a, b, c][1..] == [b, c];
    assert [b, c][1..] == [c];
    assert KeepPassing([c], f) == [];
    assert KeepPassing([b, c], f) == [b];
  }

  /** The same three scores sorted ascending come out numerically ordered:
      "", "2", "10". */
  lemma ScoreSortScenario()
    ensures SortRows([ScoreRow("a", "10"), ScoreRow("b", "2"), ScoreRow("c", "")],
                     [SortEntry(ScoreColumn, false)])
         == [ScoreRow("c", ""), ScoreRow("b", "2"), ScoreRow("a", "10")]
  {
    var a, b, c := ScoreRow("a", "10"), ScoreRow("b", "2"), ScoreRow("c", "");
    var s := [SortEntry(ScoreColumn, false)];
    ScoreValues();
    ScoreRowFind("a", "10");
    ScoreRowFind("b", "2");
    ScoreRowFind("c", "");
    assert Coerce("10") == Num(10.0) && Coerce("2") == Num(2.0) && Coerce("") == Num(0.0);
    assert CompareRows(b, a, s) < 0;
    assert CompareRows(c, b, s) < 0;
    assert [a, b, c][..2] == [a, b];
    assert [a, b][..1] == [a];
    assert SortRows([a], s) == [a];
    assert SortRows([a, b], s) == [b, a];
    assert Insert(c, [b, a], s) == [c, b, a];
  }
}

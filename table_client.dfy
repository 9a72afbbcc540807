/** The grid's optimistic-update reconciliation
    (src/app/_components/basesPage/table.tsx): placeholder rows and columns
    with temporary ids are shown at once, edits to their cells wait in a
    queue, and when the server answers the temporary ids are rewritten and
    the queued edits are sent. */
module TableClient {
  import opened Model
  import opened Text
  import Query

  /** `fetchSize`: the rows one page request asks for. */
  const FetchSize: nat := 40

  /** The `start` of the request for page `pageParam` (`pageParam * fetchSize`). */
  function PageStart(pageParam: nat): nat {
    pageParam * FetchSize
  }

  /** The loaded pages joined in order (`pages.flatMap(page => page.data)`). */
  function Flatten(pages: seq<seq<RowWithCells>>): seq<RowWithCells> {
    if pages == [] then [] else Flatten(pages[..|pages| - 1]) + pages[|pages| - 1]
  }

  /** The page that request `k` gets from a server answering with windows of `selection`. */
  predicate WindowAt(page: seq<RowWithCells>, k: nat, selection: seq<RowWithCells>) {
    page == Query.JsSlice(selection, PageStart(k), PageStart(k) + FetchSize)
  }

  /** Pages requested one after another (`getNextPageParam` is the number of
      pages already loaded), each answered with the window of one fixed
      selection that its `start` and `size` name, join into the leading rows
      of that selection: no gap and no overlap. */
  lemma {:induction false} PagesJoinIntoPrefix(pages: seq<seq<RowWithCells>>, selection: seq<RowWithCells>)
    requires forall k :: 0 <= k < |pages| ==> WindowAt(pages[k], k, selection)
    ensures Flatten(pages) == Query.JsSlice(selection, 0, |pages| * FetchSize)
  {
    PagesAreWindows(pages, selection);
    Query.WindowsPrefix(selection, FetchSize, |pages|);
  }

  /** Pages answered by `getRowsFilteredSorted` for one view, requested until
      they cover the `totalRowCount` it reports, hold every selected row
      exactly once, in the selection's order. */
  lemma ServerPagesCoverSelection(view: View, rows: seq<RowWithCells>, pages: seq<seq<RowWithCells>>)
    requires forall k :: 0 <= k < |pages| ==>
      pages[k] == Query.FilteredSortedPage(Some(view), rows, PageStart(k), FetchSize).data
    requires |pages| * FetchSize >= Query.FilteredSortedPage(Some(view), rows, 0, FetchSize).totalRowCount
    ensures Flatten(pages) == Query.Universe(view, rows)
  {
    var u := Query.Universe(view, rows);
    forall k | 0 <= k < |pages| ensures WindowAt(pages[k], k, u) {
      Query.PageIsWindow(view, rows, PageStart(k), FetchSize);
    }
    PagesJoinIntoPrefix(pages, u);
    Query.PageIsWindow(view, rows, 0, FetchSize);
    Query.JsSliceWhole(u, |pages| * FetchSize);
  }

  lemma PagesAreWindows(pages: seq<seq<RowWithCells>>, selection: seq<RowWithCells>)
    requires forall k :: 0 <= k < |pages| ==> WindowAt(pages[k], k, selection)
    ensures Flatten(pages) == Query.Windows(selection, FetchSize, |pages|)
  {
    assert pages == WindowPages(selection, |pages|);
    WindowPagesFlatten(selection, |pages|);
  }

  /** The answers to the first `n` page requests. */
  function WindowPages(selection: seq<RowWithCells>, n: nat): (r: seq<seq<RowWithCells>>)
    ensures |r| == n && forall k :: 0 <= k < n ==> WindowAt(r[k], k, selection)
  {
    if n == 0 then []
    else WindowPages(selection, n - 1) + [Query.JsSlice(selection, PageStart(n - 1), PageStart(n - 1) + FetchSize)]
  }

  lemma {:induction false} WindowPagesFlatten(selection: seq<RowWithCells>, n: nat)
    ensures Flatten(WindowPages(selection, n)) == Query.Windows(selection, FetchSize, n)
  {
    if n > 0 {
      var r := WindowPages(selection, n);
      assert r[..n - 1] == WindowPages(selection, n - 1);
      WindowPagesFlatten(selection, n - 1);
    }
  }

  /** The page-level view of `pages[k := page]`. */
  lemma FlattenReplaceLast(pages: seq<seq<RowWithCells>>, page: seq<RowWithCells>)
    requires pages != []
    ensures Flatten(pages[|pages| - 1 := page]) == Flatten(pages[..|pages| - 1]) + page
  {
    assert pages[|pages| - 1 := page][..|pages| - 1] == pages[..|pages| - 1];
  }

  // ---------------------------------------------------------------------------
  // Temporary ids

  /** The test `id.includes("temp")` that tells a placeholder's id from a server id. */
  predicate IsTemp(id: Id) {
    Contains(id, "temp")
  }

  /** `${n}`: the decimal digits of a natural number. */
  function Decimal(n: nat): (r: string)
    ensures |r| >= 1 && AllDigits(r)
    ensures DigitsValue(r) == n
    ensures n > 0 ==> r[0] != '0'
  {
    if n < 10 then
      var r := [('0' as int + n) as char];
      assert r[..0] == [];
      r
    else
      var init := Decimal(n / 10);
      var r := init + [('0' as int + n % 10) as char];
      assert r[..|r| - 1] == init;
      r
  }

  lemma StartsWithTemp(s: string)
    requires |s| >= 4 && s[..4] == "temp"
    ensures IsTemp(s)
  {
  }

  /** `temp-row-${Date.now()}`. */
  function TempRowId(now: nat): (id: Id)
    ensures IsTemp(id)
  {
    var id := "temp-row-" + Decimal(now);
    assert id[..4] == "temp";
    StartsWithTemp(id);
    id
  }

  /** `temp-col-${Date.now()}`. */
  function TempColumnId(now: nat): (id: Id)
    ensures IsTemp(id)
  {
    var id := "temp-col-" + Decimal(now);
    assert id[..4] == "temp";
    StartsWithTemp(id);
    id
  }

  /** The name `handleCreateColumn` asks for: the typed name, or "Label n" for
      the n columns already shown when nothing was typed. */
  function NewColumnName(typed: string, shown: nat): (name: string)
    ensures name != ""
    ensures typed != "" ==> name == typed
    ensures typed == "" ==> |name| > 6 && name[..6] == "Label " && AllDigits(name[6..]) && DigitsValue(name[6..]) == shown
  {
    if typed == "" then
      var name := "Label " + Decimal(shown);
      assert name[6..] == Decimal(shown);
      name
    else typed
  }

  /** Untyped names for different column counts differ, and an untyped name
      gives back the count it was made from. */
  lemma {:induction false} DefaultNamesDistinct(m: nat, n: nat)
    ensures NewColumnName("", m) == NewColumnName("", n) <==> m == n
  {
    var a, b := NewColumnName("", m), NewColumnName("", n);
    if a == b {
      assert a[6..] == b[6..];
    }
  }

  // ---------------------------------------------------------------------------
  // Rows and cells

  /** The row `createRow.onMutate` shows at once: one empty cell per shown
      column, in column order. */
  function Placeholder(tempId: Id, tableId: Id, now: nat, cols: seq<Column>): (row: RowWithCells)
    ensures row.id == tempId && row.tableId == tableId && |row.cells| == |cols|
    ensures forall i :: 0 <= i < |cols| ==> row.cells[i] == Cell(tempId, cols[i].id, "")
  {
    RowWithCells(tempId, tableId, now, BlankRowCells(tempId, cols))
  }

  /** The temp row given the server's id, in its own id and in every cell. */
  function RowRenamed(row: RowWithCells, tempId: Id, realId: Id): (r: RowWithCells)
    ensures row.id != tempId ==> r == row
    ensures row.id == tempId ==>
      r.id == realId && r.tableId == row.tableId && r.created == row.created && |r.cells| == |row.cells|
      && forall i :: 0 <= i < |row.cells| ==> r.cells[i] == row.cells[i].(rowId := realId)
  {
    if row.id == tempId then
      row.(id := realId, cells := seq(|row.cells|, i requires 0 <= i < |row.cells| => row.cells[i].(rowId := realId)))
    else row
  }

  /** Once renamed, the placeholder row is the row `addRow` stores: the
      server's id and one empty cell of that id per column. */
  lemma PlaceholderBecomesServerRow(tempId: Id, tableId: Id, now: nat, cols: seq<Column>, realId: Id)
    ensures RowRenamed(Placeholder(tempId, tableId, now, cols), tempId, realId)
      == RowWithCells(realId, tableId, now, BlankRowCells(realId, cols))
  {
  }

  /** A row with an empty cell for the placeholder column appended. */
  function WithBlankCell(row: RowWithCells, columnId: Id): (r: RowWithCells)
    ensures r.(cells := row.cells) == row
    ensures r.cells == row.cells + [Cell(row.id, columnId, "")]
  {
    row.(cells := row.cells + [Cell(row.id, columnId, "")])
  }

  /** The cells of the temp column given the server's column id; no other
      cell, and nothing else of the row, changes. */
  function ColumnRenamedIn(row: RowWithCells, tempId: Id, realId: Id): (r: RowWithCells)
    ensures r.(cells := row.cells) == row && |r.cells| == |row.cells|
    ensures forall i :: 0 <= i < |row.cells| ==>
      r.cells[i] == if row.cells[i].columnId == tempId then row.cells[i].(columnId := realId) else row.cells[i]
  {
    row.(cells := seq(|row.cells|, i requires 0 <= i < |row.cells| =>
      if row.cells[i].columnId == tempId then row.cells[i].(columnId := realId) else row.cells[i]))
  }

  /** A row that had no cell of the temp column ends up with exactly the
      empty cell `addColumn` creates for it. */
  lemma PlaceholderCellBecomesServerCell(row: RowWithCells, tempId: Id, realId: Id)
    requires forall c :: c in row.cells ==> c.columnId != tempId
    ensures ColumnRenamedIn(WithBlankCell(row, tempId), tempId, realId) == WithBlankCell(row, realId)
  {
    var r := ColumnRenamedIn(WithBlankCell(row, tempId), tempId, realId);
    assert forall i :: 0 <= i < |row.cells| ==> row.cells[i] in row.cells;
    assert r.cells == row.cells + [Cell(row.id, realId, "")];
  }

  datatype PendingUpdate = PendingUpdate(rowId: Id, columnId: Id, value: string)

  /** `updateCell.onMutate` on one row: the value of the cells matching both
      ids becomes the new value; nothing else changes. */
  function CellUpdated(row: RowWithCells, u: PendingUpdate): (r: RowWithCells)
    ensures r.(cells := row.cells) == row && |r.cells| == |row.cells|
    ensures forall i :: 0 <= i < |row.cells| ==>
      r.cells[i].(value := row.cells[i].value) == row.cells[i]
      && r.cells[i].value == if row.cells[i].rowId == u.rowId && row.cells[i].columnId == u.columnId
                              then u.value else row.cells[i].value
  {
    row.(cells := seq(|row.cells|, i requires 0 <= i < |row.cells| =>
      if row.cells[i].rowId == u.rowId && row.cells[i].columnId == u.columnId
      then row.cells[i].(value := u.value) else row.cells[i]))
  }

  function RowsRenamed(rows: seq<RowWithCells>, tempId: Id, realId: Id): (r: seq<RowWithCells>)
    ensures |r| == |rows| && forall i :: 0 <= i < |rows| ==> r[i] == RowRenamed(rows[i], tempId, realId)
  {
    seq(|rows|, i requires 0 <= i < |rows| => RowRenamed(rows[i], tempId, realId))
  }

  function RowsWithBlankCell(rows: seq<RowWithCells>, columnId: Id): (r: seq<RowWithCells>)
    ensures |r| == |rows| && forall i :: 0 <= i < |rows| ==> r[i] == WithBlankCell(rows[i], columnId)
  {
    seq(|rows|, i requires 0 <= i < |rows| => WithBlankCell(rows[i], columnId))
  }

  function RowsColumnRenamed(rows: seq<RowWithCells>, tempId: Id, realId: Id): (r: seq<RowWithCells>)
    ensures |r| == |rows| && forall i :: 0 <= i < |rows| ==> r[i] == ColumnRenamedIn(rows[i], tempId, realId)
  {
    seq(|rows|, i requires 0 <= i < |rows| => ColumnRenamedIn(rows[i], tempId, realId))
  }

  function RowsCellUpdated(rows: seq<RowWithCells>, u: PendingUpdate): (r: seq<RowWithCells>)
    ensures |r| == |rows| && forall i :: 0 <= i < |rows| ==> r[i] == CellUpdated(rows[i], u)
  {
    seq(|rows|, i requires 0 <= i < |rows| => CellUpdated(rows[i], u))
  }

  // ---------------------------------------------------------------------------
  // The cached pages

  /** `createRow.onMutate` on the cache: the placeholder joins the last page. */
  function AppendToLastPage(pages: seq<seq<RowWithCells>>, row: RowWithCells): (r: seq<seq<RowWithCells>>)
    ensures |r| == |pages|
    ensures Flatten(r) == if pages == [] then [] else Flatten(pages) + [row]
  {
    if pages == [] then []
    else
      var n := |pages|;
      FlattenReplaceLast(pages, pages[n - 1] + [row]);
      pages[n - 1 := pages[n - 1] + [row]]
  }

  /** `createRow.onSuccess` on the cache: the temp row of the last page is
      renamed; earlier pages are untouched. */
  function RowRenamedInLastPage(pages: seq<seq<RowWithCells>>, tempId: Id, realId: Id): (r: seq<seq<RowWithCells>>)
    ensures |r| == |pages| && forall k :: 0 <= k < |pages| - 1 ==> r[k] == pages[k]
    ensures pages != [] ==> r[|pages| - 1] == RowsRenamed(pages[|pages| - 1], tempId, realId)
  {
    if pages == [] then [] else pages[|pages| - 1 := RowsRenamed(pages[|pages| - 1], tempId, realId)]
  }

  /** `createColumn.onMutate` on the cache: every row of the last page gets an
      empty cell of the placeholder column. */
  function BlankCellInLastPage(pages: seq<seq<RowWithCells>>, columnId: Id): (r: seq<seq<RowWithCells>>)
    ensures |r| == |pages| && forall k :: 0 <= k < |pages| - 1 ==> r[k] == pages[k]
    ensures pages != [] ==> r[|pages| - 1] == RowsWithBlankCell(pages[|pages| - 1], columnId)
  {
    if pages == [] then [] else pages[|pages| - 1 := RowsWithBlankCell(pages[|pages| - 1], columnId)]
  }

  /** `createColumn.onSuccess` on the cache: the temp column's cells of the
      last page are renamed. */
  function ColumnRenamedInLastPage(pages: seq<seq<RowWithCells>>, tempId: Id, realId: Id): (r: seq<seq<RowWithCells>>)
    ensures |r| == |pages| && forall k :: 0 <= k < |pages| - 1 ==> r[k] == pages[k]
    ensures pages != [] ==> r[|pages| - 1] == RowsColumnRenamed(pages[|pages| - 1], tempId, realId)
  {
    if pages == [] then [] else pages[|pages| - 1 := RowsColumnRenamed(pages[|pages| - 1], tempId, realId)]
  }

  /** `updateCell.onMutate`: the edit applied to every row of every page. */
  function UpdateAllPages(pages: seq<seq<RowWithCells>>, u: PendingUpdate): (r: seq<seq<RowWithCells>>)
    ensures |r| == |pages| && forall k :: 0 <= k < |pages| ==> r[k] == RowsCellUpdated(pages[k], u)
  {
    seq(|pages|, k requires 0 <= k < |pages| => RowsCellUpdated(pages[k], u))
  }

  /** Editing the pages one by one is editing the rows they show. */
  lemma {:induction false} UpdateAllPagesFlatten(pages: seq<seq<RowWithCells>>, u: PendingUpdate)
    ensures Flatten(UpdateAllPages(pages, u)) == RowsCellUpdated(Flatten(pages), u)
  {
    if pages != [] {
      var n := |pages|;
      var init := pages[..n - 1];
      assert UpdateAllPages(pages, u)[..n - 1] == UpdateAllPages(init, u);
      UpdateAllPagesFlatten(init, u);
      var a, b := Flatten(init), pages[n - 1];
      assert RowsCellUpdated(a + b, u) == RowsCellUpdated(a, u) + RowsCellUpdated(b, u);
    }
  }

  /** The edits of `us`, applied in order. */
  function ApplyAll(pages: seq<seq<RowWithCells>>, us: seq<PendingUpdate>): seq<seq<RowWithCells>> {
    if us == [] then pages else UpdateAllPages(ApplyAll(pages, us[..|us| - 1]), us[|us| - 1])
  }

  // ---------------------------------------------------------------------------
  // The queue of edits to placeholder cells

  /** Two entries for the same cell. */
  predicate SamePair(u: PendingUpdate, v: PendingUpdate) {
    u.rowId == v.rowId && u.columnId == v.columnId
  }

  /** At most one queued entry per (rowId, columnId). */
  predicate UniquePairs(p: seq<PendingUpdate>) {
    forall i, j :: 0 <= i < j < |p| ==> !SamePair(p[i], p[j])
  }

  /** Every queued entry is about a placeholder row or a placeholder column. */
  predicate AboutPlaceholders(p: seq<PendingUpdate>) {
    forall u :: u in p ==> IsTemp(u.rowId) || IsTemp(u.columnId)
  }

  /** `pendingUpdates.some(update => update.rowId === rowId && update.columnId === columnId)`. */
  predicate Queued(p: seq<PendingUpdate>, u: PendingUpdate) {
    exists i :: 0 <= i < |p| && SamePair(p[i], u)
  }

  /** The `onBlur` update of the queue: replace the entry of the same cell,
      or append one. */
  function Upsert(p: seq<PendingUpdate>, u: PendingUpdate): (r: seq<PendingUpdate>)
    ensures |p| <= |r| <= |p| + 1
    ensures forall i :: 0 <= i < |p| && !SamePair(p[i], u) ==> r[i] == p[i]
  {
    if Queued(p, u) then seq(|p|, i requires 0 <= i < |p| => if SamePair(p[i], u) then u else p[i])
    else p + [u]
  }

  /** After an upsert the queue holds the edit as the only entry of its cell
      (the latest value wins), keeps every entry of every other cell, and
      still holds at most one entry per cell. */
  lemma UpsertLatestWins(p: seq<PendingUpdate>, u: PendingUpdate)
    requires UniquePairs(p)
    ensures UniquePairs(Upsert(p, u))
    ensures u in Upsert(p, u)
    ensures forall v :: v in Upsert(p, u) && SamePair(v, u) ==> v == u
    ensures forall v :: !SamePair(v, u) ==> (v in Upsert(p, u) <==> v in p)
    ensures |Upsert(p, u)| == if Queued(p, u) then |p| else |p| + 1
  {
    var r := Upsert(p, u);
    if Queued(p, u) {
      var i :| 0 <= i < |p| && SamePair(p[i], u);
      assert r[i] == u;
      forall v | !SamePair(v, u) && v in p ensures v in r {
        var j :| 0 <= j < |p| && p[j] == v;
        assert r[j] == v;
      }
    } else {
      assert r[|p|] == u;
    }
  }

  /** `onBlur` as the cell renderer runs it: the `some` test reads `snapshot`,
      the queue captured when the column definitions were last rebuilt (they
      are rebuilt only when the columns or the search change), while the
      update itself applies to the current queue `prev`. */
  function UpsertFromSnapshot(snapshot: seq<PendingUpdate>, prev: seq<PendingUpdate>, u: PendingUpdate): (r: seq<PendingUpdate>)
    ensures Queued(snapshot, u) ==> |r| == |prev|
    ensures !Queued(snapshot, u) ==> r == prev + [u]
    ensures snapshot == prev ==> r == Upsert(prev, u)
  {
    if Queued(snapshot, u) then seq(|prev|, i requires 0 <= i < |prev| => if SamePair(prev[i], u) then u else prev[i])
    else prev + [u]
  }

  /** Two edits of a cell of a new row, with no column change between them,
      queue two entries for that cell: the second `onBlur` still sees the
      queue from before the first. Both are replayed, in order, once the row
      is created. */
  lemma StaleSnapshotQueuesTwice(tempRow: Id, col: Id, realRow: Id)
    requires IsTemp(tempRow)
    ensures
      var a, b := PendingUpdate(tempRow, col, "a"), PendingUpdate(tempRow, col, "b");
      var q := UpsertFromSnapshot([], UpsertFromSnapshot([], [], a), b);
      q == [a, b] && !UniquePairs(q)
      && Replays(q, RowSide, tempRow, realRow) == [PendingUpdate(realRow, col, "a"), PendingUpdate(realRow, col, "b")]
  {
    var a, b := PendingUpdate(tempRow, col, "a"), PendingUpdate(tempRow, col, "b");
    var q := [a, b];
    assert !Queued([], a) && !Queued([], b);
    assert SamePair(q[0], q[1]);
    assert q[1..] == [b] && q[1..][1..] == [];
  }

  /** Which id of a queued entry a server answer settles. */
  datatype Side = RowSide | ColumnSide

  function KeyOf(u: PendingUpdate, side: Side): Id {
    if side == RowSide then u.rowId else u.columnId
  }

  function Retarget(u: PendingUpdate, side: Side, id: Id): PendingUpdate {
    if side == RowSide then u.(rowId := id) else u.(columnId := id)
  }

  /** `pendingUpdates.some(update => update.<side> === tempId)`. */
  predicate HasKey(p: seq<PendingUpdate>, side: Side, tempId: Id) {
    exists i :: 0 <= i < |p| && KeyOf(p[i], side) == tempId
  }

  /** The queue after a success: the entries not about the created id. */
  function Kept(p: seq<PendingUpdate>, side: Side, tempId: Id): (r: seq<PendingUpdate>)
    ensures |r| <= |p|
    ensures forall u :: u in r <==> u in p && KeyOf(u, side) != tempId
  {
    if p == [] then []
    else (if KeyOf(p[0], side) == tempId then [] else [p[0]]) + Kept(p[1..], side, tempId)
  }

  /** The edits replayed after a success: the entries about the created id,
      in queue order, retargeted to the server's id. */
  function Replays(p: seq<PendingUpdate>, side: Side, tempId: Id, realId: Id): (r: seq<PendingUpdate>)
    ensures |r| + |Kept(p, side, tempId)| == |p|
    ensures forall v :: v in r ==> KeyOf(v, side) == realId
  {
    if p == [] then []
    else
      var head := if KeyOf(p[0], side) == tempId then [Retarget(p[0], side, realId)] else [];
      head + Replays(p[1..], side, tempId, realId)
  }

  /** Every entry about the created id is replayed with the server's id. */
  lemma {:induction false} ReplaysComplete(p: seq<PendingUpdate>, side: Side, tempId: Id, realId: Id, u: PendingUpdate)
    requires u in p && KeyOf(u, side) == tempId
    ensures Retarget(u, side, realId) in Replays(p, side, tempId, realId)
  {
    if p[0] != u {
      ReplaysComplete(p[1..], side, tempId, realId, u);
    }
  }

  /** Without an entry about the created id there is nothing to replay and the
      queue is unchanged: the source's `some` guard changes nothing. */
  lemma {:induction false} NothingToReplay(p: seq<PendingUpdate>, side: Side, tempId: Id, realId: Id)
    requires !HasKey(p, side, tempId)
    ensures Replays(p, side, tempId, realId) == [] && Kept(p, side, tempId) == p
  {
    if p != [] {
      assert !HasKey(p[1..], side, tempId) by {
        forall i | 0 <= i < |p[1..]| ensures KeyOf(p[1..][i], side) != tempId {
          assert p[1..][i] == p[i + 1];
        }
      }
      NothingToReplay(p[1..], side, tempId, realId);
    }
  }

  lemma UniqueCons(x: PendingUpdate, w: seq<PendingUpdate>)
    requires UniquePairs(w) && forall v :: v in w ==> !SamePair(x, v)
    ensures UniquePairs([x] + w)
  {
    var r := [x] + w;
    forall i, j | 0 <= i < j < |r| ensures !SamePair(r[i], r[j]) {
      assert r[j] == w[j - 1] && w[j - 1] in w;
      if i > 0 {
        assert r[i] == w[i - 1];
      }
    }
  }

  /** Dropping entries keeps a well-formed queue well formed. */
  lemma {:induction false} KeptWellFormed(p: seq<PendingUpdate>, side: Side, tempId: Id)
    requires UniquePairs(p) && AboutPlaceholders(p)
    ensures UniquePairs(Kept(p, side, tempId)) && AboutPlaceholders(Kept(p, side, tempId))
  {
    if p != [] {
      var t := p[1..];
      assert UniquePairs(t) by {
        forall i, j | 0 <= i < j < |t| ensures !SamePair(t[i], t[j]) {
          assert t[i] == p[i + 1] && t[j] == p[j + 1];
        }
      }
      assert forall u :: u in t ==> u in p;
      KeptWellFormed(t, side, tempId);
      if KeyOf(p[0], side) != tempId {
        var w := Kept(t, side, tempId);
        forall v | v in w ensures !SamePair(p[0], v) {
          var m :| 0 <= m < |t| && t[m] == v;
          assert t[m] == p[m + 1];
        }
        UniqueCons(p[0], w);
      }
    }
  }

  /** A queued edit on a placeholder row and a placeholder column, when the
      column is created first, is sent at once with the row's temporary id
      and leaves the queue, so the row's creation later has nothing to replay. */
  lemma ColumnFirstSendsTempRow(tempRow: Id, tempCol: Id, realCol: Id, realRow: Id, value: string)
    requires IsTemp(tempRow)
    ensures
      var p := [PendingUpdate(tempRow, tempCol, value)];
      Replays(p, ColumnSide, tempCol, realCol) == [PendingUpdate(tempRow, realCol, value)]
      && Kept(p, ColumnSide, tempCol) == []
      && Replays(Kept(p, ColumnSide, tempCol), RowSide, tempRow, realRow) == []
  {
    var p := [PendingUpdate(tempRow, tempCol, value)];
    assert p[1..] == [];
  }

  // ---------------------------------------------------------------------------
  // Columns and views

  /** The temp column given the server's id; nothing else changes. */
  function ColumnRenamed(cols: seq<Column>, tempId: Id, realId: Id): (r: seq<Column>)
    ensures |r| == |cols|
    ensures forall i :: 0 <= i < |cols| ==>
      r[i].(id := cols[i].id) == cols[i] && r[i].id == if cols[i].id == tempId then realId else cols[i].id
  {
    seq(|cols|, i requires 0 <= i < |cols| => if cols[i].id == tempId then cols[i].(id := realId) else cols[i])
  }

  /** Renaming to an id not yet shown keeps the column ids apart. */
  lemma ColumnRenamedDistinct(cols: seq<Column>, tempId: Id, realId: Id)
    requires Distinct(ColumnIds(cols)) && realId !in ColumnIds(cols)
    ensures Distinct(ColumnIds(ColumnRenamed(cols, tempId, realId)))
  {
    var ids := ColumnIds(cols);
    var r := ColumnIds(ColumnRenamed(cols, tempId, realId));
    assert forall i :: 0 <= i < |ids| ==> r[i] == if ids[i] == tempId then realId else ids[i];
    forall i, j | 0 <= i < j < |r| ensures r[i] != r[j] {
      assert ids[i] != ids[j];
      assert ids[i] in ids && ids[j] in ids;
    }
  }

  /** A view with the new column switched on; every other key keeps its value. */
  function Shown(view: View, columnId: Id): (r: View)
    ensures r.(columnVisibility := view.columnVisibility) == view
    ensures r.columnVisibility.Keys == view.columnVisibility.Keys + {columnId} && r.columnVisibility[columnId]
    ensures forall k :: k in view.columnVisibility && k != columnId ==> r.columnVisibility[k] == view.columnVisibility[k]
  {
    view.(columnVisibility := view.columnVisibility[columnId := true])
  }

  function ShownInAll(views: seq<View>, columnId: Id): (r: seq<View>)
    ensures |r| == |views| && forall i :: 0 <= i < |views| ==> r[i] == Shown(views[i], columnId)
  {
    seq(|views|, i requires 0 <= i < |views| => Shown(views[i], columnId))
  }

  // ---------------------------------------------------------------------------
  // Rows as the table widget reads them

  /** `row.cells.reduce((acc, cell) => { acc[cell.columnId] = cell.value; ... }, {})`. */
  function CellMap(cells: seq<Cell>): (m: map<Id, string>)
    ensures forall k :: k in m <==> exists c :: c in cells && c.columnId == k
  {
    if cells == [] then map[]
    else CellMap(cells[..|cells| - 1])[cells[|cells| - 1].columnId := cells[|cells| - 1].value]
  }

  /** `{ rowId: row.id, ...reduce }`: a cell keyed "rowId" would shadow the id. */
  function Record(row: RowWithCells): (r: map<string, string>)
    ensures "rowId" in r
    ensures forall c :: c in row.cells ==> c.columnId in r
  {
    map["rowId" := row.id] + CellMap(row.cells)
  }

  /** The record holds a key per column that has a cell, and the value of the
      last such cell: a later cell overwrites an earlier one. */
  lemma {:induction false} LastCellWins(cells: seq<Cell>, k: nat)
    requires k < |cells|
    requires forall j :: k < j < |cells| ==> cells[j].columnId != cells[k].columnId
    ensures cells[k].columnId in CellMap(cells) && CellMap(cells)[cells[k].columnId] == cells[k].value
  {
    var n := |cells|;
    if k < n - 1 {
      var init := cells[..n - 1];
      assert init[k] == cells[k];
      assert forall j :: k < j < |init| ==> init[j] == cells[j];
      LastCellWins(init, k);
    }
  }

  /** A column without a cell has no key. */
  lemma {:induction false} NoCellNoKey(cells: seq<Cell>, columnId: Id)
    requires forall c :: c in cells ==> c.columnId != columnId
    ensures columnId !in CellMap(cells)
  {
    if cells != [] {
      var init := cells[..|cells| - 1];
      assert forall c :: c in init ==> c in cells;
      NoCellNoKey(init, columnId);
    }
  }

  /** Unless a cell's column is literally "rowId", the record carries the row's id. */
  lemma RecordKeepsRowId(row: RowWithCells)
    requires forall c :: c in row.cells ==> c.columnId != "rowId"
    ensures Record(row)["rowId"] == row.id
  {
    NoCellNoKey(row.cells, "rowId");
  }

  // ---------------------------------------------------------------------------
  // The component's state

  /** What `createRow.onMutate` hands to `onSuccess`. */
  datatype RowContext = RowContext(previousRows: seq<RowWithCells>, tableId: Id, tempId: Id)

  /** What `createColumn.onMutate` hands to `onSuccess`. */
  datatype ColumnContext = ColumnContext(previousColumns: seq<Column>, previousRows: seq<RowWithCells>, tableId: Id, tempId: Id)

  /** The grid component's client state: the rows and columns it shows, the
      views, the queue of edits to placeholder cells, and the cached pages of
      the infinite query. `sent` records, in order, the `updateCell` calls
      handed to the server. */
  class Grid {
    const tableId: Id
    var localRows: seq<RowWithCells>
    var localColumns: seq<Column>
    var allColumns: seq<Column>
    var localViews: seq<View>
    var selectedView: View
    var pendingUpdates: seq<PendingUpdate>
    var pages: seq<seq<RowWithCells>>
    var sent: seq<PendingUpdate>

    /** The shown rows are the cached pages joined, as the effect on the
        query's data leaves them. */
    predicate Synced()
      reads this
    {
      localRows == Flatten(pages)
    }

    /** The queue holds at most one entry per cell, each about a placeholder. */
    predicate QueueWellFormed()
      reads this
    {
      UniquePairs(pendingUpdates) && AboutPlaceholders(pendingUpdates)
    }

    constructor(tableId: Id, columns: seq<Column>, views: seq<View>, selected: View)
      ensures this.tableId == tableId && localColumns == columns && allColumns == columns
      ensures localViews == views && selectedView == selected
      ensures localRows == [] && pages == [] && pendingUpdates == [] && sent == []
      ensures Synced() && QueueWellFormed()
    {
      this.tableId := tableId;
      localRows := [];
      localColumns := columns;
      allColumns := columns;
      localViews := views;
      selectedView := selected;
      pendingUpdates := [];
      pages := [];
      sent := [];
    }

    /** The `start` of the next page request. */
    function NextStart(): (start: nat)
      reads this
      ensures start == |pages| * FetchSize
    {
      PageStart(|pages|)
    }

    /** A page arrives: it joins the cache, and the effect on the query's data
        shows the cached rows. */
    method ReceivePage(page: seq<RowWithCells>)
      modifies this
      ensures pages == old(pages) + [page] && localRows == Flatten(pages) && Synced()
      ensures localColumns == old(localColumns) && allColumns == old(allColumns)
      ensures localViews == old(localViews) && selectedView == old(selectedView)
      ensures pendingUpdates == old(pendingUpdates) && sent == old(sent)
    {
      pages := pages + [page];
      assert pages[..|pages| - 1] == old(pages);
      localRows := Flatten(pages);
    }

    /** The effect on the query's data on its own: the shown rows are reset to
        the cache. */
    method SyncFromCache()
      modifies this
      ensures localRows == Flatten(pages) && Synced()
      ensures pages == old(pages) && localColumns == old(localColumns) && allColumns == old(allColumns)
      ensures localViews == old(localViews) && selectedView == old(selectedView)
      ensures pendingUpdates == old(pendingUpdates) && sent == old(sent)
    {
      localRows := Flatten(pages);
    }

    /** `createRow.onMutate`: the placeholder row is shown at once and joins the
        last cached page. */
    method CreateRowMutate(now: nat) returns (ctx: RowContext)
      modifies this
      ensures ctx == RowContext(old(localRows), tableId, TempRowId(now))
      ensures localRows == old(localRows) + [Placeholder(TempRowId(now), tableId, now, localColumns)]
      ensures pages == AppendToLastPage(old(pages), Placeholder(TempRowId(now), tableId, now, localColumns))
      ensures old(Synced()) && old(pages) != [] ==> Synced()
      ensures localColumns == old(localColumns) && allColumns == old(allColumns)
      ensures localViews == old(localViews) && selectedView == old(selectedView)
      ensures pendingUpdates == old(pendingUpdates) && sent == old(sent)
    {
      var tempId := TempRowId(now);
      var row := Placeholder(tempId, tableId, now, localColumns);
      ctx := RowContext(localRows, tableId, tempId);
      localRows := localRows + [row];
      pages := AppendToLastPage(pages, row);
    }

    /** `updateCell.onMutate`: the edit is shown in every cached page. */
    method UpdateCellMutate(u: PendingUpdate)
      modifies this
      ensures pages == UpdateAllPages(old(pages), u)
      ensures Flatten(pages) == RowsCellUpdated(Flatten(old(pages)), u)
      ensures localRows == old(localRows) && localColumns == old(localColumns) && allColumns == old(allColumns)
      ensures localViews == old(localViews) && selectedView == old(selectedView)
      ensures pendingUpdates == old(pendingUpdates) && sent == old(sent)
    {
      pages := UpdateAllPages(pages, u);
      UpdateAllPagesFlatten(old(pages), u);
    }

    /** `updateCell.mutate`: the edit is shown and handed to the server. */
    method MutateCell(u: PendingUpdate)
      modifies this
      ensures pages == UpdateAllPages(old(pages), u) && sent == old(sent) + [u]
      ensures localRows == old(localRows) && localColumns == old(localColumns) && allColumns == old(allColumns)
      ensures localViews == old(localViews) && selectedView == old(selectedView)
      ensures pendingUpdates == old(pendingUpdates)
    {
      UpdateCellMutate(u);
      sent := sent + [u];
    }

    /** `cellsToUpdate.forEach(cell => updateCell.mutate(...))`. */
    method Replay(us: seq<PendingUpdate>)
      modifies this
      ensures pages == ApplyAll(old(pages), us) && sent == old(sent) + us
      ensures localRows == old(localRows) && localColumns == old(localColumns) && allColumns == old(allColumns)
      ensures localViews == old(localViews) && selectedView == old(selectedView)
      ensures pendingUpdates == old(pendingUpdates)
    {
      for i := 0 to |us|
        invariant pages == ApplyAll(old(pages), us[..i]) && sent == old(sent) + us[..i]
        invariant localRows == old(localRows) && localColumns == old(localColumns) && allColumns == old(allColumns)
        invariant localViews == old(localViews) && selectedView == old(selectedView)
        invariant pendingUpdates == old(pendingUpdates)
      {
        MutateCell(us[i]);
        assert us[..i + 1][..i] == us[..i];
      }
      assert us[..|us|] == us;
    }

    /** `createRow.onSuccess`. With no row from the server only the shown rows
        are restored; an answer for another table is ignored. Otherwise the
        queued edits of the placeholder row leave the queue and are sent with
        the server's id, and the placeholder in the last cached page takes the
        server's id. The replayed edits are shown after the rename, since a
        mutation's `onMutate` runs only once the current callback has returned. */
    method CreateRowSucceed(ctx: RowContext, created: Option<Id>)
      modifies this
      ensures created.None? ==>
        localRows == ctx.previousRows && pages == old(pages)
        && pendingUpdates == old(pendingUpdates) && sent == old(sent)
      ensures created.Some? && ctx.tableId != tableId ==>
        localRows == old(localRows) && pages == old(pages)
        && pendingUpdates == old(pendingUpdates) && sent == old(sent)
      ensures created.Some? && ctx.tableId == tableId ==>
        var replays := Replays(old(pendingUpdates), RowSide, ctx.tempId, created.value);
        localRows == old(localRows)
        && pendingUpdates == Kept(old(pendingUpdates), RowSide, ctx.tempId)
        && sent == old(sent) + replays
        && pages == ApplyAll(RowRenamedInLastPage(old(pages), ctx.tempId, created.value), replays)
      ensures old(QueueWellFormed()) ==> QueueWellFormed()
      ensures localColumns == old(localColumns) && allColumns == old(allColumns)
      ensures localViews == old(localViews) && selectedView == old(selectedView)
    {
      if created.None? {
        localRows := ctx.previousRows;
        return;
      }
      if ctx.tableId != tableId {
        return;
      }
      var realId := created.value;
      var replays: seq<PendingUpdate> := [];
      if |pendingUpdates| > 0 && HasKey(pendingUpdates, RowSide, ctx.tempId) {
        replays := Replays(pendingUpdates, RowSide, ctx.tempId, realId);
        pendingUpdates := Kept(pendingUpdates, RowSide, ctx.tempId);
      } else {
        NothingToReplay(pendingUpdates, RowSide, ctx.tempId, realId);
      }
      if old(QueueWellFormed()) {
        KeptWellFormed(old(pendingUpdates), RowSide, ctx.tempId);
      }
      pages := RowRenamedInLastPage(pages, ctx.tempId, realId);
      Replay(replays);
    }

    /** `createColumn.onMutate` (after `handleCreateColumn` picks the name):
        the placeholder column is shown at once, and every row of the last
        cached page gets an empty cell for it. */
    method CreateColumnMutate(typedName: string, columnType: ColumnType, now: nat) returns (ctx: ColumnContext)
      modifies this
      ensures ctx == ColumnContext(old(localColumns), old(localRows), tableId, TempColumnId(now))
      ensures
        var placeholder := Column(TempColumnId(now), NewColumnName(typedName, |old(localColumns)|), columnType, tableId, now);
        localColumns == old(localColumns) + [placeholder] && allColumns == old(allColumns) + [placeholder]
      ensures pages == BlankCellInLastPage(old(pages), TempColumnId(now))
      ensures localRows == old(localRows) && localViews == old(localViews) && selectedView == old(selectedView)
      ensures pendingUpdates == old(pendingUpdates) && sent == old(sent)
    {
      var tempId := TempColumnId(now);
      var placeholder := Column(tempId, NewColumnName(typedName, |localColumns|), columnType, tableId, now);
      ctx := ColumnContext(localColumns, localRows, tableId, tempId);
      localColumns := localColumns + [placeholder];
      allColumns := allColumns + [placeholder];
      pages := BlankCellInLastPage(pages, tempId);
    }

    /** `createColumn.onSuccess`. With no column from the server the shown
        columns and rows are restored; an answer for another table is
        ignored. Otherwise the placeholder takes the server's id in both
        column lists, every view and the selected view show the new column,
        the queued edits of the placeholder column are sent with the
        server's id, and the last cached page's cells are renamed. */
    method CreateColumnSucceed(ctx: ColumnContext, created: Option<Id>)
      modifies this
      ensures created.None? ==>
        localColumns == ctx.previousColumns && localRows == ctx.previousRows
        && allColumns == old(allColumns) && localViews == old(localViews) && selectedView == old(selectedView)
        && pages == old(pages) && pendingUpdates == old(pendingUpdates) && sent == old(sent)
      ensures created.Some? && ctx.tableId != tableId ==>
        localColumns == old(localColumns) && localRows == old(localRows)
        && allColumns == old(allColumns) && localViews == old(localViews) && selectedView == old(selectedView)
        && pages == old(pages) && pendingUpdates == old(pendingUpdates) && sent == old(sent)
      ensures created.Some? && ctx.tableId == tableId ==>
        var replays := Replays(old(pendingUpdates), ColumnSide, ctx.tempId, created.value);
        localRows == old(localRows)
        && localColumns == ColumnRenamed(old(localColumns), ctx.tempId, created.value)
        && allColumns == ColumnRenamed(old(allColumns), ctx.tempId, created.value)
        && localViews == ShownInAll(old(localViews), created.value)
        && selectedView == Shown(old(selectedView), created.value)
        && pendingUpdates == Kept(old(pendingUpdates), ColumnSide, ctx.tempId)
        && sent == old(sent) + replays
        && pages == ApplyAll(ColumnRenamedInLastPage(old(pages), ctx.tempId, created.value), replays)
      ensures old(QueueWellFormed()) ==> QueueWellFormed()
    {
      if created.None? {
        localColumns := ctx.previousColumns;
        localRows := ctx.previousRows;
        return;
      }
      if ctx.tableId != tableId {
        return;
      }
      var realId := created.value;
      localColumns := ColumnRenamed(localColumns, ctx.tempId, realId);
      allColumns := ColumnRenamed(allColumns, ctx.tempId, realId);
      localViews := ShownInAll(localViews, realId);
      selectedView := Shown(selectedView, realId);
      var replays: seq<PendingUpdate> := [];
      if |pendingUpdates| > 0 && HasKey(pendingUpdates, ColumnSide, ctx.tempId) {
        replays := Replays(pendingUpdates, ColumnSide, ctx.tempId, realId);
        pendingUpdates := Kept(pendingUpdates, ColumnSide, ctx.tempId);
      } else {
        NothingToReplay(pendingUpdates, ColumnSide, ctx.tempId, realId);
      }
      if old(QueueWellFormed()) {
        KeptWellFormed(old(pendingUpdates), ColumnSide, ctx.tempId);
      }
      pages := ColumnRenamedInLastPage(pages, ctx.tempId, realId);
      Replay(replays);
    }

    /** The cell editor's `onBlur`: an edit of a placeholder row or column
        waits in the queue (replacing an earlier edit of the same cell);
        any other edit goes to the server at once. */
    method OnBlur(rowId: Id, columnId: Id, value: string)
      modifies this
      ensures IsTemp(rowId) || IsTemp(columnId) ==>
        pendingUpdates == Upsert(old(pendingUpdates), PendingUpdate(rowId, columnId, value))
        && pages == old(pages) && sent == old(sent)
      ensures !(IsTemp(rowId) || IsTemp(columnId)) ==>
        pendingUpdates == old(pendingUpdates)
        && pages == UpdateAllPages(old(pages), PendingUpdate(rowId, columnId, value))
        && sent == old(sent) + [PendingUpdate(rowId, columnId, value)]
      ensures old(QueueWellFormed()) ==> QueueWellFormed()
      ensures localRows == old(localRows) && localColumns == old(localColumns) && allColumns == old(allColumns)
      ensures localViews == old(localViews) && selectedView == old(selectedView)
    {
      var u := PendingUpdate(rowId, columnId, value);
      if IsTemp(rowId) || IsTemp(columnId) {
        if UniquePairs(pendingUpdates) {
          UpsertLatestWins(pendingUpdates, u);
        }
        pendingUpdates := Upsert(pendingUpdates, u);
      } else {
        MutateCell(u);
      }
    }
  }
}

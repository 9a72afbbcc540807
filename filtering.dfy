/** The filter stage of `getRowsFilteredSorted` (src/server/api/routers/row.ts):
    a row is kept when its cells pass the view's filters, which are read in
    order and may settle the row early. */
module Filtering {
  import opened Model
  import opened Text

  /** The position of the first cell of `columnId` (`cells.find`), or `|cells|`. */
  function FindCellIndex(cells: seq<Cell>, columnId: Id): (k: nat)
    ensures k <= |cells|
    ensures k < |cells| ==> cells[k].columnId == columnId
    ensures forall j :: 0 <= j < k ==> cells[j].columnId != columnId
  {
    if cells == [] then 0
    else if cells[0].columnId == columnId then 0
    else 1 + FindCellIndex(cells[1..], columnId)
  }

  function FindCell(cells: seq<Cell>, columnId: Id): Option<Cell> {
    var k := FindCellIndex(cells, columnId);
    if k < |cells| then Some(cells[k]) else None
  }

  /** What one filter says about a row: accept the whole row now, reject it
      now, or go on with the next filter. */
  datatype Verdict = Accept | Reject | Next

  const KnownOperators: set<string> :=
    {"contains", "not_contains", "equals", "is_empty", "is_not_empty", "greater_than", "less_than"}

  /** The `switch` on the operator for a cell that exists. */
  function Judge(value: string, f: ColumnFilter): Verdict {
    if f.operator == "contains" then
      if f.operand == "" then Accept
      else if !Contains(value, f.operand) then Reject
      else Next
    else if f.operator == "not_contains" then
      if f.operand == "" then Accept
      else if Contains(value, f.operand) then Reject
      else Next
    else if f.operator == "equals" then
      if f.operand == "" then Accept
      else if value != f.operand then Reject
      else Next
    else if f.operator == "is_empty" then
      if value != "" then Reject else Next
    else if f.operator == "is_not_empty" then
      if value == "" then Reject else Next
    else if f.operator == "greater_than" then
      match (ParseNum(value), ParseNum(f.operand))
      case (Some(x), Some(y)) => if x <= y then Reject else Next
      case _ => Next
    else if f.operator == "less_than" then
      match (ParseNum(value), ParseNum(f.operand))
      case (Some(x), Some(y)) => if x >= y then Reject else Next
      case _ => Next
    else Next
  }

  /** One filter against a row's cells: a row without a cell for the filter's
      column is rejected. */
  function EntryVerdict(cells: seq<Cell>, f: ColumnFilter): Verdict {
    match FindCell(cells, f.id)
    case None => Reject
    case Some(c) => Judge(c.value, f)
  }

  /** The body of `rows.filter(...)`: the filters in order, stopping at the
      first that accepts or rejects. */
  function RowPasses(cells: seq<Cell>, fs: seq<ColumnFilter>): (r: bool)
    ensures (forall j :: 0 <= j < |fs| ==> EntryVerdict(cells, fs[j]) != Reject) ==> r
  {
    if fs == [] then true
    else match EntryVerdict(cells, fs[0])
      case Accept => true
      case Reject => false
      case Next => RowPasses(cells, fs[1..])
  }

  /** Filter `i` is where the row is settled in its favour: every filter before
      it said "next", and it accepts or is past the end of the list. */
  ghost predicate SettlesAt(cells: seq<Cell>, fs: seq<ColumnFilter>, i: int) {
    && 0 <= i <= |fs|
    && (forall j :: 0 <= j < i ==> EntryVerdict(cells, fs[j]) == Next)
    && (i == |fs| || EntryVerdict(cells, fs[i]) == Accept)
  }

  /** A row passes exactly when some filter settles it in its favour. */
  lemma {:induction false} RowPassesIff(cells: seq<Cell>, fs: seq<ColumnFilter>)
    ensures RowPasses(cells, fs) <==> exists i :: SettlesAt(cells, fs, i)
  {
    if fs == [] {
      assert SettlesAt(cells, fs, 0);
    } else {
      match EntryVerdict(cells, fs[0])
      case Accept =>
        assert SettlesAt(cells, fs, 0);
      case Reject =>
        assert forall i :: SettlesAt(cells, fs, i) ==> EntryVerdict(cells, fs[0]) != Reject;
      case Next =>
        RowPassesIff(cells, fs[1..]);
        if RowPasses(cells, fs[1..]) {
          var i :| SettlesAt(cells, fs[1..], i);
          assert SettlesAt(cells, fs, i + 1) by {
            forall j | 0 <= j < i + 1 ensures EntryVerdict(cells, fs[j]) == Next {
              if j > 0 { assert fs[j] == fs[1..][j - 1]; }
            }
          }
        } else {
          forall i | SettlesAt(cells, fs, i) ensures false {
            assert i > 0;
            assert SettlesAt(cells, fs[1..], i - 1) by {
              forall j | 0 <= j < i - 1 ensures EntryVerdict(cells, fs[1..][j]) == Next {
                assert fs[1..][j] == fs[j + 1];
              }
            }
          }
        }
    }
  }

  /** Only `contains`, `not_contains` and `equals` with an empty operand accept
      a row outright. */
  lemma AcceptIff(value: string, f: ColumnFilter)
    ensures Judge(value, f) == Accept <==>
      f.operator in {"contains", "not_contains", "equals"} && f.operand == ""
  {
  }

  /** Once a filter accepts, whatever the later filters say is never looked at. */
  lemma {:induction false} AcceptIgnoresLaterFilters(cells: seq<Cell>, fs: seq<ColumnFilter>, i: nat, later: seq<ColumnFilter>)
    requires i < |fs|
    requires forall j :: 0 <= j < i ==> EntryVerdict(cells, fs[j]) == Next
    requires EntryVerdict(cells, fs[i]) == Accept
    ensures RowPasses(cells, fs[..i + 1] + later)
  {
    if i > 0 {
      assert (fs[..i + 1] + later)[1..] == fs[1..][..i] + later;
      AcceptIgnoresLaterFilters(cells, fs[1..], i - 1, later);
    }
  }

  /** A filter whose column the row lacks ends the row's chances, unless an
      earlier filter already accepted it. */
  lemma {:induction false} MissingCellRejects(cells: seq<Cell>, fs: seq<ColumnFilter>, i: nat)
    requires i < |fs|
    requires forall j :: 0 <= j < i ==> EntryVerdict(cells, fs[j]) == Next
    requires forall k :: 0 <= k < |cells| ==> cells[k].columnId != fs[i].id
    ensures !RowPasses(cells, fs)
  {
    if i > 0 {
      MissingCellRejects(cells, fs[1..], i - 1);
    }
  }

  /** `is_empty` and `is_not_empty` look only at the cell, never at the operand. */
  lemma EmptinessIgnoresOperand(value: string, f: ColumnFilter, operand: string)
    requires f.operator == "is_empty" || f.operator == "is_not_empty"
    ensures Judge(value, f) == Judge(value, f.(operand := operand))
    ensures Judge(value, f) == Reject <==> (value == "") == (f.operator == "is_not_empty")
  {
  }

  /** Operators the switch does not know, the client's `smaller_than` among
      them, reject nothing. */
  lemma UnknownOperatorRejectsNothing(value: string, f: ColumnFilter)
    requires f.operator !in KnownOperators
    ensures Judge(value, f) == Next
  {
  }

  /** With a non-empty operand, `contains` lets the row through exactly when
      the operand occurs in the cell, and `not_contains` exactly when it does not. */
  lemma SubstringSemantics(value: string, f: ColumnFilter)
    requires f.operand != ""
    ensures f.operator == "contains" ==>
      (Judge(value, f) == Next <==> exists i :: OccursAt(value, f.operand, i))
    ensures f.operator == "not_contains" ==>
      (Judge(value, f) == Next <==> !exists i :: OccursAt(value, f.operand, i))
  {
    ContainsIff(value, f.operand);
  }

  /** The numeric comparisons reject only when both sides are numbers and the
      comparison fails; a side that is not a number (NaN) never rejects. */
  lemma NumericSemantics(value: string, f: ColumnFilter)
    ensures f.operator == "greater_than" ==>
      (Judge(value, f) == Reject <==>
        ParseNum(value).Some? && ParseNum(f.operand).Some? && ParseNum(value).value <= ParseNum(f.operand).value)
    ensures f.operator == "less_than" ==>
      (Judge(value, f) == Reject <==>
        ParseNum(value).Some? && ParseNum(f.operand).Some? && ParseNum(value).value >= ParseNum(f.operand).value)
  {
  }

  /** A filter that can accept a row outright. */
  predicate AcceptShaped(f: ColumnFilter) {
    f.operator in {"contains", "not_contains", "equals"} && f.operand == ""
  }

  /** When no filter can accept outright, the filters are a plain conjunction:
      the row passes exactly when none of them rejects it. */
  lemma {:induction false} ConjunctionWithoutShortcut(cells: seq<Cell>, fs: seq<ColumnFilter>)
    requires forall j :: 0 <= j < |fs| ==> !AcceptShaped(fs[j])
    ensures RowPasses(cells, fs) <==> forall j :: 0 <= j < |fs| ==> EntryVerdict(cells, fs[j]) != Reject
  {
    if fs != [] {
      assert EntryVerdict(cells, fs[0]) != Accept;
      ConjunctionWithoutShortcut(cells, fs[1..]);
      assert forall j :: 0 < j < |fs| ==> fs[j] == fs[1..][j - 1];
    }
  }

  /** `a` is an order-preserving subsequence of `b`. */
  ghost predicate IsSubsequence<T>(a: seq<T>, b: seq<T>)
    decreases |b|
  {
    if a == [] then true
    else if b == [] then false
    else (a[0] == b[0] && IsSubsequence(a[1..], b[1..])) || IsSubsequence(a, b[1..])
  }

  /** `rows.filter(row => RowPasses(row.cells, fs))`. */
  function KeepPassing(rows: seq<RowWithCells>, fs: seq<ColumnFilter>): (r: seq<RowWithCells>)
    ensures |r| <= |rows|
    ensures forall x :: x in r <==> x in rows && RowPasses(x.cells, fs)
    ensures IsSubsequence(r, rows)
  {
    if rows == [] then []
    else
      var rest := KeepPassing(rows[1..], fs);
      if RowPasses(rows[0].cells, fs) then
        assert ([rows[0]] + rest)[1..] == rest;
        [rows[0]] + rest
      else rest
  }

  /** Filtering distributes over concatenation, so each row's fate depends on
      that row alone and the kept rows stay in their fetched order. */
  lemma {:induction false} KeepPassingAppend(a: seq<RowWithCells>, b: seq<RowWithCells>, fs: seq<ColumnFilter>)
    ensures KeepPassing(a + b, fs) == KeepPassing(a, fs) + KeepPassing(b, fs)
  {
    if a == [] {
      assert a + b == b;
    } else {
      assert (a + b)[1..] == a[1..] + b;
      KeepPassingAppend(a[1..], b, fs);
    }
  }

  /** The filter stage: filtering runs only when the view has filters. */
  function FilterRows(rows: seq<RowWithCells>, fs: seq<ColumnFilter>): (r: seq<RowWithCells>)
    ensures |r| <= |rows|
    ensures forall x :: x in r <==> x in rows && RowPasses(x.cells, fs)
  {
    if |fs| > 0 then KeepPassing(rows, fs) else rows
  }

  /** With no filters every row passes, so skipping the stage for an empty
      list changes nothing. */
  lemma {:induction false} FilterRowsIsKeepPassing(rows: seq<RowWithCells>, fs: seq<ColumnFilter>)
    ensures FilterRows(rows, fs) == KeepPassing(rows, fs)
  {
    if fs == [] {
      NoFiltersKeepAll(rows);
    }
  }

  lemma {:induction false} NoFiltersKeepAll(rows: seq<RowWithCells>)
    ensures KeepPassing(rows, []) == rows
  {
    if rows != [] {
      NoFiltersKeepAll(rows[1..]);
      assert [rows[0]] + rows[1..] == rows;
    }
  }
}

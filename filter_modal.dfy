/** The filter editor of the grid (src/app/_components/basesPage/filterModal.tsx):
    an ordered list of conditions, each naming a column, an operator and an
    operand, addressed by a per-editor `rowId`. */
module FilterModal {
  import opened Model
  import opened Text
  import opened Filtering

  /** One line of the editor: `{ rowId, id, value: { operator, value } }`. */
  datatype Condition = Condition(rowId: int, id: Id, operator: string, operand: string)

  /** The filter a condition stands for once saved in a view. */
  function FilterOf(c: Condition): ColumnFilter {
    ColumnFilter(c.id, c.operator, c.operand)
  }

  function FiltersOf(cs: seq<Condition>): (r: seq<ColumnFilter>)
    ensures |r| == |cs| && forall i :: 0 <= i < |cs| ==> r[i] == FilterOf(cs[i])
  {
    seq(|cs|, i requires 0 <= i < |cs| => FilterOf(cs[i]))
  }

  function RowIds(cs: seq<Condition>): (r: seq<int>)
    ensures |r| == |cs| && forall i :: 0 <= i < |cs| ==> r[i] == cs[i].rowId
  {
    seq(|cs|, i requires 0 <= i < |cs| => cs[i].rowId)
  }

  /** Every condition is addressed by its position, as right after opening. */
  predicate RowIdsArePositions(cs: seq<Condition>) {
    forall i :: 0 <= i < |cs| ==> cs[i].rowId == i
  }

  /** A blank condition on the first column, or the `TypeError` that reading
      `columns[0].id` throws when there is no column. */
  function BlankCondition(rowId: int, columns: seq<Column>): (r: Result<Condition>)
    ensures r.Ok? <==> columns != []
    ensures r.Ok? ==> r.value == Condition(rowId, columns[0].id, "", "")
  {
    if columns == [] then Err("Cannot read properties of undefined (reading 'id')")
    else Ok(Condition(rowId, columns[0].id, "", ""))
  }

  /** The initial `conditions`: the stored filters numbered by position, or,
      when the view has no filter list at all, one blank condition. */
  function InitialConditions(stored: Option<seq<ColumnFilter>>, columns: seq<Column>): (r: Result<seq<Condition>>)
    ensures stored.Some? ==> r.Ok? && FiltersOf(r.value) == stored.value && RowIdsArePositions(r.value)
    ensures stored.None? ==> (r.Ok? <==> columns != [])
    ensures stored.None? && r.Ok? ==> r.value == [Condition(0, columns[0].id, "", "")]
  {
    match stored
    case Some(fs) =>
      Ok(seq(|fs|, i requires 0 <= i < |fs| => Condition(i, fs[i].id, fs[i].operator, fs[i].operand)))
    case None =>
      match BlankCondition(0, columns)
      case Ok(c) => Ok([c])
      case Err(m) => Err(m)
  }

  /** `conditions.map(c => c.rowId === rowId ? edit(c) : c)`. */
  function EditWhere(cs: seq<Condition>, rowId: int, edit: Condition -> Condition): (r: seq<Condition>)
    ensures |r| == |cs|
    ensures forall i :: 0 <= i < |cs| ==> r[i] == if cs[i].rowId == rowId then edit(cs[i]) else cs[i]
  {
    seq(|cs|, i requires 0 <= i < |cs| => if cs[i].rowId == rowId then edit(cs[i]) else cs[i])
  }

  /** `handleColumnChange`: the new list of conditions. */
  function ColumnChanged(cs: seq<Condition>, rowId: int, columnId: Id): (r: seq<Condition>)
    ensures |r| == |cs| && RowIds(r) == RowIds(cs)
    ensures forall i :: 0 <= i < |cs| ==>
      r[i].(id := cs[i].id) == cs[i] && r[i].id == (if cs[i].rowId == rowId then columnId else cs[i].id)
  {
    EditWhere(cs, rowId, (c: Condition) => c.(id := columnId))
  }

  /** `handleOperatorChange`. */
  function OperatorChanged(cs: seq<Condition>, rowId: int, operator: string): (r: seq<Condition>)
    ensures |r| == |cs| && RowIds(r) == RowIds(cs)
    ensures forall i :: 0 <= i < |cs| ==>
      r[i].(operator := cs[i].operator) == cs[i]
      && r[i].operator == (if cs[i].rowId == rowId then operator else cs[i].operator)
  {
    EditWhere(cs, rowId, (c: Condition) => c.(operator := operator))
  }

  /** `handleFilterChange`. */
  function OperandChanged(cs: seq<Condition>, rowId: int, operand: string): (r: seq<Condition>)
    ensures |r| == |cs| && RowIds(r) == RowIds(cs)
    ensures forall i :: 0 <= i < |cs| ==>
      r[i].(operand := cs[i].operand) == cs[i]
      && r[i].operand == (if cs[i].rowId == rowId then operand else cs[i].operand)
  {
    EditWhere(cs, rowId, (c: Condition) => c.(operand := operand))
  }

  /** What `handleColumnChange` does beyond the editor: the list it hands to
      `updateColumnFilters`, and `localViews` with that list in the selected view. */
  datatype ColumnChange = ColumnChange(conditions: seq<Condition>, saved: seq<ColumnFilter>, localViews: seq<View>)

  function HandleColumnChange(cs: seq<Condition>, views: seq<View>, selectedId: Id, rowId: int, columnId: Id): (e: ColumnChange)
    ensures e.conditions == ColumnChanged(cs, rowId, columnId)
    ensures e.saved == FiltersOf(e.conditions)
    ensures |e.localViews| == |views|
    ensures forall i :: 0 <= i < |views| ==>
      e.localViews[i].(columnFilters := views[i].columnFilters) == views[i]
      && e.localViews[i].columnFilters == (if views[i].id == selectedId then e.saved else views[i].columnFilters)
  {
    var next := ColumnChanged(cs, rowId, columnId);
    var saved := FiltersOf(next);
    ColumnChange(next, saved, ReplaceSelected(views, selectedId, (v: View) => v.(columnFilters := saved)))
  }

  /** `handleAddCondition`: a blank condition on the first column, numbered by
      the current length of the list. */
  function AddCondition(cs: seq<Condition>, columns: seq<Column>): (r: Result<seq<Condition>>)
    ensures r.Ok? <==> columns != []
    ensures r.Ok? ==> r.value == cs + [Condition(|cs|, columns[0].id, "", "")]
  {
    match BlankCondition(|cs|, columns)
    case Ok(c) => Ok(cs + [c])
    case Err(m) => Err(m)
  }

  /** `handleDeleteCondition`: every condition with that `rowId` goes; the rest
      keep their order. */
  function DeleteCondition(cs: seq<Condition>, rowId: int): (r: seq<Condition>)
    ensures |r| <= |cs|
    ensures forall c :: c in r <==> c in cs && c.rowId != rowId
  {
    if cs == [] then []
    else (if cs[0].rowId == rowId then [] else [cs[0]]) + DeleteCondition(cs[1..], rowId)
  }

  lemma {:induction false} DeleteConditionConcat(a: seq<Condition>, b: seq<Condition>, rowId: int)
    ensures DeleteCondition(a + b, rowId) == DeleteCondition(a, rowId) + DeleteCondition(b, rowId)
  {
    if a == [] {
      assert a + b == b;
    } else {
      assert (a + b)[1..] == a[1..] + b;
      DeleteConditionConcat(a[1..], b, rowId);
    }
  }

  /** Opening the editor on stored filters and saving it unchanged gives the
      stored filters back. */
  lemma InitialConditionsRoundTrip(fs: seq<ColumnFilter>, columns: seq<Column>)
    ensures InitialConditions(Some(fs), columns).Ok?
    ensures FiltersOf(InitialConditions(Some(fs), columns).value) == fs
    ensures Distinct(RowIds(InitialConditions(Some(fs), columns).value))
  {
  }

  /** The `rowId` numbering stays a numbering by position while conditions are
      only added: the editor's way of keeping the ids apart. */
  lemma AddKeepsPositions(cs: seq<Condition>, columns: seq<Column>)
    requires RowIdsArePositions(cs)
    ensures AddCondition(cs, columns).Ok? ==> RowIdsArePositions(AddCondition(cs, columns).value)
  {
  }

  /** After a deletion the numbering by length repeats an id still in use:
      from conditions 0 and 1, deleting 0 and adding one gives two conditions
      numbered 1, and a later edit of "condition 1" changes both. */
  lemma AddAfterDeleteRepeatsRowId(c: Column)
    ensures
      var cs := [Condition(0, c.id, "", ""), Condition(1, c.id, "", "")];
      var after := AddCondition(DeleteCondition(cs, 0), [c]);
      after.Ok?
      && after.value == [Condition(1, c.id, "", ""), Condition(1, c.id, "", "")]
      && !Distinct(RowIds(after.value))
      && OperatorChanged(after.value, 1, "equals") == [Condition(1, c.id, "equals", ""), Condition(1, c.id, "equals", "")]
  {
    var cs := [Condition(0, c.id, "", ""), Condition(1, c.id, "", "")];
    assert DeleteCondition(cs, 0) == [Condition(1, c.id, "", "")] by {
      assert cs[1..] == [Condition(1, c.id, "", "")];
      assert DeleteCondition(cs[1..][1..], 0) == [];
    }
    var after := AddCondition(DeleteCondition(cs, 0), [c]);
    assert RowIds(after.value)[0] == RowIds(after.value)[1];
  }

  /** One more than the largest `rowId` in use, or 0 for an empty list. */
  function NextRowId(cs: seq<Condition>): (n: int)
    ensures forall i :: 0 <= i < |cs| ==> cs[i].rowId < n
    ensures cs == [] ==> n == 0
  {
    if cs == [] then 0
    else
      var init := cs[..|cs| - 1];
      var rest := NextRowId(init);
      assert forall i :: 0 <= i < |cs| - 1 ==> cs[i] == init[i];
      if cs[|cs| - 1].rowId + 1 > rest then cs[|cs| - 1].rowId + 1 else rest
  }

  /** `handleAddCondition` numbering the new condition past every id in use. */
  function AddConditionFixed(cs: seq<Condition>, columns: seq<Column>): (r: Result<seq<Condition>>)
    ensures r.Ok? <==> columns != []
    ensures r.Ok? ==> r.value == cs + [Condition(NextRowId(cs), columns[0].id, "", "")]
  {
    match BlankCondition(NextRowId(cs), columns)
    case Ok(c) => Ok(cs + [c])
    case Err(m) => Err(m)
  }

  lemma {:induction false} NextRowIdOfPositions(cs: seq<Condition>)
    requires RowIdsArePositions(cs)
    ensures NextRowId(cs) == |cs|
  {
    if cs != [] {
      var init := cs[..|cs| - 1];
      assert RowIdsArePositions(init) by {
        forall i | 0 <= i < |init| ensures init[i].rowId == i {
          assert init[i] == cs[i];
        }
      }
      NextRowIdOfPositions(init);
    }
  }

  /** With ids numbered by position the fix numbers exactly as the editor does,
      so the two differ only after a deletion. */
  lemma FixAgreesWithoutDeletes(cs: seq<Condition>, columns: seq<Column>)
    requires RowIdsArePositions(cs)
    ensures AddConditionFixed(cs, columns) == AddCondition(cs, columns)
  {
    NextRowIdOfPositions(cs);
  }

  /** With the fix, no sequence of adds, deletes and edits ever gives two
      conditions the same `rowId`. */
  lemma EditorKeepsRowIdsDistinct(cs: seq<Condition>, columns: seq<Column>, rowId: int, columnId: Id, text: string)
    requires Distinct(RowIds(cs))
    ensures AddConditionFixed(cs, columns).Ok? ==> Distinct(RowIds(AddConditionFixed(cs, columns).value))
    ensures Distinct(RowIds(DeleteCondition(cs, rowId)))
    ensures Distinct(RowIds(ColumnChanged(cs, rowId, columnId)))
    ensures Distinct(RowIds(OperatorChanged(cs, rowId, text)))
    ensures Distinct(RowIds(OperandChanged(cs, rowId, text)))
  {
    var r := AddConditionFixed(cs, columns);
    if r.Ok? {
      var ids := RowIds(r.value);
      forall i, j | 0 <= i < j < |ids| ensures ids[i] != ids[j] {
        if j < |cs| {
          assert ids[i] == RowIds(cs)[i] && ids[j] == RowIds(cs)[j];
        }
      }
    }
    DeleteKeepsDistinct(cs, rowId);
  }

  lemma {:induction false} DeleteKeepsDistinct(cs: seq<Condition>, rowId: int)
    requires Distinct(RowIds(cs))
    ensures Distinct(RowIds(DeleteCondition(cs, rowId)))
  {
    if cs != [] {
      var t := cs[1..];
      assert RowIds(cs) == [cs[0].rowId] + RowIds(t);
      DistinctCons(cs[0].rowId, RowIds(t));
      DeleteKeepsDistinct(t, rowId);
      var w := DeleteCondition(t, rowId);
      if cs[0].rowId != rowId {
        assert cs[0].rowId !in RowIds(w) by {
          forall j | 0 <= j < |w| ensures RowIds(w)[j] != cs[0].rowId {
            assert w[j] in t;
            var m :| 0 <= m < |t| && t[m] == w[j];
            assert RowIds(t)[m] == w[j].rowId;
          }
        }
        assert RowIds(DeleteCondition(cs, rowId)) == [cs[0].rowId] + RowIds(w);
        DistinctCons(cs[0].rowId, RowIds(w));
      }
    }
  }

  /** The operator `<select>` of a TEXT column. */
  const TextOperators: seq<string> := ["", "contains", "not_contains", "equals", "is_empty", "is_not_empty"]

  /** The operator `<select>` of a NUMBER column. */
  const NumberOperators: seq<string> := ["", "greater_than", "smaller_than"]

  /** The operators offered for a condition: those of the first column with
      the condition's id, or the `TypeError` of reading `.type` of `undefined`. */
  function OperatorsFor(columns: seq<Column>, cond: Condition): (r: Result<seq<string>>)
    ensures r.Ok? <==> exists i :: 0 <= i < |columns| && columns[i].id == cond.id
    ensures r.Ok? ==> r.value == TextOperators || r.value == NumberOperators
  {
    if columns == [] then Err("Cannot read properties of undefined (reading 'type')")
    else if columns[0].id == cond.id then Ok(if columns[0].columnType == TEXT then TextOperators else NumberOperators)
    else
      var r := OperatorsFor(columns[1..], cond);
      assert forall i :: 1 <= i < |columns| ==> columns[i] == columns[1..][i - 1];
      r
  }

  /** The TEXT operators are the ones the server's filter knows for text. */
  lemma TextOperatorsKnown()
    ensures forall op :: op in TextOperators && op != "" ==> op in KnownOperators
  {
  }

  /** The NUMBER list offers `smaller_than`, which the server's filter does not
      know: such a condition rejects no row whatever its operand. */
  lemma SmallerThanIgnored(value: string, id: Id, operand: string)
    ensures "smaller_than" in NumberOperators && "smaller_than" !in KnownOperators
    ensures Judge(value, ColumnFilter(id, "smaller_than", operand)) == Next
  {
    assert NumberOperators[2] == "smaller_than";
    UnknownOperatorRejectsNothing(value, ColumnFilter(id, "smaller_than", operand));
  }

  /** The NUMBER list with the operator the server knows. */
  const FixedNumberOperators: seq<string> := ["", "greater_than", "less_than"]

  /** With the fix every operator the editor offers is one the server applies,
      and the "<" choice rejects exactly the rows that are not below the operand. */
  lemma FixedOperatorsKnown(value: string, id: Id, operand: string)
    ensures forall op :: op in FixedNumberOperators && op != "" ==> op in KnownOperators
    ensures forall op :: op in TextOperators && op != "" ==> op in KnownOperators
    ensures Judge(value, ColumnFilter(id, FixedNumberOperators[2], operand)) == Reject <==>
      ParseNum(value).Some? && ParseNum(operand).Some? && ParseNum(value).value >= ParseNum(operand).value
  {
    NumericSemantics(value, ColumnFilter(id, "less_than", operand));
  }
}

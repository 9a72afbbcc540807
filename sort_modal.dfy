/** The sort editor of the grid (src/app/_components/basesPage/sortModal.tsx):
    a click on a column moves that column's entry in the selected view's
    `sortingState` through unsorted → ascending → descending → unsorted. */
module SortModal {
  import opened Model

  /** Where a column stands in a sorting list, read from its first entry
      (`sorting.find(sort => sort.id === columnId)`). */
  datatype SortState = Unsorted | Ascending | Descending

  /** The position of the first entry for `columnId`, or `|sorting|` when there is none. */
  function FindSort(sorting: seq<SortEntry>, columnId: Id): (k: nat)
    ensures k <= |sorting|
    ensures k < |sorting| ==> sorting[k].id == columnId
    ensures forall j :: 0 <= j < k ==> sorting[j].id != columnId
  {
    if sorting == [] then 0
    else if sorting[0].id == columnId then 0
    else 1 + FindSort(sorting[1..], columnId)
  }

  function StateOf(sorting: seq<SortEntry>, columnId: Id): SortState {
    var k := FindSort(sorting, columnId);
    if k == |sorting| then Unsorted
    else if sorting[k].desc then Descending
    else Ascending
  }

  /** The cycle a click walks the column through. */
  function Advance(s: SortState): SortState {
    match s
    case Unsorted => Ascending
    case Ascending => Descending
    case Descending => Unsorted
  }

  predicate Mentions(sorting: seq<SortEntry>, columnId: Id) {
    exists i :: 0 <= i < |sorting| && sorting[i].id == columnId
  }

  /** No column has two entries. */
  predicate NoDuplicateColumns(sorting: seq<SortEntry>) {
    forall i, j :: 0 <= i < j < |sorting| ==> sorting[i].id != sorting[j].id
  }

  /** `sorting.filter(sort => sort.id !== columnId)`. */
  function Without(sorting: seq<SortEntry>, columnId: Id): (r: seq<SortEntry>)
    ensures |r| <= |sorting|
    ensures forall e :: e in r <==> e in sorting && e.id != columnId
  {
    if sorting == [] then []
    else (if sorting[0].id == columnId then [] else [sorting[0]]) + Without(sorting[1..], columnId)
  }

  /** `sorting.map(sort => sort.id === columnId ? { ...sort, desc: !sort.desc } : sort)`. */
  function Flipped(sorting: seq<SortEntry>, columnId: Id): (r: seq<SortEntry>)
    ensures |r| == |sorting|
    ensures forall i :: 0 <= i < |sorting| ==>
      r[i].id == sorting[i].id && r[i].desc == (sorting[i].desc != (sorting[i].id == columnId))
  {
    seq(|sorting|, i requires 0 <= i < |sorting| =>
      if sorting[i].id == columnId then sorting[i].(desc := !sorting[i].desc) else sorting[i])
  }

  /** `handleToggleSort`: the sorting list handed to `updateSortingState`.
      Entries of other columns stay, and the clicked column keeps an entry
      unless it was sorted descending. */
  function ToggleSort(sorting: seq<SortEntry>, columnId: Id): (r: seq<SortEntry>)
    ensures forall e: SortEntry :: e.id != columnId ==> (e in r <==> e in sorting)
    ensures Mentions(r, columnId) <==> StateOf(sorting, columnId) != Descending
  {
    var k := FindSort(sorting, columnId);
    if k == |sorting| then
      var r := sorting + [SortEntry(columnId, false)];
      assert r[|sorting|].id == columnId;
      r
    else if sorting[k].desc then
      var r := Without(sorting, columnId);
      assert forall i :: 0 <= i < |r| ==> r[i] in r;
      r
    else
      var r := Flipped(sorting, columnId);
      assert r[k].id == columnId;
      assert forall i :: 0 <= i < |r| && sorting[i].id != columnId ==> r[i] == sorting[i];
      r
  }

  lemma FindSortAbsent(sorting: seq<SortEntry>, columnId: Id)
    ensures FindSort(sorting, columnId) == |sorting| <==> !Mentions(sorting, columnId)
  {
  }

  lemma {:induction false} WithoutConcat(a: seq<SortEntry>, b: seq<SortEntry>, columnId: Id)
    ensures Without(a + b, columnId) == Without(a, columnId) + Without(b, columnId)
  {
    if a != [] {
      assert (a + b)[1..] == a[1..] + b;
      WithoutConcat(a[1..], b, columnId);
    } else {
      assert a + b == b;
    }
  }

  lemma {:induction false} WithoutUnmentioned(sorting: seq<SortEntry>, columnId: Id)
    requires !Mentions(sorting, columnId)
    ensures Without(sorting, columnId) == sorting
  {
    if sorting != [] {
      assert !Mentions(sorting[1..], columnId) by {
        forall i | 0 <= i < |sorting[1..]| ensures sorting[1..][i].id != columnId {
          assert sorting[1..][i] == sorting[i + 1];
        }
      }
      WithoutUnmentioned(sorting[1..], columnId);
    }
  }

  lemma {:induction false} WithoutFlipped(sorting: seq<SortEntry>, columnId: Id)
    ensures Without(Flipped(sorting, columnId), columnId) == Without(sorting, columnId)
  {
    if sorting != [] {
      var f := Flipped(sorting, columnId);
      assert f[1..] == Flipped(sorting[1..], columnId);
      assert f[0] == sorting[0] || f[0].id == columnId;
      WithoutFlipped(sorting[1..], columnId);
    }
  }

  lemma {:induction false} WithoutKeepsDistinct(sorting: seq<SortEntry>, columnId: Id)
    requires NoDuplicateColumns(sorting)
    ensures NoDuplicateColumns(Without(sorting, columnId))
  {
    if sorting != [] {
      var t := sorting[1..];
      assert NoDuplicateColumns(t) by {
        forall i, j | 0 <= i < j < |t| ensures t[i].id != t[j].id {
          assert t[i] == sorting[i + 1] && t[j] == sorting[j + 1];
        }
      }
      WithoutKeepsDistinct(t, columnId);
      var w := Without(t, columnId);
      forall e | e in w ensures e.id != sorting[0].id {
        var j :| 0 <= j < |t| && t[j] == e;
        assert t[j] == sorting[j + 1];
      }
    }
  }

  /** A click advances the clicked column one step along its cycle. */
  lemma ToggleAdvances(sorting: seq<SortEntry>, columnId: Id)
    ensures StateOf(ToggleSort(sorting, columnId), columnId) == Advance(StateOf(sorting, columnId))
  {
    var k := FindSort(sorting, columnId);
    var r := ToggleSort(sorting, columnId);
    if k == |sorting| {
      FindSortAbsent(sorting, columnId);
      assert r[|sorting|].id == columnId;
      assert FindSort(r, columnId) == |sorting|;
    } else if sorting[k].desc {
      assert FindSort(r, columnId) == |r|;
    } else {
      assert forall j :: 0 <= j < k ==> r[j].id != columnId;
      assert r[k].id == columnId;
      assert FindSort(r, columnId) == k;
    }
  }

  /** Entries for other columns are neither changed nor reordered. */
  lemma ToggleKeepsOthers(sorting: seq<SortEntry>, columnId: Id)
    ensures Without(ToggleSort(sorting, columnId), columnId) == Without(sorting, columnId)
  {
    var k := FindSort(sorting, columnId);
    if k == |sorting| {
      WithoutConcat(sorting, [SortEntry(columnId, false)], columnId);
      assert Without([SortEntry(columnId, false)], columnId) == [];
    } else if sorting[k].desc {
      var w := Without(sorting, columnId);
      assert !Mentions(w, columnId) by {
        forall i | 0 <= i < |w| ensures w[i].id != columnId {
          assert w[i] in w;
        }
      }
      WithoutUnmentioned(w, columnId);
    } else {
      WithoutFlipped(sorting, columnId);
    }
  }

  /** A list without duplicate columns stays without them. */
  lemma ToggleKeepsNoDuplicates(sorting: seq<SortEntry>, columnId: Id)
    requires NoDuplicateColumns(sorting)
    ensures NoDuplicateColumns(ToggleSort(sorting, columnId))
  {
    var k := FindSort(sorting, columnId);
    if k == |sorting| {
      FindSortAbsent(sorting, columnId);
    } else if sorting[k].desc {
      WithoutKeepsDistinct(sorting, columnId);
    }
  }

  /** A column without an entry is appended, ascending, after all the others. */
  lemma ToggleUnsortedAppends(sorting: seq<SortEntry>, columnId: Id)
    requires !Mentions(sorting, columnId)
    ensures ToggleSort(sorting, columnId) == sorting + [SortEntry(columnId, false)]
  {
    FindSortAbsent(sorting, columnId);
  }

  /** An ascending entry turns descending where it stands. */
  lemma ToggleAscendingFlipsInPlace(sorting: seq<SortEntry>, columnId: Id, k: nat)
    requires NoDuplicateColumns(sorting)
    requires k < |sorting| && sorting[k] == SortEntry(columnId, false)
    ensures ToggleSort(sorting, columnId) == sorting[k := SortEntry(columnId, true)]
  {
    OnlyEntry(sorting, columnId, k);
  }

  /** The only entry of a column splits the list into two parts that do not mention it. */
  lemma {:induction false} OnlyEntry(sorting: seq<SortEntry>, columnId: Id, k: nat)
    requires NoDuplicateColumns(sorting)
    requires k < |sorting| && sorting[k].id == columnId
    ensures FindSort(sorting, columnId) == k
    ensures !Mentions(sorting[..k], columnId) && !Mentions(sorting[k + 1..], columnId)
  {
    var a, b := sorting[..k], sorting[k + 1..];
    forall i | 0 <= i < |a| ensures a[i].id != columnId {
      assert a[i] == sorting[i];
    }
    forall i | 0 <= i < |b| ensures b[i].id != columnId {
      assert b[i] == sorting[k + 1 + i];
    }
  }

  lemma {:induction false} WithoutSplit(a: seq<SortEntry>, x: SortEntry, b: seq<SortEntry>)
    requires !Mentions(a, x.id) && !Mentions(b, x.id)
    ensures Without(a + [x] + b, x.id) == a + b
  {
    var c := x.id;
    var ax := a + [x];
    WithoutConcat(ax, b, c);
    WithoutConcat(a, [x], c);
    WithoutUnmentioned(a, c);
    WithoutUnmentioned(b, c);
    assert Without([x], c) == [];
    assert Without(ax, c) == a;
  }

  /** A descending entry is removed; the rest close up in order. */
  lemma ToggleDescendingRemoves(sorting: seq<SortEntry>, columnId: Id, k: nat)
    requires NoDuplicateColumns(sorting)
    requires k < |sorting| && sorting[k] == SortEntry(columnId, true)
    ensures ToggleSort(sorting, columnId) == sorting[..k] + sorting[k + 1..]
  {
    OnlyEntry(sorting, columnId, k);
    assert sorting == sorting[..k] + [sorting[k]] + sorting[k + 1..];
    WithoutSplit(sorting[..k], sorting[k], sorting[k + 1..]);
  }

  /** Three clicks on a column that had no entry give back the list it started from. */
  lemma ToggleThriceRestores(sorting: seq<SortEntry>, columnId: Id)
    requires !Mentions(sorting, columnId)
    ensures ToggleSort(ToggleSort(ToggleSort(sorting, columnId), columnId), columnId) == sorting
  {
    var e := SortEntry(columnId, false);
    var t1 := sorting + [e];
    ToggleUnsortedAppends(sorting, columnId);
    assert FindSort(t1, columnId) == |sorting| by {
      assert t1[|sorting|].id == columnId;
    }
    var t2 := Flipped(t1, columnId);
    assert t2 == sorting + [SortEntry(columnId, true)];
    assert FindSort(t2, columnId) == |sorting| by {
      assert t2[|sorting|].id == columnId;
    }
    WithoutConcat(sorting, [SortEntry(columnId, true)], columnId);
    WithoutUnmentioned(sorting, columnId);
    assert Without([SortEntry(columnId, true)], columnId) == [];
  }

  /** `updateSortingState.onSuccess`: the sorting the server returned is written
      into the selected view of `localViews`; every other view, and every other
      setting of the selected view, is left as it was. */
  function SortingSaved(views: seq<View>, selectedId: Id, returned: seq<SortEntry>): (r: seq<View>)
    ensures |r| == |views|
    ensures forall i :: 0 <= i < |views| ==>
      r[i].(sortingState := views[i].sortingState) == views[i]
      && r[i].sortingState == (if views[i].id == selectedId then returned else views[i].sortingState)
  {
    ReplaceSelected(views, selectedId, (v: View) => v.(sortingState := returned))
  }

  /** `updateSortingState.onSuccess` on `selectedView`: the selected view takes
      the returned sorting; its other settings are kept. */
  function SelectedSortingSaved(selected: View, returned: seq<SortEntry>): (r: View)
    ensures r.id == selected.id && r.sortingState == returned
    ensures r.(sortingState := selected.sortingState) == selected
  {
    selected.(sortingState := returned)
  }

  /** The selected view and its entry in `localViews` agree after the save
      whenever they agreed before. */
  lemma SortingSavedAgrees(views: seq<View>, selected: View, returned: seq<SortEntry>, i: nat)
    requires i < |views| && views[i] == selected
    ensures SortingSaved(views, selected.id, returned)[i] == SelectedSortingSaved(selected, returned)
  {
  }
}

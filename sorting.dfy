/** The sort stage of `getRowsFilteredSorted` (src/server/api/routers/row.ts):
    a comparator that reads the view's sort keys in priority order, and a
    stable sort (`Array.prototype.sort` is stable). */
module Sorting {
  import opened Model
  import opened Text
  import opened Filtering

  /** A cell value after coercion: a number when `Number(value)` is not NaN,
      the text itself otherwise. */
  datatype Key = Num(n: real) | Str(s: string)

  function Coerce(value: string): Key {
    match ParseNum(value)
    case Some(n) => Num(n)
    case None => Str(value)
  }

  /** The sign of `a` against `b` under JavaScript's `<` and `>`. A number
      against a text compares as NaN, so neither is smaller: 0. */
  function KeyOrder(a: Key, b: Key): (r: int)
    ensures -1 <= r <= 1
    ensures a == b ==> r == 0
  {
    match (a, b)
    case (Num(x), Num(y)) => if x < y then -1 else if x > y then 1 else 0
    case (Str(s), Str(t)) => if StrLess(s, t) then -1 else if StrLess(t, s) then 1 else 0
    case _ => 0
  }

  /** The comparator handed to `.sort`: the first key on which both rows have
      a cell and the values differ decides, reversed for `desc`; a key where
      either row lacks the cell is skipped. */
  function CompareRows(a: RowWithCells, b: RowWithCells, sorting: seq<SortEntry>): (r: int)
    ensures -1 <= r <= 1
    ensures a.cells == b.cells ==> r == 0
  {
    if sorting == [] then 0
    else
      var key := sorting[0];
      var ca := FindCell(a.cells, key.id);
      var cb := FindCell(b.cells, key.id);
      if ca.None? || cb.None? then CompareRows(a, b, sorting[1..])
      else
        var o := KeyOrder(Coerce(ca.value.value), Coerce(cb.value.value));
        if o == 0 then CompareRows(a, b, sorting[1..])
        else if key.desc then -o else o
  }

  lemma KeyOrderAntisymmetric(a: Key, b: Key)
    ensures KeyOrder(a, b) == -KeyOrder(b, a)
  {
    if a.Str? && b.Str? {
      StrLessAsymmetric(a.s, b.s);
    }
  }

  /** Swapping the two rows negates the comparison, for any rows. */
  lemma {:induction false} CompareAntisymmetric(a: RowWithCells, b: RowWithCells, sorting: seq<SortEntry>)
    ensures CompareRows(a, b, sorting) == -CompareRows(b, a, sorting)
  {
    if sorting != [] {
      var key := sorting[0];
      var ca := FindCell(a.cells, key.id);
      var cb := FindCell(b.cells, key.id);
      if ca.Some? && cb.Some? {
        KeyOrderAntisymmetric(Coerce(ca.value.value), Coerce(cb.value.value));
      }
      CompareAntisymmetric(a, b, sorting[1..]);
    }
  }

  /** On two keys of the same kind, `KeyOrder` is a total order. */
  lemma KeyOrderSameKind(a: Key, b: Key, c: Key)
    requires a.Num? == b.Num? && b.Num? == c.Num?
    ensures KeyOrder(a, b) == 0 <==> a == b
    ensures KeyOrder(a, b) < 0 && KeyOrder(b, c) < 0 ==> KeyOrder(a, c) < 0
    ensures KeyOrder(a, b) > 0 && KeyOrder(b, c) > 0 ==> KeyOrder(a, c) > 0
  {
    if a.Str? {
      StrLessTotal(a.s, b.s);
      StrLessIrreflexive(a.s);
      StrLessTransitive(a.s, b.s, c.s);
      StrLessTransitive(c.s, b.s, a.s);
      StrLessAsymmetric(a.s, c.s);
    }
  }

  /** The row has a cell for every sort key, and the cell's value is a number
      exactly where `numeric` says so: the condition under which the comparator
      is a total preorder. */
  ghost predicate Conforms(row: RowWithCells, sorting: seq<SortEntry>, numeric: seq<bool>) {
    && |numeric| == |sorting|
    && forall k :: 0 <= k < |sorting| ==>
         FindCell(row.cells, sorting[k].id).Some?
         && Coerce(FindCell(row.cells, sorting[k].id).value.value).Num? == numeric[k]
  }

  lemma ConformsTail(row: RowWithCells, sorting: seq<SortEntry>, numeric: seq<bool>)
    requires sorting != [] && Conforms(row, sorting, numeric)
    ensures Conforms(row, sorting[1..], numeric[1..])
  {
    forall k | 0 <= k < |sorting| - 1
      ensures FindCell(row.cells, sorting[1..][k].id).Some?
      ensures Coerce(FindCell(row.cells, sorting[1..][k].id).value.value).Num? == numeric[1..][k]
    {
      assert sorting[1..][k] == sorting[k + 1];
    }
  }

  /** On conforming rows the comparator is transitive. */
  lemma {:induction false} CompareTransitive(a: RowWithCells, b: RowWithCells, c: RowWithCells,
                                           sorting: seq<SortEntry>, numeric: seq<bool>)
    requires Conforms(a, sorting, numeric) && Conforms(b, sorting, numeric) && Conforms(c, sorting, numeric)
    ensures CompareRows(a, b, sorting) <= 0 && CompareRows(b, c, sorting) <= 0 ==> CompareRows(a, c, sorting) <= 0
  {
    if sorting != [] {
      var key := sorting[0];
      assert FindCell(a.cells, key.id).Some? && FindCell(b.cells, key.id).Some? && FindCell(c.cells, key.id).Some?;
      var va := Coerce(FindCell(a.cells, key.id).value.value);
      var vb := Coerce(FindCell(b.cells, key.id).value.value);
      var vc := Coerce(FindCell(c.cells, key.id).value.value);
      assert va.Num? == numeric[0] && vb.Num? == numeric[0] && vc.Num? == numeric[0];
      KeyOrderSameKind(va, vb, vc);
      KeyOrderSameKind(vb, vc, va);
      KeyOrderSameKind(va, vc, vb);
      ConformsTail(a, sorting, numeric);
      ConformsTail(b, sorting, numeric);
      ConformsTail(c, sorting, numeric);
      CompareTransitive(a, b, c, sorting[1..], numeric[1..]);
    }
  }

  /** Insert `x` into `t` in front of the first element it is smaller than. */
  function Insert(x: RowWithCells, t: seq<RowWithCells>, sorting: seq<SortEntry>): (r: seq<RowWithCells>)
    ensures |r| == |t| + 1
  {
    if t == [] then [x]
    else if CompareRows(x, t[0], sorting) < 0 then [x] + t
    else [t[0]] + Insert(x, t[1..], sorting)
  }

  /** Insertion sort: the model of the stable `.sort` with `CompareRows`. */
  function SortRows(s: seq<RowWithCells>, sorting: seq<SortEntry>): (r: seq<RowWithCells>)
    ensures |r| == |s|
  {
    if s == [] then [] else Insert(s[|s| - 1], SortRows(s[..|s| - 1], sorting), sorting)
  }

  lemma {:induction false} InsertPermutes(x: RowWithCells, t: seq<RowWithCells>, sorting: seq<SortEntry>)
    ensures multiset(Insert(x, t, sorting)) == multiset(t) + multiset{x}
  {
    if t != [] && CompareRows(x, t[0], sorting) >= 0 {
      InsertPermutes(x, t[1..], sorting);
      assert t == [t[0]] + t[1..];
    }
  }

  /** The sort returns a permutation of its input, whatever the keys. */
  lemma {:induction false} SortPermutes(s: seq<RowWithCells>, sorting: seq<SortEntry>)
    ensures multiset(SortRows(s, sorting)) == multiset(s)
  {
    if s != [] {
      var init := s[..|s| - 1];
      var y := s[|s| - 1];
      SortPermutes(init, sorting);
      InsertPermutes(y, SortRows(init, sorting), sorting);
      assert s == init + [y];
      assert multiset(s) == multiset(init) + multiset{y};
    }
  }

  ghost predicate SortedBy(s: seq<RowWithCells>, sorting: seq<SortEntry>) {
    forall i, j :: 0 <= i < j < |s| ==> CompareRows(s[i], s[j], sorting) <= 0
  }

  ghost predicate AllConform(s: seq<RowWithCells>, sorting: seq<SortEntry>, numeric: seq<bool>) {
    forall i :: 0 <= i < |s| ==> Conforms(s[i], sorting, numeric)
  }

  lemma SortedTail(t: seq<RowWithCells>, sorting: seq<SortEntry>)
    requires t != [] && SortedBy(t, sorting)
    ensures SortedBy(t[1..], sorting)
  {
    var rest := t[1..];
    forall i, j | 0 <= i < j < |rest| ensures CompareRows(rest[i], rest[j], sorting) <= 0 {
      assert rest[i] == t[i + 1] && rest[j] == t[j + 1];
    }
  }

  lemma SortedCons(h: RowWithCells, t: seq<RowWithCells>, sorting: seq<SortEntry>)
    requires SortedBy(t, sorting)
    requires forall j :: 0 <= j < |t| ==> CompareRows(h, t[j], sorting) <= 0
    ensures SortedBy([h] + t, sorting)
  {
    var r := [h] + t;
    forall i, j | 0 <= i < j < |r| ensures CompareRows(r[i], r[j], sorting) <= 0 {
      assert r[j] == t[j - 1];
      if i > 0 { assert r[i] == t[i - 1]; }
    }
  }

  lemma AllConformTail(t: seq<RowWithCells>, sorting: seq<SortEntry>, numeric: seq<bool>)
    requires t != [] && AllConform(t, sorting, numeric)
    ensures AllConform(t[1..], sorting, numeric)
  {
    forall i | 0 <= i < |t| - 1 ensures Conforms(t[1..][i], sorting, numeric) {
      assert t[1..][i] == t[i + 1];
    }
  }

  lemma {:induction false} InsertSorted(x: RowWithCells, t: seq<RowWithCells>, sorting: seq<SortEntry>, numeric: seq<bool>)
    requires SortedBy(t, sorting) && AllConform(t, sorting, numeric) && Conforms(x, sorting, numeric)
    ensures SortedBy(Insert(x, t, sorting), sorting)
  {
    if t == [] {
    } else if CompareRows(x, t[0], sorting) < 0 {
      forall j | 0 <= j < |t| ensures CompareRows(x, t[j], sorting) <= 0 {
        CompareTransitive(x, t[0], t[j], sorting, numeric);
      }
      SortedCons(x, t, sorting);
    } else {
      var rest := t[1..];
      SortedTail(t, sorting);
      AllConformTail(t, sorting, numeric);
      InsertSorted(x, rest, sorting, numeric);
      var ins := Insert(x, rest, sorting);
      InsertPermutes(x, rest, sorting);
      CompareAntisymmetric(x, t[0], sorting);
      forall j | 0 <= j < |ins| ensures CompareRows(t[0], ins[j], sorting) <= 0 {
        assert ins[j] in multiset(ins);
        if ins[j] != x {
          assert ins[j] in multiset(rest);
          var k :| 0 <= k < |rest| && rest[k] == ins[j];
          assert rest[k] == t[k + 1];
        }
      }
      SortedCons(t[0], ins, sorting);
    }
  }

  lemma AllConformPrefix(s: seq<RowWithCells>, n: nat, sorting: seq<SortEntry>, numeric: seq<bool>)
    requires n <= |s| && AllConform(s, sorting, numeric)
    ensures AllConform(s[..n], sorting, numeric)
  {
    forall i | 0 <= i < n ensures Conforms(s[..n][i], sorting, numeric) {
      assert s[..n][i] == s[i];
    }
  }

  lemma {:induction false} SortConforms(s: seq<RowWithCells>, sorting: seq<SortEntry>, numeric: seq<bool>)
    requires AllConform(s, sorting, numeric)
    ensures AllConform(SortRows(s, sorting), sorting, numeric)
  {
    var r := SortRows(s, sorting);
    SortPermutes(s, sorting);
    forall i | 0 <= i < |r| ensures Conforms(r[i], sorting, numeric) {
      assert r[i] in multiset(r);
      assert r[i] in multiset(s);
    }
  }

  /** When every row has a cell for every sort key and each key's values are
      all numbers or all texts, the result is ordered by the keys. */
  lemma {:induction false} SortSorts(s: seq<RowWithCells>, sorting: seq<SortEntry>, numeric: seq<bool>)
    requires AllConform(s, sorting, numeric)
    ensures SortedBy(SortRows(s, sorting), sorting)
  {
    if s != [] {
      var init := s[..|s| - 1];
      AllConformPrefix(s, |s| - 1, sorting, numeric);
      SortSorts(init, sorting, numeric);
      SortConforms(init, sorting, numeric);
      InsertSorted(s[|s| - 1], SortRows(init, sorting), sorting, numeric);
    }
  }

  /** The elements of `t` that tie with `x` on every key, in order. */
  function Ties(t: seq<RowWithCells>, x: RowWithCells, sorting: seq<SortEntry>): seq<RowWithCells> {
    if t == [] then []
    else (if CompareRows(t[0], x, sorting) == 0 then [t[0]] else []) + Ties(t[1..], x, sorting)
  }

  lemma {:induction false} TiesAppend(a: seq<RowWithCells>, b: seq<RowWithCells>, x: RowWithCells, sorting: seq<SortEntry>)
    ensures Ties(a + b, x, sorting) == Ties(a, x, sorting) + Ties(b, x, sorting)
  {
    if a == [] {
      assert a + b == b;
    } else {
      assert (a + b)[1..] == a[1..] + b;
      TiesAppend(a[1..], b, x, sorting);
    }
  }

  /** No element of `t` ties with `x` when all of them are above `y`, which ties with `x`. */
  lemma {:induction false} NoTiesAbove(t: seq<RowWithCells>, x: RowWithCells, y: RowWithCells,
                                     sorting: seq<SortEntry>, numeric: seq<bool>)
    requires AllConform(t, sorting, numeric) && Conforms(x, sorting, numeric) && Conforms(y, sorting, numeric)
    requires CompareRows(y, x, sorting) == 0
    requires forall j :: 0 <= j < |t| ==> CompareRows(y, t[j], sorting) < 0
    ensures Ties(t, x, sorting) == []
  {
    if t != [] {
      CompareAntisymmetric(y, x, sorting);
      CompareAntisymmetric(y, t[0], sorting);
      CompareTransitive(t[0], x, y, sorting, numeric);
      assert CompareRows(t[0], x, sorting) != 0;
      AllConformTail(t, sorting, numeric);
      assert forall j :: 0 <= j < |t| - 1 ==> t[1..][j] == t[j + 1];
      NoTiesAbove(t[1..], x, y, sorting, numeric);
    }
  }

  /** What is below the head of a sorted sequence is below all of it. */
  lemma BelowHeadBelowAll(y: RowWithCells, t: seq<RowWithCells>, sorting: seq<SortEntry>, numeric: seq<bool>)
    requires SortedBy(t, sorting) && AllConform(t, sorting, numeric) && Conforms(y, sorting, numeric)
    requires t != [] && CompareRows(y, t[0], sorting) < 0
    ensures forall j :: 0 <= j < |t| ==> CompareRows(y, t[j], sorting) < 0
  {
    forall j | 0 < j < |t| ensures CompareRows(y, t[j], sorting) < 0 {
      assert CompareRows(t[0], t[j], sorting) <= 0;
      CompareTransitive(y, t[0], t[j], sorting, numeric);
      CompareAntisymmetric(y, t[j], sorting);
      CompareAntisymmetric(y, t[0], sorting);
      CompareTransitive(t[0], t[j], y, sorting, numeric);
    }
  }

  lemma {:induction false} InsertTies(y: RowWithCells, t: seq<RowWithCells>, x: RowWithCells,
                                    sorting: seq<SortEntry>, numeric: seq<bool>)
    requires SortedBy(t, sorting) && AllConform(t, sorting, numeric)
    requires Conforms(x, sorting, numeric) && Conforms(y, sorting, numeric)
    ensures Ties(Insert(y, t, sorting), x, sorting) == Ties(t, x, sorting) + Ties([y], x, sorting)
  {
    if t == [] {
    } else if CompareRows(y, t[0], sorting) < 0 {
      InsertTiesFront(y, t, x, sorting, numeric);
    } else {
      SortedTail(t, sorting);
      AllConformTail(t, sorting, numeric);
      InsertTies(y, t[1..], x, sorting, numeric);
      InsertTiesPast(y, t, x, sorting);
    }
  }

  /** `y` inserted in front: it can tie with `x` only if nothing after it does. */
  lemma InsertTiesFront(y: RowWithCells, t: seq<RowWithCells>, x: RowWithCells,
                        sorting: seq<SortEntry>, numeric: seq<bool>)
    requires SortedBy(t, sorting) && AllConform(t, sorting, numeric)
    requires Conforms(x, sorting, numeric) && Conforms(y, sorting, numeric)
    requires t != [] && CompareRows(y, t[0], sorting) < 0
    ensures Ties(Insert(y, t, sorting), x, sorting) == Ties(t, x, sorting) + Ties([y], x, sorting)
  {
    TiesAppend([y], t, x, sorting);
    if CompareRows(y, x, sorting) == 0 {
      BelowHeadBelowAll(y, t, sorting, numeric);
      NoTiesAbove(t, x, y, sorting, numeric);
    }
  }

  /** `y` inserted past the head: the head's tie comes first either way. */
  lemma InsertTiesPast(y: RowWithCells, t: seq<RowWithCells>, x: RowWithCells, sorting: seq<SortEntry>)
    requires t != [] && CompareRows(y, t[0], sorting) >= 0
    requires Ties(Insert(y, t[1..], sorting), x, sorting) == Ties(t[1..], x, sorting) + Ties([y], x, sorting)
    ensures Ties(Insert(y, t, sorting), x, sorting) == Ties(t, x, sorting) + Ties([y], x, sorting)
  {
    var ins := Insert(y, t[1..], sorting);
    var h := if CompareRows(t[0], x, sorting) == 0 then [t[0]] else [];
    assert Insert(y, t, sorting) == [t[0]] + ins;
    assert ([t[0]] + ins)[1..] == ins;
    assert Ties([t[0]] + ins, x, sorting) == h + Ties(ins, x, sorting);
    assert Ties(t, x, sorting) == h + Ties(t[1..], x, sorting);
    ConcatAssoc(h, Ties(t[1..], x, sorting), Ties([y], x, sorting));
  }

  /** Stability: the rows that tie with any given row come out in the order
      they were fetched. */
  lemma {:induction false} SortStable(s: seq<RowWithCells>, x: RowWithCells, sorting: seq<SortEntry>, numeric: seq<bool>)
    requires AllConform(s, sorting, numeric) && Conforms(x, sorting, numeric)
    ensures Ties(SortRows(s, sorting), x, sorting) == Ties(s, x, sorting)
  {
    if s != [] {
      var init, y := s[..|s| - 1], s[|s| - 1];
      assert s == init + [y];
      AllConformPrefix(s, |s| - 1, sorting, numeric);
      SortStable(init, x, sorting, numeric);
      TiesAppend(init, [y], x, sorting);
      InsertTiesAfterSort(y, init, x, sorting, numeric);
    }
  }

  lemma InsertTiesAfterSort(y: RowWithCells, init: seq<RowWithCells>, x: RowWithCells,
                            sorting: seq<SortEntry>, numeric: seq<bool>)
    requires AllConform(init, sorting, numeric)
    requires Conforms(x, sorting, numeric) && Conforms(y, sorting, numeric)
    ensures Ties(Insert(y, SortRows(init, sorting), sorting), x, sorting)
         == Ties(SortRows(init, sorting), x, sorting) + Ties([y], x, sorting)
  {
    SortSorts(init, sorting, numeric);
    SortConforms(init, sorting, numeric);
    InsertTies(y, SortRows(init, sorting), x, sorting, numeric);
  }

  /** `y` goes to the end when it ties with every element. */
  lemma {:induction false} InsertTiedAtEnd(y: RowWithCells, t: seq<RowWithCells>, sorting: seq<SortEntry>)
    requires forall j :: 0 <= j < |t| ==> CompareRows(y, t[j], sorting) == 0
    ensures Insert(y, t, sorting) == t + [y]
  {
    if t != [] {
      InsertTiedAtEnd(y, t[1..], sorting);
      assert [t[0]] + (t[1..] + [y]) == t + [y];
    }
  }

  /** Without any assumption on the keys: when all rows tie (no sort keys, or
      keys that every row lacks), the sort leaves the fetched order alone. */
  lemma {:induction false} AllTiedUnchanged(s: seq<RowWithCells>, sorting: seq<SortEntry>)
    requires forall i, j :: 0 <= i < |s| && 0 <= j < |s| ==> CompareRows(s[i], s[j], sorting) == 0
    ensures SortRows(s, sorting) == s
  {
    if s != [] {
      var init := s[..|s| - 1];
      AllTiedUnchanged(init, sorting);
      InsertTiedAtEnd(s[|s| - 1], init, sorting);
      assert init + [s[|s| - 1]] == s;
    }
  }

  /** With an empty sort list everything ties, so the source's guard that skips
      the sort for an empty list changes nothing. */
  lemma NoKeysUnchanged(s: seq<RowWithCells>)
    ensures SortRows(s, []) == s
  {
    AllTiedUnchanged(s, []);
  }
}

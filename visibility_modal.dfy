/** The column-visibility editor of the grid
    (src/app/_components/basesPage/visibilityModal.tsx): a searchable list of
    the table's columns, each with a switch that flips the column's entry in
    the selected view's `columnVisibility`. */
module VisibilityModal {
  import opened Model
  import opened Text

  /** `{ ...vis, [columnId]: !vis[columnId] }`. A missing key reads as
      `undefined`, whose negation is `true`. */
  function Toggled(vis: map<Id, bool>, columnId: Id): (r: map<Id, bool>)
    ensures r.Keys == vis.Keys + {columnId}
    ensures r[columnId] == !(columnId in vis && vis[columnId])
    ensures forall k :: k in vis && k != columnId ==> r[k] == vis[k]
  {
    vis[columnId := !(columnId in vis && vis[columnId])]
  }

  /** A missing column becomes visible. */
  lemma ToggleMissingShows(vis: map<Id, bool>, columnId: Id)
    requires columnId !in vis
    ensures Toggled(vis, columnId) == vis[columnId := true]
  {
  }

  /** Two clicks on a column that has an entry restore the map; a column that
      had none is left hidden rather than missing. */
  lemma ToggleTwice(vis: map<Id, bool>, columnId: Id)
    ensures columnId in vis ==> Toggled(Toggled(vis, columnId), columnId) == vis
    ensures columnId !in vis ==> Toggled(Toggled(vis, columnId), columnId) == vis[columnId := false]
  {
    var r := Toggled(Toggled(vis, columnId), columnId);
    if columnId in vis {
      assert r.Keys == vis.Keys;
      assert forall k :: k in vis ==> r[k] == vis[k];
    }
  }

  /** `handleToggleVisibility` on `localViews`: the toggled copy of the
      component's `columnVisibility` replaces the map of the selected view;
      every other view, and every other setting of the selected view, is
      left as it was. */
  function VisibilitySaved(views: seq<View>, selectedId: Id, vis: map<Id, bool>, columnId: Id): (r: seq<View>)
    ensures |r| == |views|
    ensures forall i :: 0 <= i < |views| ==>
      r[i].(columnVisibility := views[i].columnVisibility) == views[i]
      && r[i].columnVisibility == (if views[i].id == selectedId then Toggled(vis, columnId) else views[i].columnVisibility)
  {
    var next := Toggled(vis, columnId);
    ReplaceSelected(views, selectedId, (v: View) => v.(columnVisibility := next))
  }

  /** The search test: the lower-cased name includes the lower-cased search text. */
  predicate NameMatches(col: Column, search: string) {
    Contains(ToLower(col.name), ToLower(search))
  }

  /** `filteredColumns`: the columns the switch list shows. */
  function FilteredColumns(columns: seq<Column>, search: string): (r: seq<Column>)
    ensures |r| <= |columns|
    ensures forall c :: c in r <==> c in columns && NameMatches(c, search)
  {
    if columns == [] then []
    else (if NameMatches(columns[0], search) then [columns[0]] else []) + FilteredColumns(columns[1..], search)
  }

  /** The list keeps the columns' order: filtering a concatenation filters each part. */
  lemma {:induction false} FilteredColumnsConcat(a: seq<Column>, b: seq<Column>, search: string)
    ensures FilteredColumns(a + b, search) == FilteredColumns(a, search) + FilteredColumns(b, search)
  {
    if a == [] {
      assert a + b == b;
    } else {
      assert (a + b)[1..] == a[1..] + b;
      FilteredColumnsConcat(a[1..], b, search);
    }
  }

  /** An empty search shows every column, in order. */
  lemma {:induction false} EmptySearchShowsAll(columns: seq<Column>)
    ensures FilteredColumns(columns, "") == columns
  {
    if columns != [] {
      IncludesEmpty(ToLower(columns[0].name));
      assert ToLower("") == "";
      EmptySearchShowsAll(columns[1..]);
    }
  }
}

/** The column customizer dialog: dragging a column's row onto another
    position moves that column's id there and hands the new id order to
    `reorder`. */
module ColumnsCustomizer {
  import opened JsValues
  import opened OrdersColumns

  /** `ids.splice(from, 1)` followed by `ids.splice(to, 0, moved)`. */
  function Move<T>(xs: seq<T>, from: nat, to: nat): (r: seq<T>)
    requires from < |xs| && to < |xs|
    ensures |r| == |xs|
  {
    var rest := xs[..from] + xs[from + 1..];
    rest[..to] + [xs[from]] + rest[to..]
  }

  /** The position in the original list that position `k` of the moved list
      holds. */
  function MoveSource(from: nat, to: nat, k: nat): nat {
    if k == to then from
    else
      var j := if k < to then k else k - 1;
      if j < from then j else j + 1
  }

  lemma MoveAt<T>(xs: seq<T>, from: nat, to: nat, k: nat)
    requires from < |xs| && to < |xs| && k < |xs|
    ensures MoveSource(from, to, k) < |xs|
    ensures Move(xs, from, to)[k] == xs[MoveSource(from, to, k)]
  {
  }

  /** `xs` without its element at `i`. */
  function RemoveAt<T>(xs: seq<T>, i: nat): seq<T>
    requires i < |xs|
  {
    xs[..i] + xs[i + 1..]
  }

  /** The moved element lands at the target position, and the others keep
      their relative order: taking it out again leaves what taking it out
      of the original left. */
  lemma MoveSpec<T>(xs: seq<T>, from: nat, to: nat)
    requires from < |xs| && to < |xs|
    ensures Move(xs, from, to)[to] == xs[from]
    ensures RemoveAt(Move(xs, from, to), to) == RemoveAt(xs, from)
  {
    var rest := RemoveAt(xs, from);
    var r := Move(xs, from, to);
    assert r == rest[..to] + [xs[from]] + rest[to..];
    assert RemoveAt(r, to) == rest[..to] + rest[to..];
    assert rest[..to] + rest[to..] == rest;
  }

  /** The move is a permutation. */
  lemma MovePermutation<T>(xs: seq<T>, from: nat, to: nat)
    requires from < |xs| && to < |xs|
    ensures multiset(Move(xs, from, to)) == multiset(xs)
  {
    var x := xs[from];
    var a, b := xs[..from], xs[from + 1..];
    var rest := a + b;
    var c, d := rest[..to], rest[to..];
    assert xs == a + [x] + b;
    assert rest == c + d;
    assert Move(xs, from, to) == c + [x] + d;
    calc {
      multiset(Move(xs, from, to));
      multiset(c) + multiset{x} + multiset(d);
      multiset(c + d) + multiset{x};
      multiset(a) + multiset(b) + multiset{x};
      multiset(a) + multiset{x} + multiset(b);
      multiset(xs);
    }
  }

  /** Dragging back undoes a move. */
  lemma MoveBack<T>(xs: seq<T>, from: nat, to: nat)
    requires from < |xs| && to < |xs|
    ensures Move(Move(xs, from, to), to, from) == xs
  {
    var once := Move(xs, from, to);
    var twice := Move(once, to, from);
    forall k | 0 <= k < |xs| ensures twice[k] == xs[k] {
      MoveAt(once, to, from, k);
      MoveAt(xs, from, to, MoveSource(to, from, k));
    }
  }

  /** Moving the ids moves the columns: the ids of the moved columns are
      the moved ids. */
  lemma MoveIds(cols: seq<ColumnConfig>, from: nat, to: nat)
    requires from < |cols| && to < |cols|
    ensures Ids(Move(cols, from, to)) == Move(Ids(cols), from, to)
  {
    forall k | 0 <= k < |cols| ensures Ids(Move(cols, from, to))[k] == Move(Ids(cols), from, to)[k] {
      MoveAt(cols, from, to, k);
      MoveAt(Ids(cols), from, to, k);
    }
  }

  /** A drop handed to `reorder` moves the dragged column itself, with all
      its settings, to the drop position. */
  lemma DropMovesColumn(cols: seq<ColumnConfig>, from: nat, to: nat)
    requires DistinctIds(cols) && from < |cols| && to < |cols|
    ensures ReorderOf(cols, Move(Ids(cols), from, to)) == Move(cols, from, to)
  {
    MoveIds(cols, from, to);
    MovePermutation(cols, from, to);
    ReorderPermutedIds(cols, Move(cols, from, to));
  }

  /** A real drop changes the id order, so, stored and read back through
      `normalize`, the layout is not the one the user made. */
  lemma DropLostOnReload(cols: seq<ColumnConfig>, from: nat, to: nat)
    requires DistinctIds(cols) && from < |cols| && to < |cols| && from != to
    requires Ids(cols) == Ids(DefaultColumns)
    ensures Normalize(Some(SavedOf(Move(cols, from, to)))) != Move(cols, from, to)
  {
    var moved := Move(cols, from, to);
    MoveIds(cols, from, to);
    MoveSpec(Ids(cols), from, to);
    assert Ids(moved)[to] == Ids(cols)[from] != Ids(cols)[to];
    ReloadForgetsOrder(DefaultColumns, moved);
  }

  /** The dialog's drag state. */
  class Customizer {
    /** `dragIndex`: the position of the row being dragged, if any. */
    var dragIndex: Option<nat>

    constructor()
      ensures dragIndex == None
    {
      dragIndex := None;
    }

    /** `handleDragStart(index)` */
    method HandleDragStart(index: nat)
      modifies this
      ensures dragIndex == Some(index)
    {
      dragIndex := Some(index);
    }

    /** `handleDrop(index)`: the id order handed to `onReorder`, if it is
        called. Both positions are rows of the rendered list. */
    method HandleDrop(columns: seq<ColumnConfig>, index: nat) returns (reordered: Option<seq<string>>)
      requires dragIndex.Some? ==> dragIndex.value < |columns|
      requires index < |columns|
      modifies this
      ensures old(dragIndex).None? || old(dragIndex).value == index ==>
                reordered.None? && dragIndex == old(dragIndex)
      ensures old(dragIndex).Some? && old(dragIndex).value != index ==>
                reordered == Some(Move(Ids(columns), old(dragIndex).value, index)) && dragIndex.None?
    {
      if dragIndex.None? || dragIndex.value == index {
        return None;
      }
      var from := dragIndex.value;
      var ids := Ids(columns);
      var moved := ids[from];
      ids := ids[..from] + ids[from + 1..];
      ids := ids[..index] + [moved] + ids[index..];
      reordered := Some(ids);
      dragIndex := None;
    }
  }
}

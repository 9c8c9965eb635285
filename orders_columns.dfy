/** The orders table's column layout: the default columns, the merge of a
    saved layout onto them, and the edits the column customizer makes
    (show/hide, reorder, resize, reset). */
module OrdersColumns {
  import opened JsValues

  /** An `OrdersColumnConfig` (`heading` is its `label`); `width` and
      `minWidth` are optional. */
  datatype ColumnConfig = ColumnConfig(id: string, heading: string, visible: bool,
                                       width: Option<real>, minWidth: Option<real>)

  /** A column as read back from storage: any field may be absent. */
  datatype SavedColumn = SavedColumn(id: Option<string>, heading: Option<string>, visible: Option<bool>,
                                     width: Option<real>, minWidth: Option<real>)

  function Shown(id: string, heading: string, width: real, minWidth: real): ColumnConfig {
    ColumnConfig(id, heading, true, Some(width), Some(minWidth))
  }

  /** `DEFAULT_ORDERS_COLUMNS` */
  const DefaultColumns: seq<ColumnConfig> := [
    Shown("order_id", "Order ID", 140.0, 120.0),
    Shown("date", "Date", 120.0, 110.0),
    Shown("product_name", "Product Name", 360.0, 200.0),
    Shown("sku", "SKU", 140.0, 100.0),
    Shown("size", "Size", 140.0, 110.0),
    Shown("quantity", "Qty", 80.0, 70.0),
    Shown("price", "Price", 120.0, 100.0),
    Shown("discounts", "Discounts", 120.0, 100.0),
    Shown("fees", "Fees", 120.0, 100.0),
    Shown("cogs", "COGS", 120.0, 100.0),
    Shown("profit", "Profit", 120.0, 100.0)
  ]

  function Ids(cols: seq<ColumnConfig>): (r: seq<string>)
    ensures |r| == |cols| && forall k :: 0 <= k < |cols| ==> r[k] == cols[k].id
  {
    seq(|cols|, k requires 0 <= k < |cols| => cols[k].id)
  }

  predicate DistinctIds(cols: seq<ColumnConfig>) {
    Distinct(Ids(cols))
  }

  lemma IdsInit(cols: seq<ColumnConfig>)
    requires cols != []
    ensures Ids(cols[..|cols| - 1]) == Ids(cols)[..|cols| - 1]
  {
  }

  lemma IdsTail(cols: seq<ColumnConfig>)
    requires cols != []
    ensures Ids(cols[1..]) == Ids(cols)[1..]
  {
  }

  lemma IdsSnoc(cols: seq<ColumnConfig>, c: ColumnConfig)
    ensures Ids(cols + [c]) == Ids(cols) + [c.id]
  {
  }

  /** The default ids are pairwise different. */
  lemma DefaultIdsDistinct()
    ensures DistinctIds(DefaultColumns)
  {
    var ids := Ids(DefaultColumns);
    assert ids == ["order_id", "date", "product_name", "sku", "size", "quantity",
                   "price", "discounts", "fees", "cogs", "profit"];
  }

  // ------------------------------------------------------------ normalize

  /** The index of the last saved entry with this id: in `new Map(entries)`
      a later entry with the same key wins. */
  function LastIndex(saved: seq<SavedColumn>, id: string): (r: Option<nat>)
    ensures r.Some? ==> r.value < |saved| && saved[r.value].id == Some(id) &&
                        forall j :: r.value < j < |saved| ==> saved[j].id != Some(id)
    ensures r.None? ==> forall j :: 0 <= j < |saved| ==> saved[j].id != Some(id)
  {
    if saved == [] then None
    else if saved[|saved| - 1].id == Some(id) then Some(|saved| - 1)
    else LastIndex(saved[..|saved| - 1], id)
  }

  /** `byId.get(id)` */
  function LastSaved(saved: seq<SavedColumn>, id: string): Option<SavedColumn> {
    match LastIndex(saved, id)
    case Some(k) => Some(saved[k])
    case None => None
  }

  /** `{ ...d, ...s }`: every field present in `s` replaces the default's. */
  function Overlay(d: ColumnConfig, s: SavedColumn): ColumnConfig {
    ColumnConfig(s.id.GetOr(d.id), s.heading.GetOr(d.heading), s.visible.GetOr(d.visible),
                 if s.width.Some? then s.width else d.width,
                 if s.minWidth.Some? then s.minWidth else d.minWidth)
  }

  function Merge(d: ColumnConfig, s: Option<SavedColumn>): ColumnConfig {
    match s
    case Some(v) => Overlay(d, v)
    case None => d
  }

  /** `normalize` over an arbitrary list of defaults `ds`: one entry per
      default, in default order, each overlaid with its saved entry. */
  function NormalizeOnto(ds: seq<ColumnConfig>, saved: seq<SavedColumn>): (r: seq<ColumnConfig>)
    ensures |r| == |ds| && Ids(r) == Ids(ds)
    ensures forall i :: 0 <= i < |ds| && LastIndex(saved, ds[i].id).None? ==> r[i] == ds[i]
  {
    seq(|ds|, i requires 0 <= i < |ds| => Merge(ds[i], LastSaved(saved, ds[i].id)))
  }

  /** `normalize(cols)`: a missing list (`cols || []`) counts as empty. */
  function Normalize(cols: Option<seq<SavedColumn>>): seq<ColumnConfig> {
    NormalizeOnto(DefaultColumns, cols.GetOr([]))
  }

  /** Each entry is its default overlaid with the last saved entry that
      carries its id. */
  lemma NormalizeEntry(ds: seq<ColumnConfig>, saved: seq<SavedColumn>, i: nat, k: nat)
    requires i < |ds| && k < |saved| && saved[k].id == Some(ds[i].id)
    requires forall j :: k < j < |saved| ==> saved[j].id != Some(ds[i].id)
    ensures NormalizeOnto(ds, saved)[i] == Overlay(ds[i], saved[k])
  {
    var l := LastIndex(saved, ds[i].id);
    assert l == Some(k);
  }

  /** With nothing saved, the defaults come back unchanged. */
  lemma NormalizeNothing()
    ensures Normalize(None) == DefaultColumns
    ensures Normalize(Some([])) == DefaultColumns
  {
    var r := NormalizeOnto(DefaultColumns, []);
    assert forall i :: 0 <= i < |DefaultColumns| ==> r[i] == DefaultColumns[i];
  }

  lemma {:induction false} LastSavedSkip(a: seq<SavedColumn>, s: SavedColumn, b: seq<SavedColumn>, id: string)
    requires s.id != Some(id)
    ensures LastSaved(a + [s] + b, id) == LastSaved(a + b, id)
    decreases |b|
  {
    if b == [] {
      assert a + [s] + b == a + [s] && a + b == a;
      AppendLast(a, s);
    } else {
      var b' := b[..|b| - 1];
      var x := b[|b| - 1];
      assert a + [s] + b == (a + [s] + b') + [x];
      assert a + b == (a + b') + [x];
      AppendLast(a + [s] + b', x);
      AppendLast(a + b', x);
      if x.id != Some(id) {
        LastSavedSkip(a, s, b', id);
      }
    }
  }

  /** A saved entry whose id is not a default id is discarded, wherever it
      stands. */
  lemma NormalizeDiscardsUnknown(ds: seq<ColumnConfig>, a: seq<SavedColumn>, s: SavedColumn, b: seq<SavedColumn>)
    requires forall i :: 0 <= i < |ds| ==> s.id != Some(ds[i].id)
    ensures NormalizeOnto(ds, a + [s] + b) == NormalizeOnto(ds, a + b)
  {
    forall i | 0 <= i < |ds|
      ensures NormalizeOnto(ds, a + [s] + b)[i] == NormalizeOnto(ds, a + b)[i]
    {
      LastSavedSkip(a, s, b, ds[i].id);
    }
  }

  /** What `JSON.stringify` writes for a column: every field, except an
      undefined width or minimum width, which is omitted. */
  function ToSaved(c: ColumnConfig): SavedColumn {
    SavedColumn(Some(c.id), Some(c.heading), Some(c.visible), c.width, c.minWidth)
  }

  function SavedOf(cols: seq<ColumnConfig>): (r: seq<SavedColumn>)
    ensures |r| == |cols| && forall k :: 0 <= k < |cols| ==> r[k] == ToSaved(cols[k])
  {
    seq(|cols|, k requires 0 <= k < |cols| => ToSaved(cols[k]))
  }

  /** A stored layout is read back exactly, field for field, so long as its
      columns stand in default order and have their widths. */
  lemma ReloadDefaultOrder(ds: seq<ColumnConfig>, cols: seq<ColumnConfig>)
    requires DistinctIds(ds) && Ids(cols) == Ids(ds)
    requires forall k :: 0 <= k < |cols| ==> cols[k].width.Some? && cols[k].minWidth.Some?
    ensures NormalizeOnto(ds, SavedOf(cols)) == cols
  {
    var saved := SavedOf(cols);
    forall i | 0 <= i < |ds| ensures NormalizeOnto(ds, saved)[i] == cols[i] {
      assert Ids(ds)[i] == ds[i].id;
      forall j | i < j < |saved| ensures saved[j].id != Some(ds[i].id) {
        assert Ids(ds)[j] == ds[j].id;
      }
      NormalizeEntry(ds, saved, i, i);
    }
  }

  /** ... and only then: reloading a stored layout can never give back a
      column order other than the default one. */
  lemma ReloadForgetsOrder(ds: seq<ColumnConfig>, cols: seq<ColumnConfig>)
    ensures NormalizeOnto(ds, SavedOf(cols)) == cols ==> Ids(cols) == Ids(ds)
  {
  }

  // ----------------------------------------------------- visible columns

  function ShownColumn(c: ColumnConfig): Option<ColumnConfig> {
    if c.visible then Some(c) else None
  }

  /** `columns.filter(c => c.visible)` */
  function VisibleColumns(cols: seq<ColumnConfig>): seq<ColumnConfig> {
    FilterMap(cols, ShownColumn)
  }

  /** The visible columns are exactly the columns marked visible, in their
      order. */
  lemma VisibleColumnsSpec(cols: seq<ColumnConfig>)
    ensures forall c :: c in VisibleColumns(cols) <==> c in cols && c.visible
    ensures |VisibleColumns(cols)| <= |cols|
  {
    forall c | c in VisibleColumns(cols) ensures c in cols && c.visible {
      FilterMapFrom(cols, ShownColumn, c);
    }
    forall c | c in cols && c.visible ensures c in VisibleColumns(cols) {
      FilterMapKeeps(cols, ShownColumn, c);
    }
    FilterMapCount(cols, ShownColumn);
  }

  /** The filter keeps the columns' order. */
  lemma VisibleColumnsAppend(a: seq<ColumnConfig>, b: seq<ColumnConfig>)
    ensures VisibleColumns(a + b) == VisibleColumns(a) + VisibleColumns(b)
  {
    FilterMapAppend(a, b, ShownColumn);
  }

  // ---------------------------------------------------- toggle and resize

  /** `toggleVisibility(id, next)`: the column's `visible` becomes `next`,
      or flips when `next` is not given. */
  function ToggleVisibility(cols: seq<ColumnConfig>, id: string, next: Option<bool>): (r: seq<ColumnConfig>)
    ensures |r| == |cols|
    ensures forall k :: 0 <= k < |cols| && cols[k].id != id ==> r[k] == cols[k]
    ensures forall k :: 0 <= k < |cols| && cols[k].id == id ==>
              r[k].visible == (if next.Some? then next.value else !cols[k].visible) &&
              r[k] == cols[k].(visible := r[k].visible)
  {
    seq(|cols|, k requires 0 <= k < |cols| =>
      if cols[k].id == id then cols[k].(visible := next.GetOr(!cols[k].visible)) else cols[k])
  }

  /** Toggling twice without `next` gives back the original layout. */
  lemma ToggleTwice(cols: seq<ColumnConfig>, id: string)
    ensures ToggleVisibility(ToggleVisibility(cols, id, None), id, None) == cols
  {
    var r := ToggleVisibility(ToggleVisibility(cols, id, None), id, None);
    assert forall k :: 0 <= k < |cols| ==> r[k] == cols[k];
  }

  /** The ids, and so the order, are untouched. */
  lemma ToggleKeepsIds(cols: seq<ColumnConfig>, id: string, next: Option<bool>)
    ensures Ids(ToggleVisibility(cols, id, next)) == Ids(cols)
  {
  }

  /** Hiding a column removes it from the visible columns; showing it puts
      it there. */
  lemma ToggleVisible(cols: seq<ColumnConfig>, id: string)
    ensures forall c :: c in VisibleColumns(ToggleVisibility(cols, id, Some(false))) ==> c.id != id
    ensures forall k :: 0 <= k < |cols| && cols[k].id == id ==>
              cols[k].(visible := true) in VisibleColumns(ToggleVisibility(cols, id, Some(true)))
  {
    var hidden := ToggleVisibility(cols, id, Some(false));
    var shown := ToggleVisibility(cols, id, Some(true));
    VisibleColumnsSpec(hidden);
    VisibleColumnsSpec(shown);
    forall c | c in VisibleColumns(hidden) ensures c.id != id {
      var k :| 0 <= k < |hidden| && hidden[k] == c;
    }
    forall k | 0 <= k < |cols| && cols[k].id == id
      ensures cols[k].(visible := true) in VisibleColumns(shown)
    {
      assert shown[k] == cols[k].(visible := true);
    }
  }

  /** `Math.round`: the nearest integer, halves rounded up. */
  function Round(w: real): (r: int)
    ensures w - 0.5 < r as real <= w + 0.5
  {
    (w + 0.5).Floor
  }

  function Max(a: real, b: real): real {
    if a < b then b else a
  }

  /** The width `resize` gives a column: the rounded width, but never less
      than the column's minimum, 60 when it has none. */
  function ResizedWidth(c: ColumnConfig, w: real): (r: real)
    ensures r >= c.minWidth.GetOr(60.0) && r >= Round(w) as real
    ensures r == c.minWidth.GetOr(60.0) || r == Round(w) as real
  {
    Max(c.minWidth.GetOr(60.0), Round(w) as real)
  }

  /** `resize(id, w)` */
  function Resize(cols: seq<ColumnConfig>, id: string, w: real): (r: seq<ColumnConfig>)
    ensures |r| == |cols|
    ensures forall k :: 0 <= k < |cols| && cols[k].id != id ==> r[k] == cols[k]
    ensures forall k :: 0 <= k < |cols| && cols[k].id == id ==>
              r[k] == cols[k].(width := Some(ResizedWidth(cols[k], w)))
  {
    seq(|cols|, k requires 0 <= k < |cols| =>
      if cols[k].id == id then cols[k].(width := Some(ResizedWidth(cols[k], w))) else cols[k])
  }

  /** After a resize the column is never narrower than its minimum, and the
      ids stay as they were. */
  lemma ResizeBounds(cols: seq<ColumnConfig>, id: string, w: real)
    ensures forall k :: 0 <= k < |cols| && cols[k].id == id ==>
              Resize(cols, id, w)[k].width.value >= cols[k].minWidth.GetOr(60.0)
    ensures Ids(Resize(cols, id, w)) == Ids(cols)
  {
  }

  /** Resizing to the same width again changes nothing. */
  lemma ResizeIdempotent(cols: seq<ColumnConfig>, id: string, w: real)
    ensures Resize(Resize(cols, id, w), id, w) == Resize(cols, id, w)
  {
    var once := Resize(cols, id, w);
    var twice := Resize(once, id, w);
    assert forall k :: 0 <= k < |cols| ==> twice[k] == once[k];
  }

  /** `reset`: a copy of the defaults, which is also what a fresh start with
      nothing saved shows. */
  function Reset(): (r: seq<ColumnConfig>)
    ensures r == Normalize(None)
  {
    NormalizeNothing();
    DefaultColumns
  }

  // -------------------------------------------------------------- reorder

  /** `byId.get(id)` over the current columns; a later column wins. */
  function ById(prev: seq<ColumnConfig>, id: string): (r: Option<ColumnConfig>)
    ensures r.Some? ==> r.value in prev && r.value.id == id
    ensures r.None? ==> forall k :: 0 <= k < |prev| ==> prev[k].id != id
  {
    if prev == [] then None
    else if prev[|prev| - 1].id == id then Some(prev[|prev| - 1])
    else ById(prev[..|prev| - 1], id)
  }

  function ByIdOf(prev: seq<ColumnConfig>): string -> Option<ColumnConfig> {
    id => ById(prev, id)
  }

  /** `orderedIds.map(id => byId.get(id)!).filter(Boolean)`: the columns of
      the requested ids, in the requested order, unknown ids dropped. */
  function Requested(prev: seq<ColumnConfig>, orderedIds: seq<string>): seq<ColumnConfig> {
    FilterMap(orderedIds, ByIdOf(prev))
  }

  /** The loop `for (const d of prev) if (!cols.find(...)) cols.push(d)`. */
  function AppendMissing(cols: seq<ColumnConfig>, ds: seq<ColumnConfig>): seq<ColumnConfig>
    decreases |ds|
  {
    if ds == [] then cols
    else AppendMissing(if ds[0].id in Ids(cols) then cols else cols + [ds[0]], ds[1..])
  }

  /** The layout `reorder(orderedIds)` produces. */
  function ReorderOf(prev: seq<ColumnConfig>, orderedIds: seq<string>): seq<ColumnConfig> {
    AppendMissing(Requested(prev, orderedIds), prev)
  }

  /** `reorder`, with its loop. */
  method Reorder(prev: seq<ColumnConfig>, orderedIds: seq<string>) returns (cols: seq<ColumnConfig>)
    ensures cols == ReorderOf(prev, orderedIds)
  {
    cols := Requested(prev, orderedIds);
    for i := 0 to |prev|
      invariant AppendMissing(cols, prev[i..]) == ReorderOf(prev, orderedIds)
    {
      SuffixStep(prev, i);
      var d := prev[i];
      if d.id !in Ids(cols) {
        cols := cols + [d];
      }
    }
  }

  function NotIn(ids: seq<string>): ColumnConfig -> Option<ColumnConfig> {
    (c: ColumnConfig) => if c.id in ids then None else Some(c)
  }

  function InIds(ids: seq<string>): ColumnConfig -> Option<ColumnConfig> {
    (c: ColumnConfig) => if c.id in ids then Some(c) else None
  }

  /** The columns the loop appends. */
  function Unrequested(prev: seq<ColumnConfig>, orderedIds: seq<string>): seq<ColumnConfig> {
    FilterMap(prev, NotIn(orderedIds))
  }

  /** The appending loop keeps what it started with as a prefix. */
  lemma {:induction false} AppendMissingPrefix(cols: seq<ColumnConfig>, ds: seq<ColumnConfig>)
    ensures |cols| <= |AppendMissing(cols, ds)| && AppendMissing(cols, ds)[..|cols|] == cols
    decreases |ds|
  {
    if ds != [] {
      var next := if ds[0].id in Ids(cols) then cols else cols + [ds[0]];
      AppendMissingPrefix(next, ds[1..]);
      assert next[..|cols|] == cols;
    }
  }

  /** Over columns with distinct ids the loop appends, in order, those whose
      id is not among the ones it started with. */
  lemma {:induction false} AppendMissingFilter(cols: seq<ColumnConfig>, ds: seq<ColumnConfig>)
    requires DistinctIds(ds)
    ensures AppendMissing(cols, ds) == cols + FilterMap(ds, NotIn(Ids(cols)))
    decreases |ds|
  {
    if ds == [] {
      AppendNil(cols);
    } else {
      var d := ds[0];
      var rest := ds[1..];
      IdsTail(ds);
      assert DistinctIds(rest);
      FilterMapCons(ds, NotIn(Ids(cols)));
      if d.id in Ids(cols) {
        AppendMissingFilter(cols, rest);
      } else {
        AppendMissingFilter(cols + [d], rest);
        NewIdAppended(cols, ds);
      }
    }
  }

  /** A column that is appended does not change the test for the ones
      after it, whose ids differ from its own. */
  lemma NewIdAppended(cols: seq<ColumnConfig>, ds: seq<ColumnConfig>)
    requires DistinctIds(ds) && ds != []
    ensures FilterMap(ds[1..], NotIn(Ids(cols + [ds[0]]))) == FilterMap(ds[1..], NotIn(Ids(cols)))
  {
    var d := ds[0];
    var rest := ds[1..];
    IdsSnoc(cols, d);
    forall k | 0 <= k < |rest|
      ensures NotIn(Ids(cols + [d]))(rest[k]) == NotIn(Ids(cols))(rest[k])
    {
      assert Ids(ds)[k + 1] == rest[k].id && Ids(ds)[0] == d.id;
    }
    FilterMapPointwise(rest, NotIn(Ids(cols + [d])), NotIn(Ids(cols)));
  }

  /** A column's id is among the requested columns' ids exactly when it was
      requested. */
  lemma InRequested(prev: seq<ColumnConfig>, orderedIds: seq<string>, d: ColumnConfig)
    requires d in prev
    ensures (d.id in Ids(Requested(prev, orderedIds))) == (d.id in orderedIds)
  {
    var req := Requested(prev, orderedIds);
    if d.id in Ids(req) {
      var j :| 0 <= j < |req| && Ids(req)[j] == d.id;
      FilterMapFrom(orderedIds, ByIdOf(prev), req[j]);
    }
    if d.id in orderedIds {
      var c := ById(prev, d.id).value;
      FilterMapKeeps(orderedIds, ByIdOf(prev), d.id);
      var j :| 0 <= j < |req| && req[j] == c;
      assert Ids(req)[j] == d.id;
    }
  }

  /** `reorder` puts the requested columns first, in the requested order,
      then every other column in its previous order. */
  lemma ReorderShape(prev: seq<ColumnConfig>, orderedIds: seq<string>)
    requires DistinctIds(prev)
    ensures ReorderOf(prev, orderedIds) == Requested(prev, orderedIds) + Unrequested(prev, orderedIds)
  {
    var req := Requested(prev, orderedIds);
    AppendMissingFilter(req, prev);
    forall k | 0 <= k < |prev| ensures NotIn(Ids(req))(prev[k]) == NotIn(orderedIds)(prev[k]) {
      InRequested(prev, orderedIds, prev[k]);
    }
    FilterMapPointwise(prev, NotIn(Ids(req)), NotIn(orderedIds));
  }

  /** Whatever the ids, the requested columns lead the result (no distinct
      ids needed), and each is a current column with a requested id. */
  lemma ReorderRequestedFirst(prev: seq<ColumnConfig>, orderedIds: seq<string>)
    ensures Requested(prev, orderedIds) <= ReorderOf(prev, orderedIds)
    ensures forall c :: c in Requested(prev, orderedIds) ==> c in prev && c.id in orderedIds
  {
    AppendMissingPrefix(Requested(prev, orderedIds), prev);
    forall c | c in Requested(prev, orderedIds) ensures c in prev && c.id in orderedIds {
      FilterMapFrom(orderedIds, ByIdOf(prev), c);
    }
  }

  /** A requested id that names no column is ignored. */
  lemma ReorderIgnoresUnknown(prev: seq<ColumnConfig>, a: seq<string>, u: string, b: seq<string>)
    requires u !in Ids(prev)
    ensures ReorderOf(prev, a + [u] + b) == ReorderOf(prev, a + b)
  {
    FilterMapSkip(a, u, b, ByIdOf(prev));
    FilterMapAppend(a, b, ByIdOf(prev));
  }

  /** With distinct ids, `byId` finds each column under its own id. */
  lemma ByIdUnique(prev: seq<ColumnConfig>, k: nat)
    requires DistinctIds(prev) && k < |prev|
    ensures ById(prev, prev[k].id) == Some(prev[k])
  {
    var c := ById(prev, prev[k].id).value;
    var j :| 0 <= j < |prev| && prev[j] == c;
    assert Ids(prev)[j] == Ids(prev)[k];
  }

  /** The requested columns are, as a multiset, the columns whose id was
      requested. */
  lemma {:induction false} RequestedMultiset(prev: seq<ColumnConfig>, orderedIds: seq<string>)
    requires DistinctIds(prev) && Distinct(orderedIds)
    ensures multiset(Requested(prev, orderedIds)) == multiset(FilterMap(prev, InIds(orderedIds)))
  {
    if prev == [] {
      FilterMapNone(orderedIds, ByIdOf(prev));
    } else {
      var p := prev[..|prev| - 1];
      var c := prev[|prev| - 1];
      IdsInit(prev);
      DistinctInit(Ids(prev));
      RequestedMultiset(p, orderedIds);
      FilterMapOneMore(orderedIds, ByIdOf(p), ByIdOf(prev), c.id, c);
    }
  }

  /** With distinct current ids and distinct requested ids, `reorder` is a
      permutation of the current columns. */
  lemma ReorderPermutation(prev: seq<ColumnConfig>, orderedIds: seq<string>)
    requires DistinctIds(prev) && Distinct(orderedIds)
    ensures multiset(ReorderOf(prev, orderedIds)) == multiset(prev)
    ensures |ReorderOf(prev, orderedIds)| == |prev|
  {
    ReorderShape(prev, orderedIds);
    RequestedMultiset(prev, orderedIds);
    FilterMapSplit(prev, InIds(orderedIds), NotIn(orderedIds));
    assert |multiset(ReorderOf(prev, orderedIds))| == |multiset(prev)|;
  }

  lemma {:induction false} RequestedAll(prev: seq<ColumnConfig>, cs: seq<ColumnConfig>)
    requires forall k :: 0 <= k < |cs| ==> ById(prev, cs[k].id) == Some(cs[k])
    ensures Requested(prev, Ids(cs)) == cs
  {
    if cs != [] {
      var p := cs[..|cs| - 1];
      RequestedAll(prev, p);
      IdsInit(cs);
      SplitLast(cs);
    }
  }

  /** Requesting, in some order, the ids of columns `byId` finds, covering
      every current column, yields exactly those columns in that order. */
  lemma ReorderByIds(prev: seq<ColumnConfig>, cs: seq<ColumnConfig>)
    requires DistinctIds(prev)
    requires forall k :: 0 <= k < |cs| ==> ById(prev, cs[k].id) == Some(cs[k])
    requires forall k :: 0 <= k < |prev| ==> prev[k].id in Ids(cs)
    ensures ReorderOf(prev, Ids(cs)) == cs
  {
    RequestedAll(prev, cs);
    FilterMapNone(prev, NotIn(Ids(cs)));
    ReorderShape(prev, Ids(cs));
    AppendNil(cs);
  }

  /** Reordering by the ids of any permutation of the columns gives that
      permutation. */
  lemma ReorderPermutedIds(prev: seq<ColumnConfig>, q: seq<ColumnConfig>)
    requires DistinctIds(prev) && multiset(q) == multiset(prev)
    ensures ReorderOf(prev, Ids(q)) == q
  {
    forall k | 0 <= k < |q| ensures ById(prev, q[k].id) == Some(q[k]) {
      assert q[k] in multiset(prev);
      var j :| 0 <= j < |prev| && prev[j] == q[k];
      ByIdUnique(prev, j);
    }
    forall k | 0 <= k < |prev| ensures prev[k].id in Ids(q) {
      assert prev[k] in multiset(q);
      var j :| 0 <= j < |q| && q[j] == prev[k];
      assert Ids(q)[j] == prev[k].id;
    }
    ReorderByIds(prev, q);
  }

  // ------------------------------------------- normalize keeping the order

  function SavedIdOf(s: SavedColumn): Option<string> {
    s.id
  }

  /** The ids of a stored layout, in stored order. */
  function SavedIds(saved: seq<SavedColumn>): seq<string> {
    FilterMap(saved, SavedIdOf)
  }

  /** `normalize` as its use evidently intends: the same merge onto the
      defaults, then the stored order applied with `reorder`, so known
      columns keep their stored positions and columns not stored follow in
      default order. */
  function NormalizeKeepingOrder(ds: seq<ColumnConfig>, saved: seq<SavedColumn>): seq<ColumnConfig> {
    ReorderOf(NormalizeOnto(ds, saved), SavedIds(saved))
  }

  lemma {:induction false} SavedIdsOf(cols: seq<ColumnConfig>)
    ensures SavedIds(SavedOf(cols)) == Ids(cols)
  {
    if cols != [] {
      var p := cols[..|cols| - 1];
      SavedIdsOf(p);
      assert SavedOf(cols)[..|cols| - 1] == SavedOf(p);
      IdsInit(cols);
    }
  }

  /** Any stored layout over the default ids, in any order, is read back
      exactly. */
  lemma ReloadKeepsOrder(ds: seq<ColumnConfig>, cols: seq<ColumnConfig>)
    requires DistinctIds(ds) && DistinctIds(cols)
    requires forall x :: x in Ids(cols) <==> x in Ids(ds)
    requires forall k :: 0 <= k < |cols| ==> cols[k].width.Some? && cols[k].minWidth.Some?
    ensures NormalizeKeepingOrder(ds, SavedOf(cols)) == cols
  {
    var saved := SavedOf(cols);
    var q := NormalizeOnto(ds, saved);
    SavedIdsOf(cols);
    forall k | 0 <= k < |cols| ensures ById(q, cols[k].id) == Some(cols[k]) {
      StoredColumnFound(ds, cols, k);
    }
    forall k | 0 <= k < |q| ensures q[k].id in Ids(cols) {
      assert Ids(q)[k] == Ids(ds)[k];
    }
    ReorderByIds(q, cols);
  }

  lemma StoredColumnFound(ds: seq<ColumnConfig>, cols: seq<ColumnConfig>, k: nat)
    requires DistinctIds(ds) && DistinctIds(cols) && k < |cols|
    requires forall x :: x in Ids(cols) <==> x in Ids(ds)
    requires cols[k].width.Some? && cols[k].minWidth.Some?
    ensures ById(NormalizeOnto(ds, SavedOf(cols)), cols[k].id) == Some(cols[k])
  {
    var saved := SavedOf(cols);
    var q := NormalizeOnto(ds, saved);
    assert Ids(cols)[k] == cols[k].id;
    assert cols[k].id in Ids(ds);
    var i :| 0 <= i < |Ids(ds)| && Ids(ds)[i] == cols[k].id;
    forall j | k < j < |saved| ensures saved[j].id != Some(ds[i].id) {
      assert Ids(cols)[j] == cols[j].id;
    }
    NormalizeEntry(ds, saved, i, k);
    assert Ids(q)[i] == ds[i].id;
    ByIdUnique(q, i);
  }

  /** With distinct stored ids the result is still a permutation of the
      merged columns: nothing is lost or repeated. */
  lemma KeepingOrderPermutation(ds: seq<ColumnConfig>, saved: seq<SavedColumn>)
    requires DistinctIds(ds) && Distinct(SavedIds(saved))
    ensures multiset(NormalizeKeepingOrder(ds, saved)) == multiset(NormalizeOnto(ds, saved))
  {
    ReorderPermutation(NormalizeOnto(ds, saved), SavedIds(saved));
  }
}

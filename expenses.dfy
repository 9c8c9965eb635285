/** The list logic of the expenses page: the category tree's partition and
    edits, the product form's variant drafts and its save checks, vendor
    resolution, tag lists, and the field extraction and skip rule of the
    expenses CSV import. */
module Expenses {
  import opened JsValues

  // ----------------------------------------------------------- categories

  /** An expense category; a parent category has no (or an empty)
      `parent_id`. */
  datatype Category = Category(id: string, userId: string, name: string, parentId: Option<string>)

  /** `!c.parent_id` */
  predicate IsTopLevel(c: Category) {
    c.parentId.None? || c.parentId.value == ""
  }

  function ParentOf(c: Category): Option<Category> {
    if IsTopLevel(c) then Some(c) else None
  }

  function ChildOf(c: Category): Option<Category> {
    if IsTopLevel(c) then None else Some(c)
  }

  /** `categories.filter(c => !c.parent_id)` */
  function ParentCategories(cats: seq<Category>): seq<Category> {
    FilterMap(cats, ParentOf)
  }

  /** `categories.filter(c => !!c.parent_id)` */
  function ChildCategories(cats: seq<Category>): seq<Category> {
    FilterMap(cats, ChildOf)
  }

  /** Parents and children partition the categories: every category is in
      exactly one of the two lists, and together they hold each category as
      often as the full list does. */
  lemma CategoryPartition(cats: seq<Category>)
    ensures forall c :: c in ParentCategories(cats) <==> c in cats && IsTopLevel(c)
    ensures forall c :: c in ChildCategories(cats) <==> c in cats && !IsTopLevel(c)
    ensures multiset(ParentCategories(cats)) + multiset(ChildCategories(cats)) == multiset(cats)
  {
    forall c | c in ParentCategories(cats) ensures c in cats && IsTopLevel(c) {
      FilterMapFrom(cats, ParentOf, c);
    }
    forall c | c in cats && IsTopLevel(c) ensures c in ParentCategories(cats) {
      FilterMapKeeps(cats, ParentOf, c);
    }
    forall c | c in ChildCategories(cats) ensures c in cats && !IsTopLevel(c) {
      FilterMapFrom(cats, ChildOf, c);
    }
    forall c | c in cats && !IsTopLevel(c) ensures c in ChildCategories(cats) {
      FilterMapKeeps(cats, ChildOf, c);
    }
    FilterMapSplit(cats, ParentOf, ChildOf);
  }

  function SurvivesDelete(deleted: string): Category -> Option<Category> {
    (c: Category) => if c.id != deleted && c.parentId != Some(deleted) then Some(c) else None
  }

  /** The local update after deleting category `deleted`:
      `prev.filter(c => c.id !== cat.id && c.parent_id !== cat.id)`. */
  function DeleteCategory(cats: seq<Category>, deleted: string): seq<Category> {
    FilterMap(cats, SurvivesDelete(deleted))
  }

  /** Exactly the deleted category and its direct children go; everything
      else stays, in order. */
  lemma DeleteCategorySpec(cats: seq<Category>, deleted: string)
    ensures forall c :: c in DeleteCategory(cats, deleted) <==>
              c in cats && c.id != deleted && c.parentId != Some(deleted)
    ensures |DeleteCategory(cats, deleted)| <= |cats|
  {
    forall c | c in DeleteCategory(cats, deleted)
      ensures c in cats && c.id != deleted && c.parentId != Some(deleted)
    {
      FilterMapFrom(cats, SurvivesDelete(deleted), c);
    }
    forall c | c in cats && c.id != deleted && c.parentId != Some(deleted)
      ensures c in DeleteCategory(cats, deleted)
    {
      FilterMapKeeps(cats, SurvivesDelete(deleted), c);
    }
    FilterMapCount(cats, SurvivesDelete(deleted));
  }

  /** Only direct children are removed: a grandchild of the deleted
      category survives its parent's removal. */
  lemma DeleteKeepsGrandchildren(cats: seq<Category>, deleted: string, child: Category, grandchild: Category)
    requires child in cats && child.parentId == Some(deleted) && child.id != deleted
    requires grandchild in cats && grandchild.parentId == Some(child.id) && grandchild.id != deleted
    ensures child !in DeleteCategory(cats, deleted)
    ensures grandchild in DeleteCategory(cats, deleted)
  {
    DeleteCategorySpec(cats, deleted);
  }

  /** A category the delete takes out of the list. */
  predicate Removed(c: Category, deleted: string) {
    c.id == deleted || c.parentId == Some(deleted)
  }

  /** The selection after a delete, as written: the selected parent is
      cleared when it is the deleted category, the selected child when it is
      a child of the deleted category (`childCategories.find(...)`). */
  function SelectionAfterDelete(cats: seq<Category>, selectedParent: Option<string>, selectedChild: Option<string>,
                                deleted: string): (Option<string>, Option<string>)
  {
    var childGone := selectedChild.Some? && selectedChild.value != "" &&
                     exists c :: c in ChildCategories(cats) && Some(c.id) == selectedChild && c.parentId == Some(deleted);
    (if selectedParent == Some(deleted) then None else selectedParent,
     if childGone then None else selectedChild)
  }

  /** Deleting the selected child category itself leaves it selected,
      although no category of that id is left. */
  lemma DeletedChildStaysSelected(cats: seq<Category>, selectedParent: Option<string>, deleted: string)
    requires deleted != ""
    requires forall c :: c in cats && c.id == deleted ==> c.parentId != Some(deleted)
    ensures SelectionAfterDelete(cats, selectedParent, Some(deleted), deleted).1 == Some(deleted)
    ensures forall c :: c in DeleteCategory(cats, deleted) ==> c.id != deleted
  {
    CategoryPartition(cats);
    DeleteCategorySpec(cats, deleted);
  }

  /** The selection update that also clears a selected child that is itself
      deleted. */
  function SelectionAfterDeleteFixed(cats: seq<Category>, selectedParent: Option<string>, selectedChild: Option<string>,
                                     deleted: string): (Option<string>, Option<string>)
  {
    var childGone := selectedChild.Some? && selectedChild.value != "" &&
                     exists c :: c in ChildCategories(cats) && Some(c.id) == selectedChild && Removed(c, deleted);
    (if selectedParent == Some(deleted) then None else selectedParent,
     if childGone then None else selectedChild)
  }

  /** After the corrected update, a selected child is a category the delete
      kept, and one is cleared only when the delete removed it; the
      selected parent is cleared exactly when it was deleted. */
  lemma SelectionFollowsDelete(cats: seq<Category>, selectedParent: Option<string>, selectedChild: Option<string>,
                               deleted: string)
    requires selectedChild.Some? && selectedChild.value != ""
    requires exists c :: c in ChildCategories(cats) && Some(c.id) == selectedChild
    ensures var r := SelectionAfterDeleteFixed(cats, selectedParent, selectedChild, deleted);
            (r.0.None? <==> selectedParent.None? || selectedParent == Some(deleted)) &&
            (r.1.Some? ==> forall c :: c in ChildCategories(cats) && Some(c.id) == r.1 ==> c in DeleteCategory(cats, deleted)) &&
            (r.1.None? ==> exists c :: c in ChildCategories(cats) && Some(c.id) == selectedChild && c !in DeleteCategory(cats, deleted))
  {
    CategoryPartition(cats);
    DeleteCategorySpec(cats, deleted);
  }

  /** `renameCategory`'s local update. */
  function RenameCategory(cats: seq<Category>, id: string, name: string): (r: seq<Category>)
    ensures |r| == |cats|
    ensures forall k :: 0 <= k < |cats| ==> r[k] == if cats[k].id == id then cats[k].(name := name) else cats[k]
  {
    seq(|cats|, k requires 0 <= k < |cats| => if cats[k].id == id then cats[k].(name := name) else cats[k])
  }

  /** A rename keeps the tree: ids and parents are untouched, so the
      parents after a rename are the renamed parents and the children the
      renamed children, position by position, with the same ids and parent
      ids. */
  lemma RenameKeepsTree(cats: seq<Category>, id: string, name: string)
    ensures ParentCategories(RenameCategory(cats, id, name)) == RenameCategory(ParentCategories(cats), id, name)
    ensures ChildCategories(RenameCategory(cats, id, name)) == RenameCategory(ChildCategories(cats), id, name)
    ensures var before, after := ParentCategories(cats), ParentCategories(RenameCategory(cats, id, name));
            |after| == |before| &&
            forall k :: 0 <= k < |after| ==> after[k].id == before[k].id && after[k].parentId == before[k].parentId
    ensures var before, after := ChildCategories(cats), ChildCategories(RenameCategory(cats, id, name));
            |after| == |before| &&
            forall k :: 0 <= k < |after| ==> after[k].id == before[k].id && after[k].parentId == before[k].parentId
  {
    RenameFilterCommutes(cats, id, name, ParentOf);
    RenameFilterCommutes(cats, id, name, ChildOf);
  }

  lemma {:induction false} RenameFilterCommutes(cats: seq<Category>, id: string, name: string, f: Category -> Option<Category>)
    requires f == ParentOf || f == ChildOf
    ensures FilterMap(RenameCategory(cats, id, name), f) == RenameCategory(FilterMap(cats, f), id, name)
  {
    if cats != [] {
      var p := cats[..|cats| - 1];
      var c := cats[|cats| - 1];
      var rc := if c.id == id then c.(name := name) else c;
      var rs := RenameCategory(cats, id, name);
      assert rs[..|p|] == RenameCategory(p, id, name);
      assert rs[|rs| - 1] == rc;
      assert f(rc) == (if f(c).Some? then Some(rc) else None);
      var tail := if f(c).Some? then [c] else [];
      assert FilterMap(rs, f) == FilterMap(RenameCategory(p, id, name), f) + (if f(c).Some? then [rc] else []);
      RenameFilterCommutes(p, id, name, f);
      RenameAppend(FilterMap(p, f), tail, id, name);
      assert RenameCategory(tail, id, name) == (if f(c).Some? then [rc] else []);
    }
  }

  lemma RenameAppend(xs: seq<Category>, ys: seq<Category>, id: string, name: string)
    ensures RenameCategory(xs + ys, id, name) == RenameCategory(xs, id, name) + RenameCategory(ys, id, name)
  {
    var l, r := RenameCategory(xs + ys, id, name), RenameCategory(xs, id, name) + RenameCategory(ys, id, name);
    assert |l| == |r|;
    forall k | 0 <= k < |l| ensures l[k] == r[k] {
      if k < |xs| { assert (xs + ys)[k] == xs[k]; } else { assert (xs + ys)[k] == ys[k - |xs|]; }
    }
  }

  /** `categories.find(c => !c.parent_id && c.name.toLowerCase() ===
      parentName.toLowerCase())` */
  function FindParentCategory(cats: seq<Category>, name: string): (r: Option<Category>)
    ensures r.Some? ==> r.value in cats && IsTopLevel(r.value) && ToLower(r.value.name) == ToLower(name)
    ensures r.None? ==> forall c :: c in cats && IsTopLevel(c) ==> ToLower(c.name) != ToLower(name)
  {
    match FirstIndex(cats, (c: Category) => IsTopLevel(c) && ToLower(c.name) == ToLower(name), 0)
    case Some(k) => Some(cats[k])
    case None => None
  }

  /** `find` returns the first top-level category of that name, in list
      order. */
  lemma FindParentCategoryFirst(cats: seq<Category>, name: string, k: nat)
    requires k < |cats| && IsTopLevel(cats[k]) && ToLower(cats[k].name) == ToLower(name)
    requires forall j :: 0 <= j < k ==> !(IsTopLevel(cats[j]) && ToLower(cats[j].name) == ToLower(name))
    ensures FindParentCategory(cats, name) == Some(cats[k])
  {
    FirstIndexAt(cats, (c: Category) => IsTopLevel(c) && ToLower(c.name) == ToLower(name), k);
  }

  /** The child lookup: a child category of that name under that parent. */
  function FindChildCategory(cats: seq<Category>, name: string, parentId: Option<string>): (r: Option<Category>)
    ensures r.Some? ==> r.value in cats && !IsTopLevel(r.value) && ToLower(r.value.name) == ToLower(name) &&
                        r.value.parentId == parentId
    ensures r.None? ==> forall c :: c in cats && !IsTopLevel(c) && c.parentId == parentId ==> ToLower(c.name) != ToLower(name)
  {
    match FirstIndex(cats, (c: Category) => !IsTopLevel(c) && ToLower(c.name) == ToLower(name) && c.parentId == parentId, 0)
    case Some(k) => Some(cats[k])
    case None => None
  }

  /** `find` returns the first child category of that name under that
      parent, in list order. */
  lemma FindChildCategoryFirst(cats: seq<Category>, name: string, parentId: Option<string>, k: nat)
    requires k < |cats| && !IsTopLevel(cats[k]) && ToLower(cats[k].name) == ToLower(name) && cats[k].parentId == parentId
    requires forall j :: 0 <= j < k ==>
               !(!IsTopLevel(cats[j]) && ToLower(cats[j].name) == ToLower(name) && cats[j].parentId == parentId)
    ensures FindChildCategory(cats, name, parentId) == Some(cats[k])
  {
    FirstIndexAt(cats, (c: Category) => !IsTopLevel(c) && ToLower(c.name) == ToLower(name) && c.parentId == parentId, k);
  }

  // ---------------------------------------------------------------- vendors

  datatype Vendor = Vendor(id: string, userId: string, name: string)

  function NameMatches(name: string): Vendor -> bool {
    (v: Vendor) => ToLower(v.name) == ToLower(name)
  }

  /** `vendors.find(v => v.name.toLowerCase() === name.toLowerCase())` */
  function FindVendor(vendors: seq<Vendor>, name: string): (r: Option<Vendor>)
    ensures r.Some? ==> r.value in vendors && ToLower(r.value.name) == ToLower(name)
    ensures r.None? ==> forall v :: v in vendors ==> ToLower(v.name) != ToLower(name)
  {
    match FirstIndex(vendors, NameMatches(name), 0)
    case Some(k) => Some(vendors[k])
    case None => None
  }

  /** Vendor reuse ignores letter case: two names that lower-case alike find
      the same vendor, the first of that name in the list. */
  lemma FindVendorIgnoresCase(vendors: seq<Vendor>, a: string, b: string)
    requires ToLower(a) == ToLower(b)
    ensures FindVendor(vendors, a) == FindVendor(vendors, b)
  {
    FirstIndexSame(vendors, NameMatches(a), NameMatches(b), 0);
  }

  lemma FindVendorFirst(vendors: seq<Vendor>, name: string, k: nat)
    requires k < |vendors| && ToLower(vendors[k].name) == ToLower(name)
    requires forall j :: 0 <= j < k ==> ToLower(vendors[j].name) != ToLower(name)
    ensures FindVendor(vendors, name) == Some(vendors[k])
  {
    FirstIndexAt(vendors, NameMatches(name), k);
  }

  // --------------------------------------------------------------- variants

  /** A `VariantDraft` row of the product form; absent optional fields are
      None. */
  datatype VariantDraft = VariantDraft(size: string, color: Option<string>, sku: Option<string>, cost: string,
                                       vendor: Option<string>, tags: Option<string>, notes: Option<string>)

  /** A `Partial<VariantDraft>`: the fields it sets. */
  datatype DraftPatch = DraftPatch(size: Option<string>, color: Option<string>, sku: Option<string>,
                                   cost: Option<string>, vendor: Option<string>, tags: Option<string>,
                                   notes: Option<string>)

  const NoPatch := DraftPatch(None, None, None, None, None, None, None)

  function Pick<T>(patch: Option<T>, prior: T): T {
    if patch.Some? then patch.value else prior
  }

  function PickOpt<T>(patch: Option<T>, prior: Option<T>): Option<T> {
    if patch.Some? then patch else prior
  }

  /** `{ ...row, ...patch }` */
  function Patched(row: VariantDraft, patch: DraftPatch): (r: VariantDraft)
    ensures patch == NoPatch ==> r == row
  {
    VariantDraft(Pick(patch.size, row.size), PickOpt(patch.color, row.color), PickOpt(patch.sku, row.sku),
                 Pick(patch.cost, row.cost), PickOpt(patch.vendor, row.vendor), PickOpt(patch.tags, row.tags),
                 PickOpt(patch.notes, row.notes))
  }

  /** Applying the same patch twice is applying it once. */
  lemma PatchIdempotent(row: VariantDraft, patch: DraftPatch)
    ensures Patched(Patched(row, patch), patch) == Patched(row, patch)
  {
  }

  const BlankDraft := VariantDraft("", None, None, "", None, None, None)

  /** `addVariantRow(preset)`: one more row, `{ size: "", cost: "", ...preset }`;
      no preset is an empty one. */
  function AddVariantRow(rows: seq<VariantDraft>, preset: Option<DraftPatch>): (r: seq<VariantDraft>)
    ensures |r| == |rows| + 1 && r[..|rows|] == rows
    ensures r[|rows|].size == (if preset.Some? && preset.value.size.Some? then preset.value.size.value else "")
    ensures r[|rows|].cost == (if preset.Some? && preset.value.cost.Some? then preset.value.cost.value else "")
    ensures preset.None? ==> r[|rows|] == BlankDraft
  {
    rows + [Patched(BlankDraft, preset.GetOr(NoPatch))]
  }

  /** `removeVariantRow(idx)`: `v.filter((_, i) => i !== idx)`. */
  function RemoveVariantRow(rows: seq<VariantDraft>, idx: int): seq<VariantDraft> {
    if rows == [] then []
    else RemoveVariantRow(rows[..|rows| - 1], idx) + (if |rows| - 1 == idx then [] else [rows[|rows| - 1]])
  }

  /** It takes out exactly row `idx`, keeping the others in order, and
      nothing when `idx` is not a row. */
  lemma {:induction false} RemoveVariantRowSpec(rows: seq<VariantDraft>, idx: int)
    ensures 0 <= idx < |rows| ==> RemoveVariantRow(rows, idx) == rows[..idx] + rows[idx + 1..]
    ensures 0 <= idx < |rows| ==> |RemoveVariantRow(rows, idx)| == |rows| - 1
    ensures !(0 <= idx < |rows|) ==> RemoveVariantRow(rows, idx) == rows
  {
    if rows != [] {
      var p := rows[..|rows| - 1];
      RemoveVariantRowSpec(p, idx);
      if idx == |rows| - 1 {
        assert rows[idx + 1..] == [];
        AppendNil(p);
      } else if 0 <= idx < |p| {
        assert rows[idx + 1..] == p[idx + 1..] + [rows[|rows| - 1]];
        assert rows[..idx] == p[..idx];
      } else {
        SplitLast(rows);
      }
    }
  }

  /** `updateVariant(idx, patch)` */
  function UpdateVariant(rows: seq<VariantDraft>, idx: int, patch: DraftPatch): (r: seq<VariantDraft>)
    ensures |r| == |rows|
    ensures forall i :: 0 <= i < |rows| && i != idx ==> r[i] == rows[i]
    ensures 0 <= idx < |rows| ==> r[idx] == Patched(rows[idx], patch)
  {
    seq(|rows|, i requires 0 <= i < |rows| => if i == idx then Patched(rows[i], patch) else rows[i])
  }

  /** Updating a row and then removing it is removing it. */
  lemma UpdateThenRemove(rows: seq<VariantDraft>, idx: int, patch: DraftPatch)
    ensures RemoveVariantRow(UpdateVariant(rows, idx, patch), idx) == RemoveVariantRow(rows, idx)
  {
    var u := UpdateVariant(rows, idx, patch);
    RemoveVariantRowSpec(u, idx);
    RemoveVariantRowSpec(rows, idx);
    if 0 <= idx < |rows| {
      assert u[..idx] == rows[..idx] && u[idx + 1..] == rows[idx + 1..];
    } else {
      assert u == rows;
    }
  }

  function CleanOf(v: VariantDraft): Option<VariantDraft> {
    if v.size != "" && v.cost != "" then Some(v) else None
  }

  /** `variants.filter(v => v.size && v.cost !== "")` */
  function CleanVariants(rows: seq<VariantDraft>): seq<VariantDraft> {
    FilterMap(rows, CleanOf)
  }

  /** The clean variants are exactly the rows with a size and a cost, in
      order. */
  lemma CleanVariantsSpec(rows: seq<VariantDraft>)
    ensures forall v :: v in CleanVariants(rows) <==> v in rows && v.size != "" && v.cost != ""
    ensures |CleanVariants(rows)| <= |rows|
  {
    forall v | v in CleanVariants(rows) ensures v in rows && v.size != "" && v.cost != "" {
      FilterMapFrom(rows, CleanOf, v);
    }
    forall v | v in rows && v.size != "" && v.cost != "" ensures v in CleanVariants(rows) {
      FilterMapKeeps(rows, CleanOf, v);
    }
    FilterMapCount(rows, CleanOf);
  }

  /** `quickAddSXL`: six sizes, no costs yet. */
  const QuickAddRows := [
    VariantDraft("S", None, None, "", None, None, None),
    VariantDraft("M", None, None, "", None, None, None),
    VariantDraft("L", None, None, "", None, None, None),
    VariantDraft("XL", None, None, "", None, None, None),
    VariantDraft("2XL", None, None, "", None, None, None),
    VariantDraft("3XL", None, None, "", None, None, None)
  ]

  /** `x || y` on optional ids: the first one that is set and not empty. */
  function FirstSet(a: Option<string>, b: Option<string>): (r: Option<string>)
    ensures r.Some? ==> r.value != ""
    ensures r.Some? ==> r == a || r == b
  {
    if a.Some? && a.value != "" then a else if b.Some? && b.value != "" then b else None
  }

  /** The outcome of the product form's checks in `onSaveProduct`, made in
      this order before anything is written. */
  datatype SaveCheck =
    | SignInRequired
    | ParentRequired
    | NameRequired
    | VariantRequired
    | ReadyToSave(categoryId: string, parentId: string, name: string, variants: seq<VariantDraft>)

  function CheckSaveProduct(userId: Option<string>, productParentId: string, selectedParentId: Option<string>,
                            productChildId: string, selectedChildId: Option<string>,
                            productName: string, variants: seq<VariantDraft>): (r: SaveCheck)
    ensures r == SignInRequired <==> userId.None? || userId.value == ""
    ensures r == ParentRequired <==>
              userId.Some? && userId.value != "" && FirstSet(Some(productParentId), selectedParentId).None?
    ensures r == NameRequired <==>
              userId.Some? && userId.value != "" && FirstSet(Some(productParentId), selectedParentId).Some? &&
              Trim(productName) == ""
    ensures r == VariantRequired <==>
              userId.Some? && userId.value != "" && FirstSet(Some(productParentId), selectedParentId).Some? &&
              Trim(productName) != "" && CleanVariants(variants) == []
    ensures r.ReadyToSave? <==>
              userId.Some? && userId.value != "" && FirstSet(Some(productParentId), selectedParentId).Some? &&
              Trim(productName) != "" && CleanVariants(variants) != []
    ensures r.ReadyToSave? ==>
              r.variants == CleanVariants(variants) && r.variants != [] &&
              r.name == Trim(productName) && r.name != "" &&
              Some(r.parentId) == FirstSet(Some(productParentId), selectedParentId) &&
              Some(r.categoryId) == FirstSet(FirstSet(Some(productChildId), selectedChildId), Some(r.parentId))
  {
    var parentId := FirstSet(Some(productParentId), selectedParentId);
    var childId := FirstSet(Some(productChildId), selectedChildId);
    var clean := CleanVariants(variants);
    if userId.None? || userId.value == "" then SignInRequired
    else if parentId.None? then ParentRequired
    else if Trim(productName) == "" then NameRequired
    else if clean == [] then VariantRequired
    else ReadyToSave(FirstSet(childId, parentId).value, parentId.value, Trim(productName), clean)
  }

  /** Saving is refused exactly when, past the earlier checks, no row has
      both a size and a cost. */
  lemma SaveRefusedWithoutVariants(userId: Option<string>, productParentId: string, selectedParentId: Option<string>,
                                   productChildId: string, selectedChildId: Option<string>,
                                   productName: string, variants: seq<VariantDraft>)
    requires userId.Some? && userId.value != ""
    requires FirstSet(Some(productParentId), selectedParentId).Some? && Trim(productName) != ""
    ensures CheckSaveProduct(userId, productParentId, selectedParentId, productChildId, selectedChildId,
                             productName, variants).VariantRequired?
            <==> forall v :: v in variants ==> v.size == "" || v.cost == ""
  {
    CleanVariantsSpec(variants);
    if CleanVariants(variants) != [] {
      assert CleanVariants(variants)[0] in CleanVariants(variants);
    }
  }

  /** The quick-add rows alone can never be saved: none has a cost. */
  lemma QuickAddNotSavable(userId: Option<string>, productParentId: string, selectedParentId: Option<string>,
                           productChildId: string, selectedChildId: Option<string>, productName: string)
    ensures !CheckSaveProduct(userId, productParentId, selectedParentId, productChildId, selectedChildId,
                              productName, QuickAddRows).ReadyToSave?
  {
    FilterMapNone(QuickAddRows, CleanOf);
  }

  // ------------------------------------------------------------------ tags

  /** `s.split(sep)` for a one-character separator. */
  function Split(s: string, sep: char): (r: seq<string>)
    ensures r != []
    ensures forall k :: 0 <= k < |r| ==> sep !in r[k]
  {
    if s == [] then [""]
    else
      var rest := Split(s[1..], sep);
      if s[0] == sep then [""] + rest else [[s[0]] + rest[0]] + rest[1..]
  }

  /** `parts.join(sep)` */
  function Join(parts: seq<string>, sep: char): string {
    if parts == [] then ""
    else if |parts| == 1 then parts[0]
    else parts[0] + [sep] + Join(parts[1..], sep)
  }

  /** Splitting then joining gives back the string. */
  lemma {:induction false} JoinSplit(s: string, sep: char)
    ensures Join(Split(s, sep), sep) == s
  {
    if s != [] {
      var rest := Split(s[1..], sep);
      JoinSplit(s[1..], sep);
      if s[0] == sep {
        assert Split(s, sep)[1..] == rest;
      } else if |rest| == 1 {
        assert s == [s[0]] + rest[0];
      } else {
        var r := Split(s, sep);
        assert r[1..] == rest[1..];
        assert Join(rest, sep) == rest[0] + [sep] + Join(rest[1..], sep);
        assert s == [s[0]] + s[1..];
      }
    }
  }

  /** Joining pieces free of the separator and splitting gives the pieces
      back. */
  lemma {:induction false} SplitJoin(parts: seq<string>, sep: char)
    requires parts != []
    requires forall k :: 0 <= k < |parts| ==> sep !in parts[k]
    ensures Split(Join(parts, sep), sep) == parts
    decreases parts, 1
  {
    if |parts| == 1 {
      SplitPiece(parts[0], [], sep);
    } else {
      SplitJoin(parts[1..], sep);
      SplitPiece(parts[0], Join(parts[1..], sep), sep);
      assert parts == [parts[0]] + parts[1..];
    }
  }

  /** A separator-free piece is one piece on its own, and one piece in
      front of a separator. */
  lemma {:induction false} SplitPiece(p: string, tail: string, sep: char)
    requires sep !in p
    ensures Split(p, sep) == [p]
    ensures Split(p + [sep] + tail, sep) == [p] + Split(tail, sep)
    decreases |p|
  {
    if p == [] {
      assert p + [sep] + tail == [sep] + tail;
      assert ([sep] + tail)[1..] == tail;
    } else {
      SplitPiece(p[1..], tail, sep);
      assert (p + [sep] + tail)[1..] == p[1..] + [sep] + tail;
      assert p == [p[0]] + p[1..];
    }
  }

  function TagOf(piece: string): Option<string> {
    var t := Trim(piece);
    if t == "" then None else Some(t)
  }

  /** `s.split(",").map(s => s.trim()).filter(Boolean)` */
  function TagsOf(s: string): seq<string> {
    FilterMap(Split(s, ','), TagOf)
  }

  /** Every tag is non-empty, trimmed, and free of commas. */
  lemma TagsClean(s: string)
    ensures forall t :: t in TagsOf(s) ==> t != "" && ',' !in t && Trim(t) == t
  {
    forall t | t in TagsOf(s) ensures t != "" && ',' !in t && Trim(t) == t {
      FilterMapFrom(Split(s, ','), TagOf, t);
      var piece :| piece in Split(s, ',') && TagOf(piece) == Some(t);
      TagOfClean(piece);
    }
  }

  lemma TagOfClean(piece: string)
    requires ',' !in piece
    ensures TagOf(piece).Some? ==> TagOf(piece).value != "" && ',' !in TagOf(piece).value &&
                                   Trim(TagOf(piece).value) == TagOf(piece).value
  {
    if TagOf(piece).Some? { TrimOwn(Trim(piece)); }
  }

  /** A trimmed non-empty string is its own trim. */
  lemma TrimOwn(t: string)
    requires t != [] && !IsSpace(t[0]) && !IsSpace(t[|t| - 1])
    ensures Trim(t) == t
  {
    TrimPadded([], t, []);
    assert [] + t + [] == t;
  }

  /** Tags written back joined by commas read back as the same list. */
  lemma TagsRoundTrip(tags: seq<string>)
    requires forall k :: 0 <= k < |tags| ==> tags[k] != "" && ',' !in tags[k] && Trim(tags[k]) == tags[k]
    ensures TagsOf(Join(tags, ',')) == tags
  {
    if tags == [] {
      assert Split("", ',') == [""];
      assert Trim("") == "";
    } else {
      SplitJoin(tags, ',');
      FilterMapIdentity(tags, TagOf);
    }
  }

  // --------------------------------------------------- vendors of a product

  function VendorNameOf(v: VariantDraft): Option<string> {
    if v.vendor.Some? && Trim(v.vendor.value) != "" then Some(Trim(v.vendor.value)) else None
  }

  /** The distinct elements in order of first occurrence, as a `Set`
      iterates them. */
  function Dedup(xs: seq<string>): (r: seq<string>)
    ensures Distinct(r)
    ensures forall x :: x in r <==> x in xs
  {
    if xs == [] then []
    else
      var p := Dedup(xs[..|xs| - 1]);
      var last := xs[|xs| - 1];
      assert forall x :: x in xs <==> x in xs[..|xs| - 1] || x == last;
      if last in p then p else p + [last]
  }

  /** `new Set(cleanVariants.map(v => v.vendor?.trim()).filter(Boolean))` */
  function VendorNames(clean: seq<VariantDraft>): seq<string> {
    Dedup(FilterMap(clean, VendorNameOf))
  }

  /** A vendor id map as `onSaveProduct` builds it: a name the existing
      vendors know (in any letter case) maps to that vendor; a new name maps
      to the id its insert returned; a name whose insert failed, and any
      name not asked for, is absent. */
  ghost predicate VendorMapFor(m: map<string, string>, names: seq<string>, vendors: seq<Vendor>, create: string -> Option<string>) {
    (forall n :: n in m <==> n in names && (FindVendor(vendors, n).Some? || create(n).Some?)) &&
    (forall n :: n in m ==> m[n] == if FindVendor(vendors, n).Some? then FindVendor(vendors, n).value.id else create(n).value)
  }

  function CreatedVendor(userId: string, vendors: seq<Vendor>, create: string -> Option<string>): string -> Option<Vendor> {
    (n: string) => if FindVendor(vendors, n).Some? || create(n).None? then None else Some(Vendor(create(n).value, userId, n))
  }

  /** The vendor loop of `onSaveProduct`. An insert is the parameter
      `create`, which gives the new vendor's id, or None when the insert
      fails (the loop then moves on). Returns the id map and the vendors
      appended to the list. */
  method ResolveVendors(userId: string, names: seq<string>, vendors: seq<Vendor>, create: string -> Option<string>)
    returns (vendorMap: map<string, string>, added: seq<Vendor>)
    ensures VendorMapFor(vendorMap, names, vendors, create)
    ensures added == FilterMap(names, CreatedVendor(userId, vendors, create))
  {
    vendorMap := map[];
    added := [];
    for i := 0 to |names|
      invariant VendorMapFor(vendorMap, names[..i], vendors, create)
      invariant added == FilterMap(names[..i], CreatedVendor(userId, vendors, create))
    {
      var name := names[i];
      FilterMapPrefix(names, i, CreatedVendor(userId, vendors, create));
      PrefixStep(names, i);
      var existing := FindVendor(vendors, name);
      if existing.Some? {
        vendorMap := vendorMap[name := existing.value.id];
        continue;
      }
      var ins := create(name);
      if ins.None? {
        continue;
      }
      vendorMap := vendorMap[name := ins.value];
      added := added + [Vendor(ins.value, userId, name)];
    }
    WholePrefix(names);
  }

  /** A variant row as inserted into `expense_variants`. */
  datatype VariantRecord = VariantRecord(userId: string, itemId: string, size: string, color: Option<string>,
                                         sku: Option<string>, costPerUnit: JsNumber, vendorId: Option<string>,
                                         tags: Option<seq<string>>, notes: Option<string>)

  /** `v?.trim() || null` */
  function OptionalText(v: Option<string>): (r: Option<string>)
    ensures r.Some? ==> r.value != "" && v.Some? && r.value == Trim(v.value)
    ensures r.None? <==> v.None? || Trim(v.value) == ""
  {
    if v.Some? && Trim(v.value) != "" then Some(Trim(v.value)) else None
  }

  function RecordOf(userId: string, itemId: string, vendorMap: map<string, string>, v: VariantDraft): VariantRecord {
    VariantRecord(userId, itemId, Trim(v.size), OptionalText(v.color), OptionalText(v.sku),
                  NumberOfString(v.cost),
                  if v.vendor.Some? && v.vendor.value != "" && Trim(v.vendor.value) in vendorMap
                  then Some(vendorMap[Trim(v.vendor.value)]) else None,
                  if v.tags.Some? && v.tags.value != "" then Some(TagsOf(v.tags.value)) else None,
                  OptionalText(v.notes))
  }

  /** The rows `onSaveProduct` inserts: one per clean variant. */
  function VariantRecords(userId: string, itemId: string, vendorMap: map<string, string>, clean: seq<VariantDraft>): (r: seq<VariantRecord>)
    ensures |r| == |clean|
    ensures forall k :: 0 <= k < |clean| ==> r[k] == RecordOf(userId, itemId, vendorMap, clean[k])
  {
    seq(|clean|, k requires 0 <= k < |clean| => RecordOf(userId, itemId, vendorMap, clean[k]))
  }

  /** A clean variant naming a known vendor, in any letter case, is linked
      to that vendor; one naming a new vendor whose insert failed is linked
      to none. */
  lemma VariantVendorLinked(userId: string, itemId: string, m: map<string, string>, clean: seq<VariantDraft>,
                            vendors: seq<Vendor>, create: string -> Option<string>, k: nat)
    requires VendorMapFor(m, VendorNames(clean), vendors, create) && k < |clean|
    requires VendorNameOf(clean[k]).Some?
    ensures var n := VendorNameOf(clean[k]).value;
            var id := VariantRecords(userId, itemId, m, clean)[k].vendorId;
            (FindVendor(vendors, n).Some? ==> id == Some(FindVendor(vendors, n).value.id)) &&
            (FindVendor(vendors, n).None? && create(n).None? ==> id.None?)
  {
    var n := VendorNameOf(clean[k]).value;
    FilterMapKeeps(clean, VendorNameOf, clean[k]);
    assert n in VendorNames(clean);
  }

  /** The tags of a saved variant are clean. */
  lemma RecordTagsClean(userId: string, itemId: string, m: map<string, string>, v: VariantDraft)
    ensures var tags := RecordOf(userId, itemId, m, v).tags;
            tags.Some? ==> forall t :: t in tags.value ==> t != "" && ',' !in t
  {
    if v.tags.Some? { TagsClean(v.tags.value); }
  }

  // ------------------------------------------------------------ CSV import

  /** `a || b` on cell values. */
  function OrValue(a: Option<Value>, b: Option<Value>): Option<Value> {
    if Truthy(a) then a else b
  }

  /** `(row.k1 || row.k2 || "").trim()`: None when the value found is not a
      string, where `.trim()` throws and the row is passed over. */
  function TextOf(row: Row, keys: seq<string>): (r: Option<string>)
    ensures r == Some("") <== forall k :: 0 <= k < |keys| ==> !Truthy(Lookup(row, keys[k]))
    ensures forall k :: 0 <= k < |keys| && Truthy(Lookup(row, keys[k])) &&
                        (forall j :: 0 <= j < k ==> !Truthy(Lookup(row, keys[j]))) ==>
              r == (if Lookup(row, keys[k]).value.Str? then Some(Trim(Lookup(row, keys[k]).value.s)) else None)
  {
    if keys == [] then Some("")
    else
      var v := Lookup(row, keys[0]);
      if Truthy(v) then (if v.value.Str? then Some(Trim(v.value.s)) else None)
      else TextOf(row, keys[1..])
  }

  /** `(row.tags || "").split(",").map(s => s.trim()).filter(Boolean)` */
  function CsvTagsOf(row: Row): Option<seq<string>> {
    var v := Lookup(row, "tags");
    if !Truthy(v) then Some(TagsOf(""))
    else if v.value.Str? then Some(TagsOf(v.value.s))
    else None
  }

  /** `Number(row.cost ?? row.cost_per_unit ?? 0)` */
  function CsvCostOf(row: Row): JsNumber {
    var a := Lookup(row, "cost");
    var b := Lookup(row, "cost_per_unit");
    if !Nullish(a) then NumberOfValue(a.value)
    else if !Nullish(b) then NumberOfValue(b.value)
    else Finite(0.0)
  }

  datatype CsvVariant = CsvVariant(parentName: string, childName: string, productName: string, size: string,
                                   color: string, cost: JsNumber, sku: string, vendorName: string,
                                   tags: seq<string>, notes: string)

  /** The fields of one import row, or None when the row is passed over:
      a field read threw, or the skip rule `!productName || !size || !cost`
      applies. */
  function CsvRowOf(row: Row): Option<CsvVariant> {
    var parentName := TextOf(row, ["parent_category", "category"]);
    var childName := TextOf(row, ["child_category", "subcategory"]);
    var productName := TextOf(row, ["product", "item"]);
    var size := TextOf(row, ["size"]);
    var color := TextOf(row, ["color"]);
    var cost := CsvCostOf(row);
    var sku := TextOf(row, ["sku"]);
    var vendorName := TextOf(row, ["vendor", "vendor_name"]);
    var tags := CsvTagsOf(row);
    var notes := TextOf(row, ["notes"]);
    if parentName.None? || childName.None? || productName.None? || size.None? || color.None? ||
       sku.None? || vendorName.None? || tags.None? || notes.None? then None
    else if productName.value == "" || size.value == "" || !NumberTruthy(cost) then None
    else Some(CsvVariant(parentName.value, childName.value, productName.value, size.value, color.value, cost,
                         sku.value, vendorName.value, tags.value, notes.value))
  }

  /** A row that reads cleanly is imported exactly when its product and
      size are non-empty after trimming and its cost is neither 0 nor NaN;
      what is kept is trimmed. */
  lemma CsvSkipRule(row: Row)
    ensures CsvRowOf(row).Some? ==>
              CsvRowOf(row).value.productName != "" && CsvRowOf(row).value.size != "" &&
              NumberTruthy(CsvRowOf(row).value.cost) &&
              CsvRowOf(row).value.productName == TextOf(row, ["product", "item"]).value &&
              CsvRowOf(row).value.size == TextOf(row, ["size"]).value
    ensures (TextOf(row, ["product", "item"]) == Some("") || TextOf(row, ["size"]) == Some("") ||
             !NumberTruthy(CsvCostOf(row))) ==> CsvRowOf(row).None?
  {
  }

  /** A blank cost cell counts as 0, so such a row is skipped. */
  lemma CsvBlankCostSkipped(row: Row)
    requires Lookup(row, "cost") == Some(Str(""))
    ensures CsvRowOf(row).None?
  {
    AllSpaceNumber("");
    assert CsvCostOf(row) == Finite(0.0);
    CsvSkipRule(row);
  }

  /** The product name falls back from `product` to `item`. */
  lemma CsvProductFallback(row: Row, name: string)
    requires !Truthy(Lookup(row, "product")) && Lookup(row, "item") == Some(Str(name)) && name != ""
    ensures TextOf(row, ["product", "item"]) == Some(Trim(name))
  {
    assert ["product", "item"][1..] == ["item"];
    assert ["item"][1..] == [];
  }
}

/** The parser for Pirate Ship's detailed label export: columns are found by
    a forgiving, case-insensitive header lookup, non-label rows are dropped,
    and every other row becomes a shipping-label record with defaults. */
module PirateShipDetailed {
  import opened JsValues
  import PirateShipCsv

  // ----------------------------------------------------------- getValueCI

  /** The header test of the exact phase: the key, trimmed and lower-cased,
      equals `t`. */
  function KeyIs(t: string): ((string, Value)) -> bool {
    (kv: (string, Value)) => LowerTrim(kv.0) == t
  }

  /** What candidate `c` yields in the exact phase: the value under the first
      key equal to it after trimming and lower-casing, unless that key is the
      empty string, which JavaScript's `if (found)` treats as not found. */
  function ExactHit(row: Row, c: string): Option<Value> {
    match FirstIndex(row, KeyIs(LowerTrim(c)), 0)
    case Some(i) => if row[i].0 != "" then Some(row[i].1) else None
    case None => None
  }

  function HasExactHit(row: Row): string -> bool {
    c => ExactHit(row, c).Some?
  }

  /** `candidates.some(c => lower.includes(c.trim().toLowerCase()))` */
  predicate LooseMatch(lower: string, cands: seq<string>) {
    exists n :: 0 <= n < |cands| && Contains(lower, LowerTrim(cands[n]))
  }

  /** The header test of the fallback phase. */
  function KeyLoose(cands: seq<string>): ((string, Value)) -> bool {
    (kv: (string, Value)) => LooseMatch(LowerTrim(kv.0), cands)
  }

  /** `getValueCI`: the first candidate, in candidate order, that names a
      key exactly; failing that, the first key, in row order, that contains
      some candidate; failing that, undefined (None). */
  function GetValueCI(row: Row, cands: seq<string>): Option<Value> {
    match FirstIndex(cands, HasExactHit(row), 0)
    case Some(m) => ExactHit(row, cands[m])
    case None =>
      match FirstIndex(row, KeyLoose(cands), 0)
      case Some(i) => Some(row[i].1)
      case None => None
  }

  /** `keys.find(k => k.trim().toLowerCase() === t)` */
  method FindKey(row: Row, t: string) returns (found: Option<nat>)
    ensures found == FirstIndex(row, KeyIs(t), 0)
  {
    var i := 0;
    while i < |row|
      invariant 0 <= i <= |row|
      invariant FirstIndex(row, KeyIs(t), 0) == FirstIndex(row, KeyIs(t), i)
    {
      if LowerTrim(row[i].0) == t {
        return Some(i);
      }
      i := i + 1;
    }
    return None;
  }

  /** `candidates.some(...)` for one lower-cased key. */
  method AnyContained(lower: string, cands: seq<string>) returns (hit: bool)
    ensures hit == LooseMatch(lower, cands)
  {
    var n := 0;
    while n < |cands|
      invariant 0 <= n <= |cands|
      invariant forall m :: 0 <= m < n ==> !Contains(lower, LowerTrim(cands[m]))
    {
      if Contains(lower, LowerTrim(cands[n])) {
        return true;
      }
      n := n + 1;
    }
    return false;
  }

  /** One candidate of the exact phase: `keys.find`, then `if (found)`. */
  method ExactHitOf(row: Row, c: string) returns (hit: Option<Value>)
    ensures hit == ExactHit(row, c)
  {
    var found := FindKey(row, LowerTrim(c));
    if found.Some? && row[found.value].0 != "" {
      return Some(row[found.value].1);
    }
    return None;
  }

  /** The exact phase of `getValueCI`: the loop over the candidates. */
  method ExactPhase(row: Row, cands: seq<string>) returns (r: Option<Value>)
    ensures r.Some? <==> FirstIndex(cands, HasExactHit(row), 0).Some?
    ensures r.Some? ==> r == ExactHit(row, cands[FirstIndex(cands, HasExactHit(row), 0).value])
  {
    var k := 0;
    while k < |cands|
      invariant 0 <= k <= |cands|
      invariant FirstIndex(cands, HasExactHit(row), 0) == FirstIndex(cands, HasExactHit(row), k)
    {
      var hit := ExactHitOf(row, cands[k]);
      assert HasExactHit(row)(cands[k]) == hit.Some?;
      if hit.Some? {
        return hit;
      }
      k := k + 1;
    }
    return None;
  }

  /** The fallback phase of `getValueCI`: the loop over the keys. */
  method LoosePhase(row: Row, cands: seq<string>) returns (r: Option<Value>)
    ensures r.Some? <==> FirstIndex(row, KeyLoose(cands), 0).Some?
    ensures r.Some? ==> r == Some(row[FirstIndex(row, KeyLoose(cands), 0).value].1)
  {
    var i := 0;
    while i < |row|
      invariant 0 <= i <= |row|
      invariant FirstIndex(row, KeyLoose(cands), 0) == FirstIndex(row, KeyLoose(cands), i)
    {
      var hit := AnyContained(LowerTrim(row[i].0), cands);
      if hit {
        return Some(row[i].1);
      }
      i := i + 1;
    }
    return None;
  }

  /** `getValueCI` with its loops and early returns. */
  method GetValueCIOf(row: Row, cands: seq<string>) returns (r: Option<Value>)
    ensures r == GetValueCI(row, cands)
  {
    r := ExactPhase(row, cands);
    if r.None? {
      r := LoosePhase(row, cands);
    }
  }

  /** Every string contains itself. */
  lemma ContainsSelf(s: string)
    ensures Contains(s, s)
  {
    assert OccursAt(s, s, 0) by { assert s[0..] == s; }
  }

  /** An exact hit is also a loose one: the key equals the candidate after
      trimming and lower-casing, so it contains it. */
  lemma ExactIsLoose(row: Row, cands: seq<string>, m: nat)
    requires m < |cands| && ExactHit(row, cands[m]).Some?
    ensures FirstIndex(row, KeyLoose(cands), 0).Some?
  {
    var i := FirstIndex(row, KeyIs(LowerTrim(cands[m])), 0).value;
    ContainsSelf(LowerTrim(row[i].0));
    assert KeyLoose(cands)(row[i]);
  }

  /** `getValueCI` comes back undefined exactly when no key, trimmed and
      lower-cased, contains any trimmed, lower-cased candidate. */
  lemma GetValueCINone(row: Row, cands: seq<string>)
    ensures GetValueCI(row, cands).None? <==>
            forall j :: 0 <= j < |row| ==> !LooseMatch(LowerTrim(row[j].0), cands)
  {
    var e := FirstIndex(cands, HasExactHit(row), 0);
    if e.Some? {
      ExactIsLoose(row, cands, e.value);
    }
    var l := FirstIndex(row, KeyLoose(cands), 0);
    if l.Some? {
      assert LooseMatch(LowerTrim(row[l.value].0), cands);
    } else {
      assert forall j :: 0 <= j < |row| ==> !KeyLoose(cands)(row[j]);
    }
  }

  /** Candidate priority: when the first candidate names a key exactly, its
      value is returned, whatever the later candidates and the column order. */
  lemma FirstCandidateWins(row: Row, cands: seq<string>)
    requires cands != [] && ExactHit(row, cands[0]).Some?
    ensures GetValueCI(row, cands) == ExactHit(row, cands[0])
  {
    assert HasExactHit(row)(cands[0]);
  }

  /** The fallback returns the first key, in row order, containing a
      candidate, once no candidate names a key exactly. */
  lemma LooseFirstKey(row: Row, cands: seq<string>, i: nat)
    requires forall n :: 0 <= n < |cands| ==> ExactHit(row, cands[n]).None?
    requires i < |row| && LooseMatch(LowerTrim(row[i].0), cands)
    requires forall j :: 0 <= j < i ==> !LooseMatch(LowerTrim(row[j].0), cands)
    ensures GetValueCI(row, cands) == Some(row[i].1)
  {
    forall n | 0 <= n < |cands| ensures !HasExactHit(row)(cands[n]) {
    }
    FirstIndexNone(cands, HasExactHit(row));
    FirstIndexAt(row, KeyLoose(cands), i);
  }

  /** The lookup ignores case and surrounding whitespace of the candidates. */
  lemma CandidateSpelling(row: Row, c1: seq<string>, c2: seq<string>)
    requires |c1| == |c2|
    requires forall n :: 0 <= n < |c1| ==> LowerTrim(c1[n]) == LowerTrim(c2[n])
    ensures GetValueCI(row, c1) == GetValueCI(row, c2)
  {
    forall n | 0 <= n < |c1| ensures HasExactHit(row)(c1[n]) == HasExactHit(row)(c2[n]) {
      assert ExactHit(row, c1[n]) == ExactHit(row, c2[n]);
    }
    FirstIndexPointwise(c1, c2, HasExactHit(row), 0);
    forall j | 0 <= j < |row| ensures KeyLoose(c1)(row[j]) == KeyLoose(c2)(row[j]) {
      LooseSpelling(LowerTrim(row[j].0), c1, c2);
    }
    FirstIndexSame(row, KeyLoose(c1), KeyLoose(c2), 0);
    var m := FirstIndex(c1, HasExactHit(row), 0);
    if m.Some? {
      assert ExactHit(row, c1[m.value]) == ExactHit(row, c2[m.value]);
    }
  }

  lemma LooseSpelling(lower: string, c1: seq<string>, c2: seq<string>)
    requires |c1| == |c2|
    requires forall n :: 0 <= n < |c1| ==> LowerTrim(c1[n]) == LowerTrim(c2[n])
    ensures LooseMatch(lower, c1) == LooseMatch(lower, c2)
  {
    if LooseMatch(lower, c1) {
      var n :| 0 <= n < |c1| && Contains(lower, LowerTrim(c1[n]));
      assert Contains(lower, LowerTrim(c2[n]));
    }
    if LooseMatch(lower, c2) {
      var n :| 0 <= n < |c2| && Contains(lower, LowerTrim(c2[n]));
      assert Contains(lower, LowerTrim(c1[n]));
    }
  }

  // ------------------------------------------------------------ the parser

  /** A `ShippingLabelInput`; absent fields are `Null`. */
  datatype LabelInput = LabelInput(
    labelId: Value, batchId: Value, carrier: Value, service: Value, shipDate: Value,
    toName: Value, address1: Value, city: Value, state: Value, postal: Value,
    country: Value, tracking: Value, reference: Value, notes: Value, weight: Value,
    dimensions: Value, amount: real, currency: Value, storeId: Value, workspaceId: string)

  /** `x ?? d` */
  function OrDefault(v: Option<Value>, d: Value): (r: Value)
    ensures Nullish(v) ==> r == d
    ensures !Nullish(v) ==> r == v.value
  {
    if Nullish(v) then d else v.value
  }

  /** A row is skipped only when its Type is a string other than "label"
      (trimmed, any case); no Type, or a non-string one, keeps the row. */
  predicate KeepRow(row: Row) {
    var t := GetValueCI(row, ["Type"]);
    !(t.Some? && t.value.Str? && LowerTrim(t.value.s) != "label")
  }

  /** `ship_date`: String(raw) when the raw date is truthy, otherwise null. */
  function ShipDate(raw: Option<Value>): (r: Value)
    ensures Truthy(raw) ==> r == Str(JsString(raw.value))
    ensures !Truthy(raw) ==> r == Null
  {
    if Truthy(raw) then Str(JsString(raw.value)) else Null
  }

  /** The entry built from a kept row. */
  function EntryOf(row: Row): LabelInput {
    LabelInput(
      OrDefault(GetValueCI(row, ["Label ID", "LabelID"]), Null),
      OrDefault(GetValueCI(row, ["Batch ID"]), Null),
      OrDefault(GetValueCI(row, ["Carrier"]), Null),
      OrDefault(GetValueCI(row, ["Service"]), Null),
      ShipDate(GetValueCI(row, ["Ship Date", "Date"])),
      OrDefault(GetValueCI(row, ["Recipient Name", "To Name", "Ship To Name"]), Null),
      OrDefault(GetValueCI(row, ["Address 1", "Address1"]), Null),
      OrDefault(GetValueCI(row, ["City"]), Null),
      OrDefault(GetValueCI(row, ["State"]), Null),
      OrDefault(GetValueCI(row, ["Postal Code", "ZIP", "Zip"]), Null),
      OrDefault(GetValueCI(row, ["Country"]), Null),
      OrDefault(GetValueCI(row, ["Tracking Number", "Tracking"]), Null),
      OrDefault(GetValueCI(row, ["Reference", "Reference #"]), Null),
      OrDefault(GetValueCI(row, ["Notes"]), Null),
      OrDefault(GetValueCI(row, ["Weight"]), Null),
      OrDefault(GetValueCI(row, ["Dimensions"]), Null),
      PirateShipCsv.ParseNumber(GetValueCI(row, ["Total", "Amount"])).GetOr(0.0),
      OrDefault(GetValueCI(row, ["Currency"]), Str("USD")),
      OrDefault(GetValueCI(row, ["Store ID", "Shop ID"]), Null),
      "default")
  }

  /** What one row contributes to the output. */
  function DetailedRow(row: Row): Option<LabelInput> {
    if KeepRow(row) then Some(EntryOf(row)) else None
  }

  /** `parsePirateShipDetailed` */
  method ParsePirateShipDetailed(rows: seq<Row>) returns (out: seq<LabelInput>)
    ensures out == FilterMap(rows, DetailedRow)
    ensures |out| <= |rows|
  {
    out := [];
    var i := 0;
    while i < |rows|
      invariant 0 <= i <= |rows|
      invariant out == FilterMap(rows[..i], DetailedRow)
    {
      var row := rows[i];
      FilterMapPrefix(rows, i, DetailedRow);
      i := i + 1;
      var typeVal := GetValueCIOf(row, ["Type"]);
      if typeVal.Some? && typeVal.value.Str? && LowerTrim(typeVal.value.s) != "label" {
        continue;
      }
      out := out + [EntryOf(row)];
    }
    WholePrefix(rows);
    FilterMapCount(rows, DetailedRow);
  }

  /** The defaults every entry carries: the workspace is "default", a missing
      currency is "USD" (so the currency is never null), the amount is the
      parsed Total or Amount and 0 when that is missing or unparseable, and
      the ship date is null exactly when the raw date is falsy. */
  lemma EntryDefaults(row: Row)
    ensures EntryOf(row).workspaceId == "default"
    ensures !EntryOf(row).currency.Null?
    ensures Nullish(GetValueCI(row, ["Currency"])) ==> EntryOf(row).currency == Str("USD")
    ensures !Nullish(GetValueCI(row, ["Currency"])) ==> EntryOf(row).currency == GetValueCI(row, ["Currency"]).value
    ensures var n := PirateShipCsv.ParseNumber(GetValueCI(row, ["Total", "Amount"]));
            EntryOf(row).amount == (if n.Some? then n.value else 0.0)
    ensures EntryOf(row).shipDate.Null? <==> !Truthy(GetValueCI(row, ["Ship Date", "Date"]))
  {
    var c := GetValueCI(row, ["Currency"]);
    assert !Nullish(c) ==> !c.value.Null?;
  }

  /** Every kept row appears in the output, and every output entry comes
      from a kept row. */
  lemma DetailedFromRows(rows: seq<Row>)
    ensures forall e :: e in FilterMap(rows, DetailedRow) ==> exists r :: r in rows && KeepRow(r) && e == EntryOf(r)
    ensures forall r :: r in rows && KeepRow(r) ==> EntryOf(r) in FilterMap(rows, DetailedRow)
  {
    forall e | e in FilterMap(rows, DetailedRow) ensures exists r :: r in rows && KeepRow(r) && e == EntryOf(r) {
      FilterMapFrom(rows, DetailedRow, e);
    }
    forall r | r in rows && KeepRow(r) ensures EntryOf(r) in FilterMap(rows, DetailedRow) {
      FilterMapKeeps(rows, DetailedRow, r);
    }
  }

  /** A row with no Type column (no key contains "type") is kept. */
  lemma UntypedRowKept(row: Row)
    requires forall j :: 0 <= j < |row| ==> !Contains(LowerTrim(row[j].0), "type")
    ensures KeepRow(row)
  {
    TypeKey();
    forall j | 0 <= j < |row| ensures !LooseMatch(LowerTrim(row[j].0), ["Type"]) {
      assert LowerTrim(["Type"][0]) == "type";
    }
    GetValueCINone(row, ["Type"]);
  }

  lemma TypeKey()
    ensures LowerTrim("Type") == "type"
  {
    TypeTrimmed();
    var l := ToLower("Type");
    assert |l| == 4 && l[0] == 't' && l[1] == 'y' && l[2] == 'p' && l[3] == 'e';
  }

  lemma TypeTrimmed()
    ensures Trim("Type") == "Type"
  {
    TrimPadded([], "Type", []);
    assert [] + "Type" + [] == "Type";
  }

  /** The parser works row by row: order is kept and rows do not interact. */
  lemma DetailedAppend(a: seq<Row>, b: seq<Row>)
    ensures FilterMap(a + b, DetailedRow) == FilterMap(a, DetailedRow) + FilterMap(b, DetailedRow)
  {
    FilterMapAppend(a, b, DetailedRow);
  }
}

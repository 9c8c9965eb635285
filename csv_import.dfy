/** The order CSV import: header normalisation and alias lookup, lenient
    amount and quantity parsing, grouping of rows by order id, one order
    payload per group, and attaching line items to the orders the store
    returned from its upsert. The store is abstract: the upsert and the
    item insert are functions given by the caller. */
module CsvImport {
  import opened JsValues

  // ------------------------------------------------------------ headers

  predicate IsAlnumLower(c: char) { 'a' <= c <= 'z' || IsDigit(c) }

  /** `normalize`: lower-case, then drop everything outside [a-z0-9]. */
  function NormalizeHeader(s: string): (r: string)
    ensures forall i :: 0 <= i < |r| ==> IsAlnumLower(r[i])
  {
    KeepChars(ToLower(s), IsAlnumLower)
  }

  lemma NormalizeIdempotent(s: string)
    ensures NormalizeHeader(NormalizeHeader(s)) == NormalizeHeader(s)
  {
    var r := NormalizeHeader(s);
    assert ToLower(r) == r;
    KeepCharsAll(r, IsAlnumLower);
  }

  /** Case does not matter: a header and its lower-cased form normalise alike. */
  lemma NormalizeIgnoresCase(s: string)
    ensures NormalizeHeader(ToLower(s)) == NormalizeHeader(s)
  {
    ToLowerIdempotent(s);
  }

  /** Spaces, underscores and other punctuation do not matter: removing a
      separator that holds no letter or digit leaves the normalised header
      unchanged ("Order ID", "Order_ID" and "OrderID" agree). */
  lemma NormalizeIgnoresSeparator(a: string, sep: string, b: string)
    requires forall i :: 0 <= i < |sep| ==> !IsAlnumLower(LowerChar(sep[i]))
    ensures NormalizeHeader(a + sep + b) == NormalizeHeader(a + b)
  {
    ToLowerAppend(a + sep, b);
    ToLowerAppend(a, sep);
    ToLowerAppend(a, b);
    KeepCharsAppend(ToLower(a) + ToLower(sep), ToLower(b), IsAlnumLower);
    KeepCharsAppend(ToLower(a), ToLower(sep), IsAlnumLower);
    KeepCharsAppend(ToLower(a), ToLower(b), IsAlnumLower);
    KeepCharsNone(ToLower(sep), IsAlnumLower);
  }

  lemma OrderIdSpellings()
    ensures NormalizeHeader("Order ID") == NormalizeHeader("OrderID")
    ensures NormalizeHeader("Order_ID") == NormalizeHeader("OrderID")
  {
    assert "Order ID" == "Order" + " " + "ID";
    assert "Order_ID" == "Order" + "_" + "ID";
    assert "OrderID" == "Order" + "ID";
    NormalizeIgnoresSeparator("Order", " ", "ID");
    NormalizeIgnoresSeparator("Order", "_", "ID");
  }

  /** Some candidate normalises to the same string as `key`. */
  predicate MatchesCandidate(key: string, cands: seq<string>) {
    exists c :: c in cands && NormalizeHeader(c) == NormalizeHeader(key)
  }

  /** What `getVal` returns: the value of the first key, in row order, that
      matches a candidate; None (undefined) when no key matches. */
  function FindVal(row: Row, cands: seq<string>): Option<Value> {
    if row == [] then None
    else if MatchesCandidate(row[0].0, cands) then Some(row[0].1)
    else FindVal(row[1..], cands)
  }

  ghost predicate FirstMatchAt(row: Row, cands: seq<string>, i: int) {
    0 <= i < |row| && MatchesCandidate(row[i].0, cands)
    && forall j :: 0 <= j < i ==> !MatchesCandidate(row[j].0, cands)
  }

  /** `getVal` (the early-return loop over the row's keys). */
  method GetVal(row: Row, cands: seq<string>) returns (r: Option<Value>)
    ensures r == FindVal(row, cands)
  {
    var i := 0;
    while i < |row|
      invariant 0 <= i <= |row|
      invariant FindVal(row[i..], cands) == FindVal(row, cands)
    {
      assert row[i..][0] == row[i] && row[i..][1..] == row[i + 1..];
      if MatchesCandidate(row[i].0, cands) {
        return Some(row[i].1);
      }
      i := i + 1;
    }
    r := None;
  }

  /** `getVal` finds the first matching key in row order, and undefined
      exactly when no key matches. */
  lemma {:induction false} FindValNone(row: Row, cands: seq<string>)
    ensures FindVal(row, cands).None? <==> forall i :: 0 <= i < |row| ==> !MatchesCandidate(row[i].0, cands)
  {
    if row != [] {
      FindValNone(row[1..], cands);
      assert forall i :: 0 < i < |row| ==> row[i] == row[1..][i - 1];
    }
  }

  lemma {:induction false} FindValFirstMatch(row: Row, cands: seq<string>)
    ensures FindVal(row, cands).Some? ==>
      exists i :: FirstMatchAt(row, cands, i) && FindVal(row, cands).value == row[i].1
  {
    if row != [] {
      if !MatchesCandidate(row[0].0, cands) {
        FindValFirstMatch(row[1..], cands);
        if FindVal(row[1..], cands).Some? {
          var i :| FirstMatchAt(row[1..], cands, i) && FindVal(row[1..], cands).value == row[1..][i].1;
          assert forall j :: 0 <= j < i ==> row[1..][j] == row[j + 1];
          assert FirstMatchAt(row, cands, i + 1);
        }
      } else {
        assert FirstMatchAt(row, cands, 0);
      }
    }
  }

  /** Candidate order (and spelling, up to normalisation) does not decide
      which key wins: only the set of normalised candidates matters. */
  lemma {:induction false} FindValCandidateOrder(row: Row, c1: seq<string>, c2: seq<string>)
    requires NormalizedSet(c1) == NormalizedSet(c2)
    ensures FindVal(row, c1) == FindVal(row, c2)
  {
    if row != [] {
      MatchesViaSet(row[0].0, c1);
      MatchesViaSet(row[0].0, c2);
      FindValCandidateOrder(row[1..], c1, c2);
    }
  }

  function NormalizedSet(cands: seq<string>): set<string> {
    set c | c in cands :: NormalizeHeader(c)
  }

  lemma MatchesViaSet(key: string, cands: seq<string>)
    ensures MatchesCandidate(key, cands) <==> NormalizeHeader(key) in NormalizedSet(cands)
  {
    var n := NormalizeHeader(key);
    if MatchesCandidate(key, cands) {
      var c :| c in cands && NormalizeHeader(c) == n;
      assert n in NormalizedSet(cands);
    }
    if n in NormalizedSet(cands) {
      var c :| c in cands && NormalizeHeader(c) == n;
      assert MatchesCandidate(key, cands);
    }
  }

  /** Two rows whose headers differ only in case and punctuation resolve
      every alias list to the same value ("Order_ID" and "Order ID"). */
  lemma {:induction false} FindValHeaderSpelling(r1: Row, r2: Row, cands: seq<string>)
    requires |r1| == |r2|
    requires forall i :: 0 <= i < |r1| ==> NormalizeHeader(r1[i].0) == NormalizeHeader(r2[i].0) && r1[i].1 == r2[i].1
    ensures FindVal(r1, cands) == FindVal(r2, cands)
  {
    if r1 != [] {
      assert MatchesCandidate(r1[0].0, cands) == MatchesCandidate(r2[0].0, cands);
      FindValHeaderSpelling(r1[1..], r2[1..], cands);
    }
  }

  // ------------------------------------------------------------ amounts

  /** `parseNumber`: null and undefined are 0; otherwise String(v) with every
      character but digits, "." and "-" removed, read by parseFloat; NaN is 0. */
  function ParseAmount(v: Option<Value>): (r: real)
    ensures Nullish(v) ==> r == 0.0
  {
    if Nullish(v) then 0.0
    else match ParseFloatPrefix(KeepChars(JsString(v.value), NumericChar))
      case None => 0.0
      case Some(x) => x
  }

  /** Every US-dollar rendering "$1,234.56" / "-$5.00" parses back to its amount. */
  lemma FormattedAmountParses(cents: int)
    ensures ParseAmount(Some(Str(FormatUsd(cents)))) == cents as real / 100.0
  {
    var a := if cents < 0 then -cents else cents;
    var f := TwoDigits(a % 100);
    FormatUsdStripped(cents, NumericChar);
    var d := KeepChars(GroupThousands(a / 100), NumericChar);
    ParseFloatOfDecimal(cents < 0, d, f);
    FormattedValue(cents, d);
  }

  /** Accounting parentheses are dropped with the other decoration, so
      "($5.00)" reads as the positive amount 5. */
  lemma AmountIgnoresParentheses(x: string)
    ensures ParseAmount(Some(Str("(" + x + ")"))) == ParseAmount(Some(Str(x)))
  {
    KeepCharsWrapped("(", x, ")", NumericChar);
  }

  lemma ParenthesisedAmountIsPositive(cents: nat)
    ensures ParseAmount(Some(Str("(" + FormatUsd(cents) + ")"))) == cents as real / 100.0
  {
    AmountIgnoresParentheses(FormatUsd(cents));
    FormattedAmountParses(cents);
  }

  /** Text without a digit ("abc", "", "N/A", "-") reads as 0. */
  lemma AmountWithoutDigits(s: string)
    requires forall i :: 0 <= i < |s| ==> !IsDigit(s[i])
    ensures ParseAmount(Some(Str(s))) == 0.0
  {
    var t := KeepChars(s, NumericChar);
    KeepCharsFrom(s, NumericChar);
    var body := if t != [] && t[0] == '-' then t[1..] else t;
    assert body != [] ==> !IsDigit(body[0]) by {
      if body != [] { assert body[0] in s; }
    }
    var rest := body[|LeadingDigits(body)|..];
    assert rest == body;
    assert rest != [] && rest[0] == '.' ==> LeadingDigits(rest[1..]) == [] by {
      if rest != [] && rest[0] == '.' && |rest| > 1 { assert rest[1..][0] in s; }
    }
  }

  /** The quantity rule: `getVal(..) ?? 1`, String(), every character but
      digits and "-" removed, parseInt, and `|| 1` (so 0 and NaN become 1). */
  function ParseQuantity(raw: Option<Value>): (q: int)
    ensures q != 0
    ensures Nullish(raw) ==> q == 1
  {
    // `?? 1` turns a missing quantity into 1, which reads back as 1
    if Nullish(raw) then 1
    else match ParseIntPrefix(KeepChars(JsString(raw.value), IntChar))
      case None => 1
      case Some(n) => if n == 0 then 1 else n
  }

  /** A plain quantity "3" or "-2" reads as itself; "0" reads as 1. */
  lemma QuantityOfDigits(neg: bool, d: string)
    requires AllDigits(d) && d != []
    ensures var n := DigitsValue(d) as int;
            ParseQuantity(Some(Str((if neg then "-" else "") + d))) == (if n == 0 then 1 else if neg then -n else n)
  {
    IntTextOfDigits(neg, d);
  }

  /** Text without a digit reads as quantity 1. */
  lemma QuantityWithoutDigits(s: string)
    requires forall i :: 0 <= i < |s| ==> !IsDigit(s[i])
    ensures ParseQuantity(Some(Str(s))) == 1
  {
    var t := KeepChars(s, IntChar);
    KeepCharsFrom(s, IntChar);
    var body := if t != [] && t[0] == '-' then t[1..] else t;
    assert body != [] ==> !IsDigit(body[0]) by {
      if body != [] { assert body[0] in s; }
    }
  }

  // ------------------------------------------------------------ grouping

  const OrderIdAliases: seq<string> := ["Order ID", "OrderID", "Receipt ID", "ReceiptID", "Order Number"]

  /** The trimmed order id of a row, "" when it has none:
      `String(getVal(r, aliases) || "").trim()`. */
  function OrderIdOf(row: Row): string {
    var oid := FindVal(row, OrderIdAliases);
    if Truthy(oid) then Trim(JsString(oid.value)) else ""
  }

  method OrderIdOfRow(row: Row) returns (id: string)
    ensures id == OrderIdOf(row)
  {
    var oid := GetVal(row, OrderIdAliases);
    id := if Truthy(oid) then Trim(JsString(oid.value)) else "";
  }

  /** The keys of the `grouped` map in insertion order: each non-empty id,
      at its first occurrence. */
  function GroupIds(rows: seq<Row>, key: Row -> string): seq<string> {
    if rows == [] then []
    else
      var ids := GroupIds(rows[..|rows| - 1], key);
      var id := key(rows[|rows| - 1]);
      if id == "" || id in ids then ids else ids + [id]
  }

  /** The rows of group `id`, in input order. */
  function GroupOf(rows: seq<Row>, id: string, key: Row -> string): (g: seq<Row>)
    ensures forall r :: r in g ==> r in rows && key(r) == id
  {
    if rows == [] then []
    else
      var r := rows[|rows| - 1];
      GroupOf(rows[..|rows| - 1], id, key) + (if key(r) == id then [r] else [])
  }

  /** The `grouped` map. */
  function GroupMap(rows: seq<Row>, key: Row -> string): map<string, seq<Row>> {
    map id | id in GroupIds(rows, key) :: GroupOf(rows, id, key)
  }

  lemma {:induction false} GroupIdsSpec(rows: seq<Row>, key: Row -> string)
    ensures forall id :: id in GroupIds(rows, key) <==> id != "" && GroupOf(rows, id, key) != []
    ensures forall i, j :: 0 <= i < j < |GroupIds(rows, key)| ==> GroupIds(rows, key)[i] != GroupIds(rows, key)[j]
  {
    if rows != [] {
      GroupIdsSpec(rows[..|rows| - 1], key);
    }
  }

  /** Every row with a non-empty trimmed id lands in the group of that id,
      and the groups are exactly the ids that occur. */
  lemma {:induction false} GroupMembership(rows: seq<Row>, k: nat, key: Row -> string)
    requires k < |rows|
    ensures key(rows[k]) != "" ==> key(rows[k]) in GroupIds(rows, key) && rows[k] in GroupOf(rows, key(rows[k]), key)
    ensures key(rows[k]) == "" ==> forall id :: rows[k] !in GroupOf(rows, id, key) || id == ""
  {
    var p := rows[..|rows| - 1];
    if k < |rows| - 1 {
      assert rows[k] == p[k];
      GroupMembership(p, k, key);
      GroupIdsSpec(p, key);
      GroupIdsSpec(rows, key);
    } else {
      GroupIdsSpec(rows, key);
    }
  }

  lemma GroupStep(p: seq<Row>, r: Row, key: Row -> string)
    ensures GroupIds(p + [r], key) ==
      (if key(r) == "" || key(r) in GroupIds(p, key) then GroupIds(p, key) else GroupIds(p, key) + [key(r)])
    ensures forall id :: GroupOf(p + [r], id, key) == GroupOf(p, id, key) + (if key(r) == id then [r] else [])
  {
    AppendLast(p, r);
  }

  /** The grouping loop of the import, over any key (the import uses
      `OrderIdOf`); rows whose key is "" are skipped. */
  method GroupRows(rows: seq<Row>, key: Row -> string) returns (ids: seq<string>, groups: map<string, seq<Row>>)
    ensures ids == GroupIds(rows, key)
    ensures groups == GroupMap(rows, key)
  {
    ids, groups := [], map[];
    var i := 0;
    while i < |rows|
      invariant 0 <= i <= |rows|
      invariant ids == GroupIds(rows[..i], key)
      invariant "" !in groups
      invariant forall id :: id in groups <==> id in ids
      invariant forall id :: id in groups ==> groups[id] == GroupOf(rows[..i], id, key)
    {
      ids, groups := GroupRow(rows, i, key, ids, groups);
      i := i + 1;
    }
    WholePrefix(rows);
  }

  /** One iteration of `GroupRows`: row i joins the group of its key,
      which is opened (and its id recorded) on first sight. */
  method GroupRow(rows: seq<Row>, i: nat, key: Row -> string, ids: seq<string>, groups: map<string, seq<Row>>)
    returns (ids': seq<string>, groups': map<string, seq<Row>>)
    requires i < |rows|
    requires ids == GroupIds(rows[..i], key)
    requires "" !in groups
    requires forall id :: id in groups <==> id in ids
    requires forall id :: id in groups ==> groups[id] == GroupOf(rows[..i], id, key)
    ensures ids' == GroupIds(rows[..i + 1], key)
    ensures "" !in groups'
    ensures forall id :: id in groups' <==> id in ids'
    ensures forall id :: id in groups' ==> groups'[id] == GroupOf(rows[..i + 1], id, key)
  {
    ids', groups' := ids, groups;
    var r := rows[i];
    var orderId := key(r);
    PrefixStep(rows, i);
    GroupStep(rows[..i], r, key);
    if orderId != "" {
      if orderId !in groups' {
        GroupIdsSpec(rows[..i], key);
        groups' := groups'[orderId := []];
        ids' := ids' + [orderId];
      }
      groups' := groups'[orderId := groups'[orderId] + [r]];
    }
  }

  // ------------------------------------------------------------ payloads

  datatype LineItem = LineItem(
    productName: Value, sku: Value, size: Value, quantity: int,
    price: real, fees: real, cogs: real)

  datatype OrderPayload = OrderPayload(
    userId: string, orderId: string, orderDate: Option<Value>, storeName: Value,
    source: string, totalPrice: real, totalFees: real, totalCogs: real)

  const ProductAliases: seq<string> := ["Title", "Item Name", "Listing Title", "Product Name"]
  const SkuAliases: seq<string> := ["SKU", "Sku"]
  const SizeAliases: seq<string> := ["Size", "Variation", "Variations"]
  const QuantityAliases: seq<string> := ["Quantity", "Qty"]
  const PriceAliases: seq<string> := ["Item Total", "Price", "Unit Price", "ItemPrice"]
  const FeeAliases: seq<string> := ["Fees", "Transaction Fee", "Processing Fee"]
  const DateAliases: seq<string> := ["Sale Date", "Order Date", "Created At", "CreatedAt"]
  const CompactDateAliases: seq<string> := ["SaleDate", "OrderDate"]
  const StoreAliases: seq<string> := ["Shop Name", "Store", "Store Name"]

  /** `a || b` on looked-up values. */
  function OrElse(a: Option<Value>, b: Value): Value {
    if Truthy(a) then a.value else b
  }

  /** The line item one row yields. */
  function LineItemOf(row: Row): LineItem {
    LineItem(
      OrElse(FindVal(row, ProductAliases), Str("Unknown")),
      OrElse(FindVal(row, SkuAliases), Null),
      OrElse(FindVal(row, SizeAliases), Null),
      ParseQuantity(FindVal(row, QuantityAliases)),
      ParseAmount(FindVal(row, PriceAliases)),
      ParseAmount(FindVal(row, FeeAliases)),
      0.0)
  }

  /** Line items never have quantity 0 and always have a product name. */
  lemma LineItemDefaults(row: Row)
    ensures LineItemOf(row).quantity != 0
    ensures Truthy(Some(LineItemOf(row).productName))
    ensures !Truthy(FindVal(row, ProductAliases)) ==> LineItemOf(row).productName == Str("Unknown")
    ensures FindVal(row, QuantityAliases).None? ==> LineItemOf(row).quantity == 1
    ensures LineItemOf(row).cogs == 0.0
  {
  }

  method BuildLineItem(row: Row) returns (li: LineItem)
    ensures li == LineItemOf(row)
  {
    var product := GetVal(row, ProductAliases);
    var sku := GetVal(row, SkuAliases);
    var size := GetVal(row, SizeAliases);
    var qtyRaw := GetVal(row, QuantityAliases);
    var price := GetVal(row, PriceAliases);
    var fees := GetVal(row, FeeAliases);
    li := LineItem(OrElse(product, Str("Unknown")), OrElse(sku, Null), OrElse(size, Null),
                   ParseQuantity(qtyRaw), ParseAmount(price), ParseAmount(fees), 0.0);
  }

  function ItemsOf(group: seq<Row>): (items: seq<LineItem>)
    ensures |items| == |group|
  {
    if group == [] then []
    else ItemsOf(group[..|group| - 1]) + [LineItemOf(group[|group| - 1])]
  }

  function SumPrice(items: seq<LineItem>): real {
    if items == [] then 0.0 else SumPrice(items[..|items| - 1]) + items[|items| - 1].price
  }

  function SumFees(items: seq<LineItem>): real {
    if items == [] then 0.0 else SumFees(items[..|items| - 1]) + items[|items| - 1].fees
  }

  function SumCogs(items: seq<LineItem>): real {
    if items == [] then 0.0 else SumCogs(items[..|items| - 1]) + items[|items| - 1].cogs
  }

  /** The order date: the first truthy of the two date lookups on the first
      row. The conversion to an ISO string is not modelled. */
  function OrderDateOf(first: Row): Option<Value> {
    var d1 := FindVal(first, DateAliases);
    if Truthy(d1) then d1
    else
      var d2 := FindVal(first, CompactDateAliases);
      if Truthy(d2) then d2 else None
  }

  /** The payload of one order group. */
  function PayloadOf(userId: string, orderId: string, group: seq<Row>): OrderPayload {
    var first := if group == [] then [] else group[0];
    var items := ItemsOf(group);
    OrderPayload(userId, orderId, OrderDateOf(first),
                 OrElse(FindVal(first, StoreAliases), Str("CSV Import")),
                 "csv", SumPrice(items), SumFees(items), SumCogs(items))
  }

  lemma {:induction false} SumCogsZero(items: seq<LineItem>)
    requires forall k :: 0 <= k < |items| ==> items[k].cogs == 0.0
    ensures SumCogs(items) == 0.0
  {
    if items != [] { SumCogsZero(items[..|items| - 1]); }
  }

  lemma {:induction false} ItemsOfCogs(group: seq<Row>)
    ensures forall k :: 0 <= k < |ItemsOf(group)| ==> ItemsOf(group)[k].cogs == 0.0
  {
    if group != [] {
      ItemsOfCogs(group[..|group| - 1]);
      var p := ItemsOf(group[..|group| - 1]);
      forall k | 0 <= k < |ItemsOf(group)| ensures ItemsOf(group)[k].cogs == 0.0 {
        if k < |p| { assert ItemsOf(group)[k] == p[k]; }
      }
    }
  }

  /** Header defaults of a payload: COGS total 0, source "csv", store name
      "CSV Import" when the first row names none. */
  lemma PayloadDefaults(userId: string, orderId: string, group: seq<Row>)
    ensures PayloadOf(userId, orderId, group).totalCogs == 0.0
    ensures PayloadOf(userId, orderId, group).source == "csv"
    ensures group != [] && !Truthy(FindVal(group[0], StoreAliases)) ==>
      PayloadOf(userId, orderId, group).storeName == Str("CSV Import")
    ensures Truthy(Some(PayloadOf(userId, orderId, group).storeName))
  {
    ItemsOfCogs(group);
    SumCogsZero(ItemsOf(group));
  }

  method BuildOrder(userId: string, orderId: string, group: seq<Row>)
    returns (payload: OrderPayload, lines: seq<LineItem>)
    ensures payload == PayloadOf(userId, orderId, group)
    ensures lines == ItemsOf(group)
  {
    var totalPrice, totalFees, totalCogs := 0.0, 0.0, 0.0;
    var first := if group == [] then [] else group[0];
    var d1 := GetVal(first, DateAliases);
    var dateStr := d1;
    if !Truthy(d1) {
      var d2 := GetVal(first, CompactDateAliases);
      dateStr := if Truthy(d2) then d2 else None;
    }
    var store := GetVal(first, StoreAliases);
    lines := [];
    var j := 0;
    while j < |group|
      invariant 0 <= j <= |group|
      invariant lines == ItemsOf(group[..j])
      invariant totalPrice == SumPrice(lines) && totalFees == SumFees(lines) && totalCogs == SumCogs(lines)
    {
      var li := BuildLineItem(group[j]);
      PrefixStep(group, j);
      totalPrice := totalPrice + li.price;
      totalFees := totalFees + li.fees;
      totalCogs := totalCogs + li.cogs;
      AppendLast(lines, li);
      lines := lines + [li];
      j := j + 1;
    }
    WholePrefix(group);
    payload := OrderPayload(userId, orderId, dateStr, OrElse(store, Str("CSV Import")),
                            "csv", totalPrice, totalFees, totalCogs);
  }

  /** `ordersPayload`, one entry per id. */
  function PayloadsOf(userId: string, ids: seq<string>, groups: map<string, seq<Row>>): (ps: seq<OrderPayload>)
    requires forall id :: id in ids ==> id in groups
    ensures |ps| == |ids|
  {
    if ids == [] then []
    else
      var id := ids[|ids| - 1];
      PayloadsOf(userId, ids[..|ids| - 1], groups) + [PayloadOf(userId, id, groups[id])]
  }

  /** `orderItemsByOrderId`. */
  function ItemsById(ids: seq<string>, groups: map<string, seq<Row>>): map<string, seq<LineItem>>
    requires forall id :: id in ids ==> id in groups
  {
    map id | id in ids :: ItemsOf(groups[id])
  }

  lemma PayloadsStep(userId: string, ids: seq<string>, k: nat, groups: map<string, seq<Row>>)
    requires k < |ids| && forall id :: id in ids ==> id in groups
    ensures PayloadsOf(userId, ids[..k + 1], groups) ==
            PayloadsOf(userId, ids[..k], groups) + [PayloadOf(userId, ids[k], groups[ids[k]])]
  {
    PrefixStep(ids, k);
  }

  lemma ItemsByIdStep(ids: seq<string>, id: string, groups: map<string, seq<Row>>)
    requires forall x :: x in ids + [id] ==> x in groups
    ensures ItemsById(ids + [id], groups) == ItemsById(ids, groups)[id := ItemsOf(groups[id])]
  {
    var a := ItemsById(ids + [id], groups);
    var b := ItemsById(ids, groups)[id := ItemsOf(groups[id])];
    assert a.Keys == b.Keys;
    forall x | x in a.Keys ensures a[x] == b[x] {
    }
  }

  method BuildOrders(userId: string, ids: seq<string>, groups: map<string, seq<Row>>)
    returns (payloads: seq<OrderPayload>, itemsById: map<string, seq<LineItem>>)
    requires forall id :: id in ids ==> id in groups
    ensures payloads == PayloadsOf(userId, ids, groups)
    ensures itemsById == ItemsById(ids, groups)
  {
    payloads, itemsById := [], map[];
    var k := 0;
    while k < |ids|
      invariant 0 <= k <= |ids|
      invariant payloads == PayloadsOf(userId, ids[..k], groups)
      invariant itemsById == ItemsById(ids[..k], groups)
    {
      payloads, itemsById := AddOrder(userId, ids, k, groups, payloads, itemsById);
      k := k + 1;
    }
    WholePrefix(ids);
  }

  /** One iteration of `BuildOrders`: the payload and the line items of the
      k-th group are appended. */
  method AddOrder(userId: string, ids: seq<string>, k: nat, groups: map<string, seq<Row>>,
                  payloads: seq<OrderPayload>, itemsById: map<string, seq<LineItem>>)
    returns (payloads': seq<OrderPayload>, itemsById': map<string, seq<LineItem>>)
    requires k < |ids| && forall id :: id in ids ==> id in groups
    requires payloads == PayloadsOf(userId, ids[..k], groups)
    requires itemsById == ItemsById(ids[..k], groups)
    ensures payloads' == PayloadsOf(userId, ids[..k + 1], groups)
    ensures itemsById' == ItemsById(ids[..k + 1], groups)
  {
    var id := ids[k];
    PayloadsStep(userId, ids, k, groups);
    PrefixStep(ids, k);
    ItemsByIdStep(ids[..k], id, groups);
    var p, lines := BuildOrder(userId, id, groups[id]);
    payloads' := payloads + [p];
    itemsById' := itemsById[id := lines];
  }

  // ------------------------------------------------------------ totals

  /** The sum of `w` over the rows of `g`. */
  function RowSum(g: seq<Row>, w: Row -> real): real {
    if g == [] then 0.0 else RowSum(g[..|g| - 1], w) + w(g[|g| - 1])
  }

  /** The sum of `w` over the rows that have an order id. */
  function KeptSum(rows: seq<Row>, w: Row -> real, key: Row -> string): real {
    if rows == [] then 0.0
    else KeptSum(rows[..|rows| - 1], w, key) + (if key(rows[|rows| - 1]) != "" then w(rows[|rows| - 1]) else 0.0)
  }

  /** The sum of `w` over the groups `ids`. */
  function GroupSum(rows: seq<Row>, ids: seq<string>, w: Row -> real, key: Row -> string): real {
    if ids == [] then 0.0
    else GroupSum(rows, ids[..|ids| - 1], w, key) + RowSum(GroupOf(rows, ids[|ids| - 1], key), w)
  }

  lemma {:induction false} GroupSumStep(p: seq<Row>, r: Row, ids: seq<string>, w: Row -> real, key: Row -> string)
    requires Distinct(ids)
    ensures GroupSum(p + [r], ids, w, key) ==
            GroupSum(p, ids, w, key) + (if key(r) in ids then w(r) else 0.0)
  {
    if ids != [] {
      var ids' := ids[..|ids| - 1];
      var y := ids[|ids| - 1];
      DistinctInit(ids);
      GroupSumStep(p, r, ids', w, key);
      GroupStep(p, r, key);
      SplitLast(ids);
      var g := GroupOf(p, y, key);
      if key(r) == y {
        RowSumSnoc(g, r, w);
      } else {
        AppendLast(g, r);
      }
    }
  }

  lemma RowSumSnoc(g: seq<Row>, r: Row, w: Row -> real)
    ensures RowSum(g + [r], w) == RowSum(g, w) + w(r)
  {
    AppendLast(g, r);
  }

  /** Grouping neither loses nor duplicates rows: summing any per-row quantity
      group by group gives its sum over the rows that have an order id. */
  lemma {:induction false} GroupedSumConserved(rows: seq<Row>, w: Row -> real, key: Row -> string)
    ensures GroupSum(rows, GroupIds(rows, key), w, key) == KeptSum(rows, w, key)
  {
    if rows != [] {
      var p := rows[..|rows| - 1];
      var r := rows[|rows| - 1];
      SplitLast(rows);
      var x := key(r);
      var ids := GroupIds(p, key);
      GroupedSumConserved(p, w, key);
      GroupIdsSpec(p, key);
      if x == "" || x in ids {
        GroupSumStep(p, r, ids, w, key);
      } else {
        GroupSumStep(p, r, ids, w, key);
        AppendLast(ids, x);
        assert GroupOf(p, x, key) == [];
        assert GroupOf(rows, x, key) == [r];
        assert RowSum([r], w) == w(r) by { AppendLast([], r); }
      }
    }
  }

  function OneOf(r: Row): real { 1.0 }
  function PriceOf(r: Row): real { LineItemOf(r).price }
  function FeesOf(r: Row): real { LineItemOf(r).fees }

  lemma {:induction false} RowSumCount(g: seq<Row>)
    ensures RowSum(g, OneOf) == |g| as real
  {
    if g != [] { RowSumCount(g[..|g| - 1]); }
  }

  lemma {:induction false} ItemsSums(g: seq<Row>)
    ensures SumPrice(ItemsOf(g)) == RowSum(g, PriceOf)
    ensures SumFees(ItemsOf(g)) == RowSum(g, FeesOf)
  {
    if g != [] {
      ItemsSums(g[..|g| - 1]);
      var items := ItemsOf(g);
      assert items[..|items| - 1] == ItemsOf(g[..|g| - 1]);
    }
  }

  function TotalPrice(ps: seq<OrderPayload>): real {
    if ps == [] then 0.0 else TotalPrice(ps[..|ps| - 1]) + ps[|ps| - 1].totalPrice
  }

  function TotalFees(ps: seq<OrderPayload>): real {
    if ps == [] then 0.0 else TotalFees(ps[..|ps| - 1]) + ps[|ps| - 1].totalFees
  }

  lemma {:induction false} PayloadTotalsAreGroupSums(userId: string, rows: seq<Row>, ids: seq<string>)
    requires forall id :: id in ids ==> id in GroupMap(rows, OrderIdOf)
    ensures TotalPrice(PayloadsOf(userId, ids, GroupMap(rows, OrderIdOf))) == GroupSum(rows, ids, PriceOf, OrderIdOf)
    ensures TotalFees(PayloadsOf(userId, ids, GroupMap(rows, OrderIdOf))) == GroupSum(rows, ids, FeesOf, OrderIdOf)
  {
    if ids != [] {
      var ids' := ids[..|ids| - 1];
      var id := ids[|ids| - 1];
      PayloadTotalsAreGroupSums(userId, rows, ids');
      var ps := PayloadsOf(userId, ids, GroupMap(rows, OrderIdOf));
      assert ps[..|ps| - 1] == PayloadsOf(userId, ids', GroupMap(rows, OrderIdOf));
      ItemsSums(GroupOf(rows, id, OrderIdOf));
    }
  }

  /** Each order's totals are the sums of its line prices and fees, so over
      the whole import the order totals add up to the line amounts of every
      row that carries an order id, and the line items number exactly those
      rows. */
  lemma OrderTotalsConserved(userId: string, rows: seq<Row>)
    ensures TotalPrice(PayloadsOf(userId, GroupIds(rows, OrderIdOf), GroupMap(rows, OrderIdOf))) == KeptSum(rows, PriceOf, OrderIdOf)
    ensures TotalFees(PayloadsOf(userId, GroupIds(rows, OrderIdOf), GroupMap(rows, OrderIdOf))) == KeptSum(rows, FeesOf, OrderIdOf)
    ensures GroupSum(rows, GroupIds(rows, OrderIdOf), OneOf, OrderIdOf) == KeptSum(rows, OneOf, OrderIdOf)
  {
    PayloadTotalsAreGroupSums(userId, rows, GroupIds(rows, OrderIdOf));
    GroupedSumConserved(rows, PriceOf, OrderIdOf);
    GroupedSumConserved(rows, FeesOf, OrderIdOf);
    GroupedSumConserved(rows, OneOf, OrderIdOf);
  }

  // ------------------------------------------------------------ store

  /** The store's reply to the upsert: the (order_id, id) pairs it returns,
      or an error message. A null data reply is the empty sequence. */
  datatype UpsertReply = UpsertOk(rows: seq<(string, string)>) | UpsertErr(message: string)

  datatype InsertReply = InsertOk | InsertErr(message: string)

  datatype ItemInsert = ItemInsert(orderPk: string, item: LineItem)

  datatype ImportOutcome =
    | NoRows
    | NoOrderIds
    | Failed(message: string)
    | Imported(insertedCount: nat, duplicates: int, uniqueCount: nat, items: seq<ItemInsert>)

  /** `insertedMap`: later pairs for the same order id overwrite earlier ones. */
  function ReplyMap(reply: seq<(string, string)>): (m: map<string, string>)
    ensures forall id :: id in m <==> exists k :: 0 <= k < |reply| && reply[k].0 == id
  {
    if reply == [] then map[]
    else
      var p := reply[..|reply| - 1];
      var m := ReplyMap(p)[reply[|reply| - 1].0 := reply[|reply| - 1].1];
      assert forall k :: 0 <= k < |p| ==> p[k] == reply[k];
      m
  }

  method CollectInserted(reply: seq<(string, string)>) returns (m: map<string, string>)
    ensures m == ReplyMap(reply)
  {
    m := map[];
    var k := 0;
    while k < |reply|
      invariant 0 <= k <= |reply|
      invariant m == ReplyMap(reply[..k])
    {
      PrefixStep(reply, k);
      m := m[reply[k].0 := reply[k].1];
      k := k + 1;
    }
    WholePrefix(reply);
  }

  /** The order has a primary key in the reply (`if (!orderPk) continue`). */
  predicate Returned(m: map<string, string>, id: string) {
    id in m && m[id] != ""
  }

  function Attach(pk: string, lines: seq<LineItem>): (r: seq<ItemInsert>)
    ensures |r| == |lines|
    ensures forall k :: 0 <= k < |r| ==> r[k] == ItemInsert(pk, lines[k])
  {
    if lines == [] then [] else Attach(pk, lines[..|lines| - 1]) + [ItemInsert(pk, lines[|lines| - 1])]
  }

  /** `itemsToInsert`: the lines of every returned order, in order-id order. */
  function ItemsToInsert(ids: seq<string>, itemsById: map<string, seq<LineItem>>, m: map<string, string>): seq<ItemInsert>
    requires forall id :: id in ids ==> id in itemsById
  {
    if ids == [] then []
    else
      var id := ids[|ids| - 1];
      ItemsToInsert(ids[..|ids| - 1], itemsById, m) + (if Returned(m, id) then Attach(m[id], itemsById[id]) else [])
  }

  /** Items are emitted only for orders the store returned, each carrying
      that order's primary key, and every line of a returned order is
      emitted. */
  lemma {:induction false} ItemsToInsertSpec(ids: seq<string>, itemsById: map<string, seq<LineItem>>, m: map<string, string>)
    requires forall id :: id in ids ==> id in itemsById
    ensures forall it :: it in ItemsToInsert(ids, itemsById, m) ==>
      exists id :: id in ids && Returned(m, id) && it.orderPk == m[id] && it.item in itemsById[id]
    ensures forall id, li :: id in ids && Returned(m, id) && li in itemsById[id] ==>
      ItemInsert(m[id], li) in ItemsToInsert(ids, itemsById, m)
  {
    if ids != [] {
      var ids' := ids[..|ids| - 1];
      var id := ids[|ids| - 1];
      ItemsToInsertSpec(ids', itemsById, m);
      var prev := ItemsToInsert(ids', itemsById, m);
      var add := if Returned(m, id) then Attach(m[id], itemsById[id]) else [];
      assert ItemsToInsert(ids, itemsById, m) == prev + add;
      forall it: ItemInsert | it in prev + add
        ensures exists id :: id in ids && Returned(m, id) && it.orderPk == m[id] && it.item in itemsById[id]
      {
        if it in prev {
          var id0 :| id0 in ids' && Returned(m, id0) && it.orderPk == m[id0] && it.item in itemsById[id0];
          assert id0 in ids;
        } else {
          var k :| 0 <= k < |add| && add[k] == it;
          assert itemsById[id][k] == it.item;
        }
      }
      forall id0, li | id0 in ids && Returned(m, id0) && li in itemsById[id0]
        ensures ItemInsert(m[id0], li) in prev + add
      {
        if id0 != id {
          assert id0 in ids';
        } else {
          var k :| 0 <= k < |itemsById[id]| && itemsById[id][k] == li;
          assert add[k] == ItemInsert(m[id0], li);
        }
      }
    }
  }

  method AttachItems(ids: seq<string>, itemsById: map<string, seq<LineItem>>, m: map<string, string>)
    returns (items: seq<ItemInsert>)
    requires forall id :: id in ids ==> id in itemsById
    ensures items == ItemsToInsert(ids, itemsById, m)
  {
    items := [];
    var k := 0;
    while k < |ids|
      invariant 0 <= k <= |ids|
      invariant items == ItemsToInsert(ids[..k], itemsById, m)
    {
      var id := ids[k];
      PrefixStep(ids, k);
      if id in m && m[id] != "" {
        var pk := m[id];
        var lines := itemsById[id];
        var j := 0;
        ghost var before := items;
        while j < |lines|
          invariant 0 <= j <= |lines|
          invariant items == before + Attach(pk, lines[..j])
        {
          PrefixStep(lines, j);
          items := items + [ItemInsert(pk, lines[j])];
          j := j + 1;
        }
        WholePrefix(lines);
      }
      k := k + 1;
    }
    WholePrefix(ids);
  }

  const DefaultFailure := "Please verify your CSV format and try again."

  /** The message the failure toast shows: `e?.message || default`. */
  function FailureMessage(message: string): string {
    if message == "" then DefaultFailure else message
  }

  /** What happens once the payloads are sent: the store's reply decides
      which orders get their line items, and the counts are reported. */
  function StoreOutcome(ids: seq<string>, itemsById: map<string, seq<LineItem>>, reply: UpsertReply,
                        insertItems: seq<ItemInsert> -> InsertReply): ImportOutcome
    requires forall id :: id in ids ==> id in itemsById
  {
    match reply
    case UpsertErr(msg) => Failed(FailureMessage(msg))
    case UpsertOk(pairs) =>
      var m := ReplyMap(pairs);
      var items := ItemsToInsert(ids, itemsById, m);
      if items != [] && insertItems(items).InsertErr? then Failed(FailureMessage(insertItems(items).message))
      else Imported(|m|, |ids| - |m|, |ids|, items)
  }

  /** What the import does with the parsed rows, given the store's answers. */
  function ImportSpec(userId: string, rows: seq<Row>,
                      upsert: seq<OrderPayload> -> UpsertReply,
                      insertItems: seq<ItemInsert> -> InsertReply): ImportOutcome
  {
    if rows == [] then NoRows
    else
      var ids := GroupIds(rows, OrderIdOf);
      if ids == [] then NoOrderIds
      else
        var groups := GroupMap(rows, OrderIdOf);
        StoreOutcome(ids, ItemsById(ids, groups), upsert(PayloadsOf(userId, ids, groups)), insertItems)
  }

  /** `handleImport` after the file has been parsed and the session checked. */
  method HandleImport(userId: string, rows: seq<Row>,
                      upsert: seq<OrderPayload> -> UpsertReply,
                      insertItems: seq<ItemInsert> -> InsertReply)
    returns (outcome: ImportOutcome)
    ensures outcome == ImportSpec(userId, rows, upsert, insertItems)
  {
    if |rows| == 0 {
      return NoRows;
    }
    var ids, groups := GroupRows(rows, OrderIdOf);
    FirstIdGrouped(rows, OrderIdOf);
    if |groups| == 0 {
      return NoOrderIds;
    }
    assert ids != [] by {
      assert groups.Keys != {};
      var k :| k in groups.Keys;
      assert k in ids;
    }
    var payloads, itemsById := BuildOrders(userId, ids, groups);
    outcome := FinishImport(ids, itemsById, upsert(payloads), insertItems);
  }

  /** The part of `handleImport` after the upsert. */
  method FinishImport(ids: seq<string>, itemsById: map<string, seq<LineItem>>, reply: UpsertReply,
                      insertItems: seq<ItemInsert> -> InsertReply)
    returns (outcome: ImportOutcome)
    requires forall id :: id in ids ==> id in itemsById
    ensures outcome == StoreOutcome(ids, itemsById, reply, insertItems)
  {
    if reply.UpsertErr? {
      return Failed(FailureMessage(reply.message));
    }
    var m := CollectInserted(reply.rows);
    var items := AttachItems(ids, itemsById, m);
    if |items| > 0 {
      var r := insertItems(items);
      if r.InsertErr? {
        return Failed(FailureMessage(r.message));
      }
    }
    var totalUnique := |ids|;
    var insertedCount := |m|;
    outcome := Imported(insertedCount, totalUnique - insertedCount, totalUnique, items);
  }

  /** An import with no order id stops before the store is called: its
      outcome is the same whatever the store would answer. */
  lemma NoOrderIdsNoUpsert(userId: string, rows: seq<Row>,
                           up1: seq<OrderPayload> -> UpsertReply, ins1: seq<ItemInsert> -> InsertReply,
                           up2: seq<OrderPayload> -> UpsertReply, ins2: seq<ItemInsert> -> InsertReply)
    requires rows != []
    requires forall k :: 0 <= k < |rows| ==> OrderIdOf(rows[k]) == ""
    ensures ImportSpec(userId, rows, up1, ins1) == NoOrderIds
    ensures ImportSpec(userId, rows, up2, ins2) == NoOrderIds
  {
    NoIdsNoGroups(rows, OrderIdOf);
  }

  lemma FirstIdGrouped(rows: seq<Row>, key: Row -> string)
    ensures GroupIds(rows, key) != [] ==> GroupIds(rows, key)[0] in GroupMap(rows, key)
  {
  }

  lemma {:induction false} NoIdsNoGroups(rows: seq<Row>, key: Row -> string)
    requires forall k :: 0 <= k < |rows| ==> key(rows[k]) == ""
    ensures GroupIds(rows, key) == []
  {
    if rows != [] {
      NoIdsNoGroups(rows[..|rows| - 1], key);
    }
  }

  /** The reported counts: the unique orders are the distinct ids, the
      inserted ones are the distinct ids the store returned, and the
      duplicates the rest; when the store returns only ids it was sent, no
      count is negative and inserted plus duplicates is the unique count. */
  lemma StoreCounts(ids: seq<string>, itemsById: map<string, seq<LineItem>>,
                    reply: seq<(string, string)>, insertItems: seq<ItemInsert> -> InsertReply)
    requires forall id :: id in ids ==> id in itemsById
    requires forall i, j :: 0 <= i < j < |ids| ==> ids[i] != ids[j]
    requires forall k :: 0 <= k < |reply| ==> reply[k].0 in ids
    ensures var out := StoreOutcome(ids, itemsById, UpsertOk(reply), insertItems);
      out.Imported? ==> out.uniqueCount == |ids| && 0 <= out.duplicates &&
                        out.insertedCount == |ReplyMap(reply)| &&
                        out.insertedCount + out.duplicates == out.uniqueCount
  {
    var m := ReplyMap(reply);
    assert m.Keys <= set id | id in ids;
    DistinctCard(ids);
    SubsetCard(m.Keys, set id | id in ids);
  }

  /** The order ids handed to the store are distinct and non-empty. */
  lemma ImportIdsDistinct(rows: seq<Row>)
    ensures forall i, j :: 0 <= i < j < |GroupIds(rows, OrderIdOf)| ==> GroupIds(rows, OrderIdOf)[i] != GroupIds(rows, OrderIdOf)[j]
    ensures "" !in GroupIds(rows, OrderIdOf)
  {
    GroupIdsSpec(rows, OrderIdOf);
  }

  lemma {:induction false} DistinctCard(ids: seq<string>)
    requires Distinct(ids)
    ensures |set id | id in ids| == |ids|
  {
    if ids != [] {
      var p := ids[..|ids| - 1];
      DistinctInit(ids);
      DistinctCard(p);
      SplitLast(ids);
      assert (set id | id in ids) == (set id | id in p) + {ids[|ids| - 1]};
    }
  }

  lemma SubsetCard(a: set<string>, b: set<string>)
    requires a <= b
    ensures |a| <= |b|
  {
    assert b == a + (b - a);
  }
}

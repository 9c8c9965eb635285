/** The cleaner for Pirate Ship's simple transaction export: label rows are
    kept, everything else (payments, malformed rows) is counted as ignored. */
module PirateShipCsv {
  import opened JsValues

  /** `isLabelType`: a string whose trimmed, lower-cased form is "label". */
  predicate IsLabelType(v: Option<Value>) {
    v.Some? && v.value.Str? && LowerTrim(v.value.s) == "label"
  }

  /** `isPaymentType`: the same test against "payment". */
  predicate IsPaymentType(v: Option<Value>) {
    v.Some? && v.value.Str? && LowerTrim(v.value.s) == "payment"
  }

  /** Whitespace around the type and its letter case do not matter:
      " LABEL\t" is a label. */
  lemma LabelTypePadded(p: string, w: string, q: string)
    requires forall i :: 0 <= i < |p| ==> IsSpace(p[i])
    requires forall i :: 0 <= i < |q| ==> IsSpace(q[i])
    requires ToLower(w) == "label"
    ensures IsLabelType(Some(Str(p + w + q)))
    ensures !IsPaymentType(Some(Str(p + w + q)))
  {
    assert LowerChar(w[0]) == 'l' && LowerChar(w[|w| - 1]) == 'l';
    TrimPadded(p, w, q);
  }

  /** `parseNumber`, shared by both Pirate Ship parsers: numbers pass
      through, strings lose "$" and "," and go through Number(), and a
      non-finite result or any other type is null (None). */
  function ParseNumber(v: Option<Value>): (r: Option<real>)
    ensures v.Some? && v.value.Num? ==> r == Some(v.value.n)
    ensures v.None? || (!v.value.Num? && !v.value.Str?) ==> r.None?
  {
    match v
    case Some(Num(n, _)) => Some(n)
    case Some(Str(s)) => FiniteValue(NumberOfString(KeepChars(s, NotDollarComma)))
    case _ => None
  }

  /** Number("") is 0: an empty Total, or one holding only "$", "," and
      whitespace, parses as 0 rather than null. */
  lemma ParseNumberBlank(s: string)
    requires forall i :: 0 <= i < |s| ==> IsSpace(s[i]) || s[i] == '$' || s[i] == ','
    ensures ParseNumber(Some(Str(s))) == Some(0.0)
  {
    var t := KeepChars(s, NotDollarComma);
    KeepCharsFrom(s, NotDollarComma);
    assert forall i :: 0 <= i < |t| ==> IsSpace(t[i]) by {
      forall i | 0 <= i < |t| ensures IsSpace(t[i]) {
        assert t[i] in s && NotDollarComma(t[i]);
      }
    }
    AllSpaceNumber(t);
  }

  /** A string whose "$"/","-stripped form is a finite numeral reads as
      that number. */
  lemma ParseNumberOfNumeral(s: string, x: real)
    requires NumberOfString(KeepChars(s, NotDollarComma)) == Finite(x)
    ensures ParseNumber(Some(Str(s))) == Some(x)
  {
    ParseNumberOfText(s);
    FiniteValueOf(KeepChars(s, NotDollarComma), x);
  }

  /** With "$" and "," removed, a total written as `FormatUsd` renders it,
      such as `-$1,234.56`, is a numeral of its value; with
      `ParseNumberOfNumeral` it reads back as that value. */
  lemma FormattedNumeral(cents: int)
    ensures NumberOfString(KeepChars(FormatUsd(cents), NotDollarComma)) == Finite(cents as real / 100.0)
  {
    DollarCommaKeep();
    NumberOfFormatted(cents, NotDollarComma);
  }

  /** The string case of `parseNumber`, unfolded. */
  lemma ParseNumberOfText(s: string)
    ensures ParseNumber(Some(Str(s))) == FiniteValue(NumberOfString(KeepChars(s, NotDollarComma)))
  {
  }

  lemma DollarCommaKeep()
    ensures forall c :: IsDigit(c) ==> NotDollarComma(c)
    ensures !NotDollarComma(',') && !NotDollarComma('$') && NotDollarComma('.') && NotDollarComma('-')
  {
  }

  datatype Provider = PirateShip | Shippo | EasyPost | UnknownProvider

  /** A cleaned label; its type is always "Label". */
  datatype CleanedLabel = CleanedLabel(provider: Provider, labelType: string, date: string,
                                       description: string, total: real)

  /** `String(row[key] ?? "").trim()` */
  function TextField(row: Row, key: string): (t: string)
    ensures t != [] ==> !IsSpace(t[0]) && !IsSpace(t[|t| - 1])
  {
    var v := Lookup(row, key);
    if Nullish(v) then "" else Trim(JsString(v.value))
  }

  /** The label a row yields, or None when it is ignored: a row is kept
      exactly when its Type is a label and it has a date, a description and
      a finite Total. */
  function CleanRow(row: Row): (r: Option<CleanedLabel>)
    ensures r.Some? <==>
      IsLabelType(Lookup(row, "Type")) && TextField(row, "Date") != "" &&
      TextField(row, "Description") != "" && ParseNumber(Lookup(row, "Total")).Some?
    ensures r.Some? ==>
      r.value.provider == PirateShip && r.value.labelType == "Label" &&
      r.value.date == TextField(row, "Date") && r.value.description == TextField(row, "Description") &&
      Some(r.value.total) == ParseNumber(Lookup(row, "Total"))
  {
    if !IsLabelType(Lookup(row, "Type")) then None
    else
      var date := TextField(row, "Date");
      var description := TextField(row, "Description");
      var total := ParseNumber(Lookup(row, "Total"));
      if date == "" || description == "" || total.None? then None
      else Some(CleanedLabel(PirateShip, "Label", date, description, total.value))
  }

  /** `cleanPirateShipCsvRows`: the kept labels in input order, and how many
      rows were ignored; together they account for every row. */
  method CleanPirateShipCsvRows(rows: seq<Row>) returns (cleaned: seq<CleanedLabel>, ignoredCount: nat)
    ensures cleaned == FilterMap(rows, CleanRow)
    ensures ignoredCount == Dropped(rows, CleanRow)
    ensures |cleaned| + ignoredCount == |rows|
  {
    var ignored := 0;
    cleaned := [];
    var i := 0;
    while i < |rows|
      invariant 0 <= i <= |rows|
      invariant cleaned == FilterMap(rows[..i], CleanRow) && ignored == Dropped(rows[..i], CleanRow)
    {
      var row := rows[i];
      FilterMapPrefix(rows, i, CleanRow);
      i := i + 1;
      var ty := Lookup(row, "Type");
      if !IsLabelType(ty) {
        ignored := ignored + 1;
        continue;
      }
      var date := TextField(row, "Date");
      var description := TextField(row, "Description");
      var totalNum := ParseNumber(Lookup(row, "Total"));
      if date == "" || description == "" || totalNum.None? {
        ignored := ignored + 1;
        continue;
      }
      cleaned := cleaned + [CleanedLabel(PirateShip, "Label", date, description, totalNum.value)];
    }
    WholePrefix(rows);
    ignoredCount := ignored;
    FilterMapCount(rows, CleanRow);
  }

  /** A row whose Type is not a label (a payment, a blank, a number) leaves
      no trace in the output and counts as ignored, wherever it stands. */
  lemma NonLabelIgnored(before: seq<Row>, row: Row, after: seq<Row>)
    requires !IsLabelType(Lookup(row, "Type"))
    ensures FilterMap(before + [row] + after, CleanRow) == FilterMap(before, CleanRow) + FilterMap(after, CleanRow)
    ensures Dropped(before + [row] + after, CleanRow) == Dropped(before, CleanRow) + 1 + Dropped(after, CleanRow)
  {
    FilterMapSkip(before, row, after, CleanRow);
    DroppedSkip(before, row, after, CleanRow);
  }

  /** Payment rows are among the ignored ones. */
  lemma PaymentIgnored(row: Row)
    requires IsPaymentType(Lookup(row, "Type"))
    ensures CleanRow(row).None?
  {
    assert !IsLabelType(Lookup(row, "Type"));
  }

  /** `c` is the label cleaned from `row`: a Pirate Ship label whose date
      and description are the row's trimmed, non-empty fields and whose total
      is its Total as parsed (sign kept). */
  predicate LabelFrom(c: CleanedLabel, row: Row) {
    IsLabelType(Lookup(row, "Type")) &&
    c == CleanedLabel(PirateShip, "Label", TextField(row, "Date"), TextField(row, "Description"), c.total) &&
    Some(c.total) == ParseNumber(Lookup(row, "Total")) &&
    c.date != "" && c.description != ""
  }

  /** Every cleaned entry is the label of some input row, and every row that
      qualifies appears. */
  lemma CleanedFromRows(rows: seq<Row>)
    ensures forall c :: c in FilterMap(rows, CleanRow) ==> exists r :: r in rows && LabelFrom(c, r)
    ensures forall r :: r in rows && CleanRow(r).Some? ==> CleanRow(r).value in FilterMap(rows, CleanRow)
  {
    forall c | c in FilterMap(rows, CleanRow) ensures exists r :: r in rows && LabelFrom(c, r) {
      FilterMapFrom(rows, CleanRow, c);
    }
    forall r | r in rows && CleanRow(r).Some? ensures CleanRow(r).value in FilterMap(rows, CleanRow) {
      FilterMapKeeps(rows, CleanRow, r);
    }
  }
}

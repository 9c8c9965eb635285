/** JavaScript values as they arrive in parsed CSV rows, and the string and
    number conversions of the host language that the import code relies on.
    Only the behaviour the modules below need is modelled: ASCII case folding,
    the whitespace set of String.prototype.trim restricted to the common
    characters, and decimal number literals. */
module JsValues {

  datatype Option<+T> = None | Some(value: T) {
    function GetOr(default: T): T {
      match this
      case Some(v) => v
      case None => default
    }
  }

  /** A cell value of a parsed row. `Num` carries the number together with the
      text the host's String(n) would give for it; number-to-string conversion
      is taken as given. `Other` stands for arrays and objects, with their
      String() rendering. */
  datatype Value =
    | Str(s: string)
    | Num(n: real, text: string)
    | Bool(b: bool)
    | Null
    | Other(text: string)

  /** A parsed row: header/value pairs in the row's key-iteration order. */
  type Row = seq<(string, Value)>

  // ---------------------------------------------------------------- text

  predicate IsSpace(c: char) {
    c == ' ' || c == '\t' || c == '\n' || c == '\r' || c == '\U{000B}' || c == '\U{000C}'
    || c == '\U{00A0}' || c == '\U{FEFF}' || c == '\U{2028}' || c == '\U{2029}'
  }

  predicate IsDigit(c: char) { '0' <= c <= '9' }

  predicate AllDigits(s: string) { forall i :: 0 <= i < |s| ==> IsDigit(s[i]) }

  function TrimStart(s: string): (r: string)
    ensures |r| <= |s| && r == s[|s| - |r|..]
    ensures forall j :: 0 <= j < |s| - |r| ==> IsSpace(s[j])
    ensures r != [] ==> !IsSpace(r[0])
  {
    if s != [] && IsSpace(s[0]) then TrimStart(s[1..]) else s
  }

  function TrimEnd(s: string): (r: string)
    ensures |r| <= |s| && r == s[..|r|]
    ensures forall j :: |r| <= j < |s| ==> IsSpace(s[j])
    ensures r != [] ==> !IsSpace(r[|r| - 1])
  {
    if s != [] && IsSpace(s[|s| - 1]) then TrimEnd(s[..|s| - 1]) else s
  }

  /** String.prototype.trim */
  function Trim(s: string): (r: string)
    ensures |r| <= |s|
    ensures r != [] ==> !IsSpace(r[0]) && !IsSpace(r[|r| - 1])
  {
    TrimEnd(TrimStart(s))
  }

  lemma {:induction false} TrimStartSpaces(p: string, x: string)
    requires forall i :: 0 <= i < |p| ==> IsSpace(p[i])
    requires x != [] && !IsSpace(x[0])
    ensures TrimStart(p + x) == x
  {
    if p == [] {
      assert p + x == x;
    } else {
      assert (p + x)[0] == p[0];
      assert (p + x)[1..] == p[1..] + x;
      TrimStartSpaces(p[1..], x);
    }
  }

  lemma {:induction false} TrimEndSpaces(x: string, q: string)
    requires forall i :: 0 <= i < |q| ==> IsSpace(q[i])
    requires x != [] && !IsSpace(x[|x| - 1])
    ensures TrimEnd(x + q) == x
  {
    if q == [] {
      assert x + q == x;
    } else {
      var q' := q[..|q| - 1];
      assert (x + q)[|x + q| - 1] == q[|q| - 1];
      assert (x + q)[..|x + q| - 1] == x + q';
      TrimEndSpaces(x, q');
    }
  }

  /** A string that starts and ends with a non-space is its own trim, whatever
      whitespace surrounds it. */
  lemma {:induction false} TrimPadded(p: string, w: string, q: string)
    requires forall i :: 0 <= i < |p| ==> IsSpace(p[i])
    requires forall i :: 0 <= i < |q| ==> IsSpace(q[i])
    requires w != [] && !IsSpace(w[0]) && !IsSpace(w[|w| - 1])
    ensures Trim(p + w + q) == w
  {
    assert p + w + q == p + (w + q);
    assert (w + q)[0] == w[0];
    TrimStartSpaces(p, w + q);
    TrimEndSpaces(w, q);
  }

  function LowerChar(c: char): char {
    if 'A' <= c <= 'Z' then (c as int + 32) as char else c
  }

  /** String.prototype.toLowerCase on ASCII letters. */
  function ToLower(s: string): (r: string)
    ensures |r| == |s|
    ensures forall i :: 0 <= i < |s| ==> r[i] == LowerChar(s[i])
  {
    seq(|s|, i requires 0 <= i < |s| => LowerChar(s[i]))
  }

  /** `s.trim().toLowerCase()`, the comparison key of the shipping parsers. */
  function LowerTrim(s: string): string {
    ToLower(Trim(s))
  }

  predicate OccursAt(hay: string, needle: string, i: int) {
    0 <= i <= |hay| && needle <= hay[i..]
  }

  /** String.prototype.includes */
  predicate Contains(hay: string, needle: string) {
    exists i :: 0 <= i <= |hay| && OccursAt(hay, needle, i)
  }

  /** Removes every character for which `keep` fails (a global regex replace
      of one character class by ""). */
  function KeepChars(s: string, keep: char -> bool): (r: string)
    ensures |r| <= |s|
    ensures forall i :: 0 <= i < |r| ==> keep(r[i])
  {
    if s == [] then [] else (if keep(s[0]) then [s[0]] else []) + KeepChars(s[1..], keep)
  }

  lemma {:induction false} KeepCharsAppend(a: string, b: string, keep: char -> bool)
    ensures KeepChars(a + b, keep) == KeepChars(a, keep) + KeepChars(b, keep)
  {
    if a == [] {
      assert a + b == b;
    } else {
      assert (a + b)[0] == a[0];
      assert (a + b)[1..] == a[1..] + b;
      KeepCharsAppend(a[1..], b, keep);
    }
  }

  lemma {:induction false} KeepCharsAll(s: string, keep: char -> bool)
    requires forall i :: 0 <= i < |s| ==> keep(s[i])
    ensures KeepChars(s, keep) == s
  {
    if s != [] { KeepCharsAll(s[1..], keep); }
  }

  lemma {:induction false} KeepCharsNone(s: string, keep: char -> bool)
    requires forall i :: 0 <= i < |s| ==> !keep(s[i])
    ensures KeepChars(s, keep) == []
  {
    if s != [] { KeepCharsNone(s[1..], keep); }
  }

  lemma KeepCharsWrapped(a: string, x: string, b: string, keep: char -> bool)
    requires forall i :: 0 <= i < |a| ==> !keep(a[i])
    requires forall i :: 0 <= i < |b| ==> !keep(b[i])
    ensures KeepChars(a + x + b, keep) == KeepChars(x, keep)
  {
    KeepCharsAppend(a + x, b, keep);
    KeepCharsAppend(a, x, keep);
    KeepCharsNone(a, keep);
    KeepCharsNone(b, keep);
  }

  /** The filter keeps only characters of its input. */
  lemma {:induction false} KeepCharsFrom(s: string, keep: char -> bool)
    ensures forall i :: 0 <= i < |KeepChars(s, keep)| ==> KeepChars(s, keep)[i] in s
  {
    if s != [] {
      KeepCharsFrom(s[1..], keep);
      var r := KeepChars(s, keep);
      var t := KeepChars(s[1..], keep);
      forall i | 0 <= i < |r| ensures r[i] in s {
        if keep(s[0]) && i == 0 {
        } else {
          var j := if keep(s[0]) then i - 1 else i;
          assert r[i] == t[j];
          assert t[j] in s[1..];
        }
      }
    }
  }

  lemma ToLowerAppend(a: string, b: string)
    ensures ToLower(a + b) == ToLower(a) + ToLower(b)
  {
  }

  lemma ToLowerIdempotent(s: string)
    ensures ToLower(ToLower(s)) == ToLower(s)
  {
  }

  // ------------------------------------------------------- truthiness, String()

  /** JavaScript truthiness; `None` is `undefined`. NaN is not a `Value`. */
  predicate Truthy(v: Option<Value>) {
    match v
    case None => false
    case Some(Str(s)) => s != ""
    case Some(Num(n, _)) => n != 0.0
    case Some(Bool(b)) => b
    case Some(Null) => false
    case Some(Other(_)) => true
  }

  /** `v == null`: null or undefined. */
  predicate Nullish(v: Option<Value>) {
    v.None? || v.value.Null?
  }

  /** String(v) */
  function JsString(v: Value): string {
    match v
    case Str(s) => s
    case Num(_, t) => t
    case Bool(b) => if b then "true" else "false"
    case Null => "null"
    case Other(t) => t
  }

  /** `row[key]`: the value of the first pair with exactly that key. */
  function Lookup(row: Row, key: string): Option<Value> {
    if row == [] then None
    else if row[0].0 == key then Some(row[0].1)
    else Lookup(row[1..], key)
  }

  // ---------------------------------------------------------------- numbers

  function DigitVal(c: char): nat
    requires IsDigit(c)
  {
    c as int - '0' as int
  }

  /** The value of a decimal digit string, most significant digit first. */
  function DigitsValue(s: string): nat
    requires AllDigits(s)
  {
    if s == [] then 0 else DigitsValue(s[..|s| - 1]) * 10 + DigitVal(s[|s| - 1])
  }

  function Pow10(k: nat): (r: nat)
    ensures r >= 1
  {
    if k == 0 then 1 else 10 * Pow10(k - 1)
  }

  lemma AllDigitsAppend(a: string, b: string)
    requires AllDigits(a) && AllDigits(b)
    ensures AllDigits(a + b)
  {
    forall i | 0 <= i < |a + b| ensures IsDigit((a + b)[i]) {
      if i < |a| { assert (a + b)[i] == a[i]; } else { assert (a + b)[i] == b[i - |a|]; }
    }
  }

  lemma {:induction false} DigitsValueAppend(a: string, b: string)
    requires AllDigits(a) && AllDigits(b)
    ensures AllDigits(a + b)
    ensures DigitsValue(a + b) == DigitsValue(a) * Pow10(|b|) + DigitsValue(b)
  {
    AllDigitsAppend(a, b);
    if b == [] {
      assert a + b == a;
    } else {
      var b' := b[..|b| - 1];
      var c := b[|b| - 1];
      assert (a + b)[..|a + b| - 1] == a + b';
      assert (a + b)[|a + b| - 1] == c;
      DigitsValueAppend(a, b');
      ShiftDigit(DigitsValue(a), Pow10(|b'|), DigitsValue(b'), DigitVal(c));
    }
  }

  lemma ShiftDigit(va: nat, p: nat, vb: nat, c: nat)
    ensures (va * p + vb) * 10 + c == va * (10 * p) + (vb * 10 + c)
  {
    assert (va * p) * 10 == va * (10 * p);
  }

  /** The longest prefix of decimal digits. */
  function LeadingDigits(s: string): (r: string)
    ensures r <= s && AllDigits(r)
    ensures |r| < |s| ==> !IsDigit(s[|r|])
  {
    if s != [] && IsDigit(s[0]) then [s[0]] + LeadingDigits(s[1..]) else []
  }

  lemma {:induction false} LeadingDigitsOf(d: string, rest: string)
    requires AllDigits(d)
    requires rest == [] || !IsDigit(rest[0])
    ensures LeadingDigits(d + rest) == d
  {
    if d != [] {
      assert (d + rest)[1..] == d[1..] + rest;
      LeadingDigitsOf(d[1..], rest);
    } else {
      assert d + rest == rest;
    }
  }

  /** The number a whole digit string and a fraction digit string denote. */
  function DecimalValue(whole: string, frac: string): real
    requires AllDigits(whole) && AllDigits(frac)
  {
    DigitsValue(whole) as real + DigitsValue(frac) as real / Pow10(|frac|) as real
  }

  /** The result of the host's Number(s) on a string: a finite number, an
      infinity, or NaN. */
  datatype JsNumber = Finite(r: real) | Infinite(negative: bool) | NaN

  /** An unsigned decimal literal, the whole string: digits, optionally
      followed by "." and digits, with at least one digit in all. */
  function UnsignedDecimal(s: string): Option<real> {
    var whole := LeadingDigits(s);
    var rest := s[|whole|..];
    if rest == [] then
      (if whole == [] then None else Some(DecimalValue(whole, [])))
    else if rest[0] != '.' then None
    else
      var frac := LeadingDigits(rest[1..]);
      if |frac| != |rest| - 1 || (whole == [] && frac == []) then None
      else Some(DecimalValue(whole, frac))
  }

  /** Number(s) for a string s: surrounding whitespace is ignored, the empty
      string is 0, a signed decimal literal or "Infinity" is read, anything
      else is NaN. */
  function NumberOfString(s: string): (r: JsNumber)
    ensures Trim(s) == "" ==> r == Finite(0.0)
  {
    var t := Trim(s);
    if t == "" then Finite(0.0) else SignedNumber(t)
  }

  /** A non-empty trimmed literal with an optional "-" or "+" sign. */
  function SignedNumber(t: string): JsNumber
    requires t != []
  {
    var neg := t[0] == '-';
    match UnsignedNumber(if t[0] == '-' || t[0] == '+' then t[1..] else t)
    case Finite(x) => Finite(if neg then -x else x)
    case Infinite(_) => Infinite(neg)
    case NaN => NaN
  }

  function UnsignedNumber(body: string): JsNumber {
    if body == "Infinity" then Infinite(false)
    else match UnsignedDecimal(body)
      case None => NaN
      case Some(x) => Finite(x)
  }

  /** Number(v) for a cell value. */
  function NumberOfValue(v: Value): JsNumber {
    match v
    case Str(s) => NumberOfString(s)
    case Num(n, _) => Finite(n)
    case Bool(b) => Finite(if b then 1.0 else 0.0)
    case Null => Finite(0.0)
    case Other(t) => NumberOfString(t)
  }

  lemma UnsignedDecimalOf(d: string, f: string)
    requires AllDigits(d) && AllDigits(f) && d != []
    ensures UnsignedDecimal(d + ("." + f)) == Some(DecimalValue(d, f))
  {
    var tail := "." + f;
    LeadingDigitsOf(d, tail);
    assert (d + tail)[|d|..] == tail;
    assert tail[1..] == f + [];
    LeadingDigitsOf(f, []);
  }

  /** Number() reads a plain signed decimal "-ddd.ff" back to its value. */
  lemma NumberOfDecimal(neg: bool, d: string, f: string)
    requires AllDigits(d) && AllDigits(f) && d != []
    ensures NumberOfString((if neg then "-" else "") + (d + ("." + f))) ==
            Finite(if neg then -DecimalValue(d, f) else DecimalValue(d, f))
  {
    var s := (if neg then "-" else "") + (d + ("." + f));
    DecimalTextIsOwnTrim(neg, d, f);
    SignedDecimal(neg, d, f);
  }

  /** The same, for a string known to equal such a literal. */
  lemma DecimalTextNumber(neg: bool, d: string, f: string, t: string)
    requires AllDigits(d) && AllDigits(f) && d != []
    requires t == (if neg then "-" else "") + (d + ("." + f))
    ensures NumberOfString(t) == Finite(if neg then -DecimalValue(d, f) else DecimalValue(d, f))
  {
    NumberOfDecimal(neg, d, f);
  }

  lemma DecimalTextIsOwnTrim(neg: bool, d: string, f: string)
    requires AllDigits(d) && AllDigits(f) && d != []
    ensures var s := (if neg then "-" else "") + (d + ("." + f)); Trim(s) == s
  {
    var s := (if neg then "-" else "") + (d + ("." + f));
    assert s[|s| - 1] == '.' || s[|s| - 1] == f[|f| - 1];
    assert s[0] == '-' || s[0] == d[0];
    TrimPadded([], s, []);
    assert [] + s + [] == s;
  }

  lemma SignedDecimal(neg: bool, d: string, f: string)
    requires AllDigits(d) && AllDigits(f) && d != []
    ensures SignedNumber((if neg then "-" else "") + (d + ("." + f))) ==
            Finite(if neg then -DecimalValue(d, f) else DecimalValue(d, f))
  {
    var body := d + ("." + f);
    var s := (if neg then "-" else "") + body;
    UnsignedDecimalOf(d, f);
    assert body != "Infinity" by { assert body[0] == d[0]; }
    assert UnsignedNumber(body) == Finite(DecimalValue(d, f));
    if neg {
      assert s[0] == '-' && s[1..] == body;
    } else {
      assert s == body;
      assert body[0] != '-' && body[0] != '+' by { assert body[0] == d[0] && IsDigit(d[0]); }
      assert SignedNumber(body) == Finite(DecimalValue(d, f));
    }
  }

  /** A string of whitespace only is its own empty trim, so Number() gives 0. */
  lemma {:induction false} AllSpaceNumber(s: string)
    requires forall i :: 0 <= i < |s| ==> IsSpace(s[i])
    ensures Trim(s) == "" && NumberOfString(s) == Finite(0.0)
  {
    assert TrimStart(s) == [];
  }

  /** Truthiness of a Number() result: 0 and NaN are falsy. */
  predicate NumberTruthy(x: JsNumber) {
    match x
    case Finite(r) => r != 0.0
    case Infinite(_) => true
    case NaN => false
  }

  predicate IntChar(c: char) { IsDigit(c) || c == '-' }

  /** parseFloat on a string made only of digits, "." and "-": an optional
      leading "-", then the longest prefix of the form digits [ "." digits ];
      NaN (None) when that prefix holds no digit. What follows is ignored. */
  function ParseFloatPrefix(s: string): Option<real>
    requires forall i :: 0 <= i < |s| ==> NumericChar(s[i])
  {
    var neg := s != [] && s[0] == '-';
    match UnsignedFloatPrefix(if neg then s[1..] else s)
    case None => None
    case Some(x) => Some(if neg then -x else x)
  }

  /** The unsigned part of parseFloat: the longest prefix digits [ "." digits ]. */
  function UnsignedFloatPrefix(body: string): Option<real> {
    var whole := LeadingDigits(body);
    var rest := body[|whole|..];
    var frac := if rest != [] && rest[0] == '.' then LeadingDigits(rest[1..]) else [];
    if whole == [] && frac == [] then None
    else Some(DecimalValue(whole, frac))
  }

  /** A plain signed decimal is made of the characters parseNumber keeps. */
  lemma DecimalTextIsNumeric(neg: bool, d: string, f: string)
    requires AllDigits(d) && AllDigits(f)
    ensures var s := (if neg then "-" else "") + (d + ("." + f));
            forall i :: 0 <= i < |s| ==> NumericChar(s[i])
  {
    var body := d + ("." + f);
    var s := (if neg then "-" else "") + body;
    forall i | 0 <= i < |s| ensures NumericChar(s[i]) {
      if neg && i == 0 {
      } else {
        var j := if neg then i - 1 else i;
        assert s[i] == body[j];
        if j < |d| { assert body[j] == d[j]; }
        else if j > |d| { assert body[j] == f[j - |d| - 1]; }
      }
    }
  }

  /** parseFloat reads a plain signed decimal "-ddd.ff" back to its value. */
  lemma ParseFloatOfDecimal(neg: bool, d: string, f: string)
    requires AllDigits(d) && AllDigits(f) && d != []
    ensures var s := (if neg then "-" else "") + (d + ("." + f));
            (forall i :: 0 <= i < |s| ==> NumericChar(s[i])) &&
            ParseFloatPrefix(s) == Some(if neg then -DecimalValue(d, f) else DecimalValue(d, f))
  {
    var body := d + ("." + f);
    var s := (if neg then "-" else "") + body;
    DecimalTextIsNumeric(neg, d, f);
    UnsignedDecimalPrefix(d, f);
    if neg {
      assert s[0] == '-' && s[1..] == body;
    } else {
      assert s == body && s[0] == d[0];
    }
  }

  lemma UnsignedDecimalPrefix(d: string, f: string)
    requires AllDigits(d) && AllDigits(f) && d != []
    ensures UnsignedFloatPrefix(d + ("." + f)) == Some(DecimalValue(d, f))
  {
    var tail := "." + f;
    var body := d + tail;
    LeadingDigitsOf(d, tail);
    assert body[|d|..] == tail;
    assert tail[1..] == f + [];
    LeadingDigitsOf(f, []);
  }

  /** parseInt reads a plain signed digit string "-ddd" back to its value. */
  lemma ParseIntOfDigits(neg: bool, d: string)
    requires AllDigits(d) && d != []
    ensures var s := (if neg then "-" else "") + d;
            (forall i :: 0 <= i < |s| ==> IntChar(s[i])) &&
            ParseIntPrefix(s) == Some(if neg then -(DigitsValue(d) as int) else DigitsValue(d) as int)
  {
    var s := (if neg then "-" else "") + d;
    SignedDigitsAreIntChars(neg, d);
    UnsignedIntOf(d);
    if neg {
      assert s[0] == '-' && s[1..] == d;
    } else {
      assert s == d && IsDigit(d[0]);
    }
  }

  lemma SignedDigitsAreIntChars(neg: bool, d: string)
    requires AllDigits(d)
    ensures var s := (if neg then "-" else "") + d; forall i :: 0 <= i < |s| ==> IntChar(s[i])
  {
    var s := (if neg then "-" else "") + d;
    forall i | 0 <= i < |s| ensures IntChar(s[i]) {
      if !(neg && i == 0) {
        assert s[i] == d[if neg then i - 1 else i];
      }
    }
  }

  /** Keeping digits and "-" of a plain signed digit string, then parseInt. */
  lemma IntTextOfDigits(neg: bool, d: string)
    requires AllDigits(d) && d != []
    ensures var s := (if neg then "-" else "") + d;
            ParseIntPrefix(KeepChars(s, IntChar)) == Some(if neg then -(DigitsValue(d) as int) else DigitsValue(d) as int)
  {
    var s := (if neg then "-" else "") + d;
    ParseIntOfDigits(neg, d);
    KeepCharsAll(s, IntChar);
  }

  /** parseInt on a string made only of digits and "-": an optional leading
      "-", then the longest digit prefix; NaN (None) when there is none. */
  function ParseIntPrefix(s: string): Option<int>
    requires forall i :: 0 <= i < |s| ==> IntChar(s[i])
  {
    var neg := s != [] && s[0] == '-';
    match UnsignedIntPrefix(if neg then s[1..] else s)
    case None => None
    case Some(n) => Some(if neg then -(n as int) else n as int)
  }

  /** The unsigned part of parseInt: the value of the longest digit prefix. */
  function UnsignedIntPrefix(body: string): Option<nat> {
    var whole := LeadingDigits(body);
    if whole == [] then None else Some(DigitsValue(whole))
  }

  lemma UnsignedIntOf(d: string)
    requires AllDigits(d) && d != []
    ensures UnsignedIntPrefix(d) == Some(DigitsValue(d))
  {
    LeadingDigitsOf(d, []);
    AppendNil(d);
  }

  // ------------------------------------------------ currency-formatted amounts

  function DigitChar(d: nat): (c: char)
    requires d < 10
    ensures IsDigit(c) && DigitVal(c) == d
  {
    ('0' as int + d) as char
  }

  /** The decimal digits of n, without leading zeros. */
  function NatDigits(n: nat): (s: string)
    ensures s != [] && AllDigits(s) && DigitsValue(s) == n
  {
    if n < 10 then [DigitChar(n)]
    else
      var s := NatDigits(n / 10) + [DigitChar(n % 10)];
      assert s[..|s| - 1] == NatDigits(n / 10);
      s
  }

  /** Exactly `k` digits of n < 10^k, zero-padded. */
  function PadDigits(n: nat, k: nat): (s: string)
    requires n < Pow10(k)
    ensures |s| == k && AllDigits(s) && DigitsValue(s) == n
  {
    if k == 0 then []
    else
      var s := PadDigits(n / 10, k - 1) + [DigitChar(n % 10)];
      assert s[..|s| - 1] == PadDigits(n / 10, k - 1);
      s
  }

  function ThreeDigits(n: nat): (s: string)
    requires n < 1000
    ensures |s| == 3 && AllDigits(s) && DigitsValue(s) == n
  {
    assert Pow10(3) == 1000;
    PadDigits(n, 3)
  }

  function TwoDigits(n: nat): (s: string)
    requires n < 100
    ensures |s| == 2 && AllDigits(s) && DigitsValue(s) == n
  {
    assert Pow10(2) == 100;
    PadDigits(n, 2)
  }

  /** n with "," between groups of three digits, as in "1,234,567". */
  function GroupThousands(n: nat): string
  {
    if n < 1000 then NatDigits(n)
    else
      GroupThousands(n / 1000) + "," + ThreeDigits(n % 1000)
  }

  /** An amount in cents rendered as a US-dollar string: "$1,234.56", "-$5.00". */
  function FormatUsd(cents: int): string
  {
    var a := if cents < 0 then -cents else cents;
    (if cents < 0 then "-" else "") + ("$" + (GroupThousands(a / 100) + ("." + TwoDigits(a % 100))))
  }

  predicate NotDollarComma(c: char) { c != '$' && c != ',' }

  predicate NumericChar(c: char) { IsDigit(c) || c == '.' || c == '-' }

  /** With "," removed, the grouped rendering is a plain digit string of n. */
  lemma {:induction false} GroupedDigits(n: nat, keep: char -> bool)
    requires forall c :: IsDigit(c) ==> keep(c)
    requires !keep(',')
    ensures var d := KeepChars(GroupThousands(n), keep); d != [] && AllDigits(d) && DigitsValue(d) == n
  {
    if n < 1000 {
      DigitsKept(NatDigits(n), keep);
    } else {
      GroupedDigits(n / 1000, keep);
      GroupedStep(n, keep);
      var d := KeepChars(GroupThousands(n / 1000), keep);
      var p := ThreeDigits(n % 1000);
      AllDigitsAppend(d, p);
      DigitsValueAppend(d, p);
      assert Pow10(3) == 1000;
      LemmaDivMod1000(n);
    }
  }

  lemma LemmaDivMod1000(n: nat)
    ensures (n / 1000) * 1000 + n % 1000 == n
  {
  }

  lemma DigitsKept(s: string, keep: char -> bool)
    requires AllDigits(s)
    requires forall c :: IsDigit(c) ==> keep(c)
    ensures KeepChars(s, keep) == s
  {
    assert forall i :: 0 <= i < |s| ==> keep(s[i]) by {
      forall i | 0 <= i < |s| ensures keep(s[i]) { assert IsDigit(s[i]); }
    }
    KeepCharsAll(s, keep);
  }

  /** Filtering the commas out of one thousands step. */
  lemma GroupedStep(n: nat, keep: char -> bool)
    requires n >= 1000
    requires forall c :: IsDigit(c) ==> keep(c)
    requires !keep(',')
    ensures KeepChars(GroupThousands(n), keep) == KeepChars(GroupThousands(n / 1000), keep) + ThreeDigits(n % 1000)
  {
    var g := GroupThousands(n / 1000);
    var p := ThreeDigits(n % 1000);
    assert GroupThousands(n) == g + "," + p;
    KeepCharsAppend(g, ",", keep);
    KeepCharsAppend(g + ",", p, keep);
    DigitsKept(p, keep);
    KeepCharsNone(",", keep);
  }

  /** Removing the currency decoration from a formatted amount leaves the plain
      signed decimal "-1234.56" (in value), under either of the two character
      filters the parsers use. */
  lemma {:induction false} FormatUsdStripped(cents: int, keep: char -> bool)
    requires forall c :: IsDigit(c) ==> keep(c)
    requires !keep(',') && !keep('$') && keep('.') && keep('-')
    ensures var a := if cents < 0 then -cents else cents;
            var t := KeepChars(FormatUsd(cents), keep);
            var d := KeepChars(GroupThousands(a / 100), keep);
            AllDigits(d) && d != [] && DigitsValue(d) == a / 100 &&
            t == (if cents < 0 then "-" else "") + (d + ("." + TwoDigits(a % 100)))
  {
    var a := if cents < 0 then -cents else cents;
    var sign := if cents < 0 then "-" else "";
    var g := GroupThousands(a / 100);
    var f := TwoDigits(a % 100);
    GroupedDigits(a / 100, keep);
    StripCents(f, keep);
    StripDollar(g, "." + f, keep);
    StripSign(cents < 0, "$" + (g + ("." + f)), keep);
  }

  lemma StripCents(f: string, keep: char -> bool)
    requires AllDigits(f)
    requires forall c :: IsDigit(c) ==> keep(c)
    requires keep('.')
    ensures KeepChars("." + f, keep) == "." + f
  {
    var tail := "." + f;
    assert forall i :: 0 <= i < |tail| ==> keep(tail[i]) by {
      forall i | 0 <= i < |tail| ensures keep(tail[i]) {
        if i > 0 { assert tail[i] == f[i - 1]; }
      }
    }
    KeepCharsAll(tail, keep);
  }

  lemma StripDollar(g: string, tail: string, keep: char -> bool)
    requires !keep('$')
    ensures KeepChars("$" + (g + tail), keep) == KeepChars(g, keep) + KeepChars(tail, keep)
  {
    KeepCharsAppend("$", g + tail, keep);
    KeepCharsNone("$", keep);
    KeepCharsAppend(g, tail, keep);
  }

  lemma StripSign(neg: bool, x: string, keep: char -> bool)
    requires keep('-')
    ensures KeepChars((if neg then "-" else "") + x, keep) == (if neg then "-" else "") + KeepChars(x, keep)
  {
    var sign := if neg then "-" else "";
    KeepCharsAppend(sign, x, keep);
    assert KeepChars(sign, keep) == sign by {
      if neg { assert sign[1..] == []; }
    }
  }

  /** Number() of a formatted amount stripped of "$" and "," is its value. */
  lemma {:induction false} NumberOfFormatted(cents: int, keep: char -> bool)
    requires forall c :: IsDigit(c) ==> keep(c)
    requires !keep(',') && !keep('$') && keep('.') && keep('-')
    ensures NumberOfString(KeepChars(FormatUsd(cents), keep)) == Finite(cents as real / 100.0)
  {
    var a := if cents < 0 then -cents else cents;
    FormatUsdStripped(cents, keep);
    StrippedNumber(cents, KeepChars(GroupThousands(a / 100), keep), KeepChars(FormatUsd(cents), keep));
  }

  /** `Number.isFinite(n) ? n : null` */
  function FiniteValue(n: JsNumber): Option<real> {
    if n.Finite? then Some(n.r) else None
  }

  lemma FiniteValueOf(t: string, x: real)
    requires NumberOfString(t) == Finite(x)
    ensures FiniteValue(NumberOfString(t)) == Some(x)
  {
  }

  lemma StrippedNumber(cents: int, d: string, t: string)
    requires var a := if cents < 0 then -cents else cents;
             AllDigits(d) && d != [] && DigitsValue(d) == a / 100 &&
             t == (if cents < 0 then "-" else "") + (d + ("." + TwoDigits(a % 100)))
    ensures NumberOfString(t) == Finite(cents as real / 100.0)
  {
    var a := if cents < 0 then -cents else cents;
    DecimalTextNumber(cents < 0, d, TwoDigits(a % 100), t);
    FormattedValue(cents, d);
  }

  /** The value a formatted amount denotes. */
  lemma {:induction false} FormattedValue(cents: int, d: string)
    requires AllDigits(d)
    requires DigitsValue(d) == (if cents < 0 then -cents else cents) / 100
    ensures var a := if cents < 0 then -cents else cents;
            var x := DecimalValue(d, TwoDigits(a % 100));
            (if cents < 0 then -x else x) == cents as real / 100.0
  {
    var a := if cents < 0 then -cents else cents;
    assert Pow10(2) == 100;
    assert a == (a / 100) * 100 + a % 100;
    assert DecimalValue(d, TwoDigits(a % 100)) == (a / 100) as real + (a % 100) as real / 100.0;
    assert (a / 100) as real + (a % 100) as real / 100.0 == a as real / 100.0;
  }

  // ---------------------------------------------------------- row filters

  /** The results of `f` over `xs`, in order, without the Nones: a loop that
      pushes what it keeps and skips the rest. */
  function FilterMap<T, U>(xs: seq<T>, f: T -> Option<U>): seq<U> {
    if xs == [] then []
    else
      var r := f(xs[|xs| - 1]);
      FilterMap(xs[..|xs| - 1], f) + (if r.Some? then [r.value] else [])
  }

  /** How many of `xs` the filter drops. */
  function Dropped<T, U>(xs: seq<T>, f: T -> Option<U>): nat {
    if xs == [] then 0
    else Dropped(xs[..|xs| - 1], f) + (if f(xs[|xs| - 1]).None? then 1 else 0)
  }

  /** Every element is either kept or dropped. */
  lemma {:induction false} FilterMapCount<T, U>(xs: seq<T>, f: T -> Option<U>)
    ensures |FilterMap(xs, f)| + Dropped(xs, f) == |xs|
  {
    if xs != [] { FilterMapCount(xs[..|xs| - 1], f); }
  }

  /** Filtering works element by element, so input order is kept. */
  lemma {:induction false} FilterMapAppend<T, U>(a: seq<T>, b: seq<T>, f: T -> Option<U>)
    ensures FilterMap(a + b, f) == FilterMap(a, f) + FilterMap(b, f)
    ensures Dropped(a + b, f) == Dropped(a, f) + Dropped(b, f)
  {
    if b == [] {
      assert a + b == a;
    } else {
      var b' := b[..|b| - 1];
      assert (a + b)[..|a + b| - 1] == a + b';
      assert (a + b)[|a + b| - 1] == b[|b| - 1];
      FilterMapAppend(a, b', f);
    }
  }

  /** The prefix a loop has consumed grows by one element. */
  lemma PrefixStep<T>(xs: seq<T>, k: nat)
    requires k < |xs|
    ensures xs[..k + 1] == xs[..k] + [xs[k]]
    ensures xs[..k + 1][..k] == xs[..k] && xs[..k + 1][k] == xs[k]
  {
  }

  lemma AppendLast<T>(a: seq<T>, x: T)
    ensures (a + [x])[..|a|] == a && (a + [x])[|a|] == x
    ensures a + [] == a && [x][..0] == []
  {
  }

  /** No element occurs twice. */
  predicate Distinct<T(==)>(xs: seq<T>) {
    forall i, j :: 0 <= i < j < |xs| ==> xs[i] != xs[j]
  }

  /** Dropping the last element keeps the rest distinct, and the last one
      does not occur before. */
  lemma DistinctInit<T>(xs: seq<T>)
    requires xs != [] && Distinct(xs)
    ensures Distinct(xs[..|xs| - 1]) && xs[|xs| - 1] !in xs[..|xs| - 1]
  {
    var p := xs[..|xs| - 1];
    forall i | 0 <= i < |p| ensures p[i] != xs[|xs| - 1] { assert p[i] == xs[i]; }
  }

  /** A loop that has consumed the whole sequence has seen all of it. */
  lemma WholePrefix<T>(xs: seq<T>)
    ensures xs[..|xs|] == xs
  {
  }

  lemma AppendNil<T>(a: seq<T>)
    ensures a + [] == a
  {
  }

  lemma SplitLast<T>(xs: seq<T>)
    requires xs != []
    ensures xs == xs[..|xs| - 1] + [xs[|xs| - 1]]
  {
  }

  /** One more element of a prefix, as a loop over `xs` consumes it. */
  lemma FilterMapPrefix<T, U>(xs: seq<T>, i: nat, f: T -> Option<U>)
    requires i < |xs|
    ensures FilterMap(xs[..i + 1], f) == FilterMap(xs[..i], f) + (if f(xs[i]).Some? then [f(xs[i]).value] else [])
    ensures Dropped(xs[..i + 1], f) == Dropped(xs[..i], f) + (if f(xs[i]).None? then 1 else 0)
  {
    PrefixStep(xs, i);
  }

  lemma FilterMapSingle<T, U>(x: T, f: T -> Option<U>)
    ensures FilterMap([x], f) == (if f(x).Some? then [f(x).value] else [])
    ensures Dropped([x], f) == (if f(x).None? then 1 else 0)
  {
    assert [x][..0] == [];
  }

  /** A dropped element leaves no trace in the output, wherever it stands. */
  lemma FilterMapSkip<T, U>(a: seq<T>, x: T, b: seq<T>, f: T -> Option<U>)
    requires f(x).None?
    ensures FilterMap(a + [x] + b, f) == FilterMap(a, f) + FilterMap(b, f)
  {
    FilterMapAppend(a + [x], b, f);
    FilterMapAppend(a, [x], f);
    FilterMapSingle(x, f);
  }

  /** ...and counts one towards the dropped total. */
  lemma DroppedSkip<T, U>(a: seq<T>, x: T, b: seq<T>, f: T -> Option<U>)
    requires f(x).None?
    ensures Dropped(a + [x] + b, f) == Dropped(a, f) + 1 + Dropped(b, f)
  {
    FilterMapAppend(a + [x], b, f);
    FilterMapAppend(a, [x], f);
    FilterMapSingle(x, f);
  }

  /** Everything in the output is what `f` made of some input element. */
  lemma {:induction false} FilterMapFrom<T, U>(xs: seq<T>, f: T -> Option<U>, u: U)
    requires u in FilterMap(xs, f)
    ensures exists x :: x in xs && f(x) == Some(u)
  {
    var p := xs[..|xs| - 1];
    var last := xs[|xs| - 1];
    if u in FilterMap(p, f) {
      FilterMapFrom(p, f, u);
      var x :| x in p && f(x) == Some(u);
      assert x in xs;
    } else {
      assert last in xs;
    }
  }

  /** ...and every element `f` keeps appears in the output. */
  lemma {:induction false} FilterMapKeeps<T, U>(xs: seq<T>, f: T -> Option<U>, x: T)
    requires x in xs && f(x).Some?
    ensures f(x).value in FilterMap(xs, f)
  {
    var p := xs[..|xs| - 1];
    if x != xs[|xs| - 1] {
      assert x in p;
      FilterMapKeeps(p, f, x);
    }
  }

  /** The suffix a front-to-back recursion has left loses its head. */
  lemma SuffixStep<T>(xs: seq<T>, k: nat)
    requires k < |xs|
    ensures xs[k..][0] == xs[k] && xs[k..][1..] == xs[k + 1..]
  {
  }

  /** Two filters that agree on every element give the same output. */
  lemma {:induction false} FilterMapPointwise<T, U>(xs: seq<T>, f: T -> Option<U>, g: T -> Option<U>)
    requires forall k :: 0 <= k < |xs| ==> f(xs[k]) == g(xs[k])
    ensures FilterMap(xs, f) == FilterMap(xs, g)
  {
    if xs != [] { FilterMapPointwise(xs[..|xs| - 1], f, g); }
  }

  /** A filter that drops every element leaves nothing. */
  lemma {:induction false} FilterMapNone<T, U>(xs: seq<T>, f: T -> Option<U>)
    requires forall k :: 0 <= k < |xs| ==> f(xs[k]).None?
    ensures FilterMap(xs, f) == []
  {
    if xs != [] { FilterMapNone(xs[..|xs| - 1], f); }
  }

  /** Filtering from the front: the head's contribution, then the rest's. */
  lemma FilterMapCons<T, U>(xs: seq<T>, f: T -> Option<U>)
    requires xs != []
    ensures FilterMap(xs, f) == (if f(xs[0]).Some? then [f(xs[0]).value] else []) + FilterMap(xs[1..], f)
  {
    assert xs == [xs[0]] + xs[1..];
    FilterMapAppend([xs[0]], xs[1..], f);
    FilterMapSingle(xs[0], f);
  }

  /** Two complementary filters, each keeping an element as it is, split a
      sequence into parts that together hold every element once. */
  lemma {:induction false} FilterMapSplit<T>(xs: seq<T>, f: T -> Option<T>, g: T -> Option<T>)
    requires forall k :: 0 <= k < |xs| ==>
      (f(xs[k]) == Some(xs[k]) && g(xs[k]).None?) || (f(xs[k]).None? && g(xs[k]) == Some(xs[k]))
    ensures multiset(FilterMap(xs, f)) + multiset(FilterMap(xs, g)) == multiset(xs)
  {
    if xs != [] {
      FilterMapSplit(xs[..|xs| - 1], f, g);
      SplitLast(xs);
    }
  }

  /** Turning the filter at one element `x0`, which occurs at most once,
      from dropping to keeping `v` adds `v` once to the output. */
  lemma {:induction false} FilterMapOneMore<T, U>(xs: seq<T>, f: T -> Option<U>, g: T -> Option<U>, x0: T, v: U)
    requires Distinct(xs)
    requires forall k :: 0 <= k < |xs| && xs[k] != x0 ==> f(xs[k]) == g(xs[k])
    requires f(x0).None? && g(x0) == Some(v)
    ensures multiset(FilterMap(xs, g)) == multiset(FilterMap(xs, f)) + (if x0 in xs then multiset{v} else multiset{})
  {
    if xs != [] {
      var p := xs[..|xs| - 1];
      DistinctInit(xs);
      FilterMapOneMore(p, f, g, x0, v);
      SplitLast(xs);
      assert x0 in xs <==> x0 in p || x0 == xs[|xs| - 1];
    }
  }

  // -------------------------------------------------------------- search

  /** The first index, from `i` on, of an element satisfying `p`
      (`Array.prototype.find` and `findIndex`). */
  function FirstIndex<T>(xs: seq<T>, p: T -> bool, i: nat): (r: Option<nat>)
    requires i <= |xs|
    ensures r.Some? ==> i <= r.value < |xs| && p(xs[r.value]) &&
                        forall j :: i <= j < r.value ==> !p(xs[j])
    ensures r.None? ==> forall j :: i <= j < |xs| ==> !p(xs[j])
    decreases |xs| - i
  {
    if i == |xs| then None
    else if p(xs[i]) then Some(i)
    else FirstIndex(xs, p, i + 1)
  }

  /** With no element satisfying `p`, nothing is found. */
  lemma FirstIndexNone<T>(xs: seq<T>, p: T -> bool)
    requires forall j :: 0 <= j < |xs| ==> !p(xs[j])
    ensures FirstIndex(xs, p, 0).None?
  {
  }

  /** The first index is the one before which nothing satisfies `p`. */
  lemma FirstIndexAt<T>(xs: seq<T>, p: T -> bool, i: nat)
    requires i < |xs| && p(xs[i])
    requires forall j :: 0 <= j < i ==> !p(xs[j])
    ensures FirstIndex(xs, p, 0) == Some(i)
  {
  }

  /** Two tests that agree on every element find the same first index. */
  lemma {:induction false} FirstIndexSame<T>(xs: seq<T>, p: T -> bool, q: T -> bool, i: nat)
    requires i <= |xs|
    requires forall j :: 0 <= j < |xs| ==> p(xs[j]) == q(xs[j])
    ensures FirstIndex(xs, p, i) == FirstIndex(xs, q, i)
    decreases |xs| - i
  {
    if i < |xs| { FirstIndexSame(xs, p, q, i + 1); }
  }

  /** Two sequences whose elements pass or fail `p` alike, position by
      position, have the same first index. */
  lemma {:induction false} FirstIndexPointwise<T>(xs: seq<T>, ys: seq<T>, p: T -> bool, i: nat)
    requires |xs| == |ys| && i <= |xs|
    requires forall j :: 0 <= j < |xs| ==> p(xs[j]) == p(ys[j])
    ensures FirstIndex(xs, p, i) == FirstIndex(ys, p, i)
    decreases |xs| - i
  {
    if i < |xs| { FirstIndexPointwise(xs, ys, p, i + 1); }
  }

  /** A filter that keeps every element as it is changes nothing. */
  lemma {:induction false} FilterMapIdentity<T>(xs: seq<T>, f: T -> Option<T>)
    requires forall k :: 0 <= k < |xs| ==> f(xs[k]) == Some(xs[k])
    ensures FilterMap(xs, f) == xs
  {
    if xs != [] {
      FilterMapIdentity(xs[..|xs| - 1], f);
      SplitLast(xs);
    }
  }
}

/**
 This module models the JavaScript values an event object may hold and the
 `String(v)` conversion the event store applies to seeded ids.
 */
module JsValues {

  /** A JavaScript value as far as the event store can observe it. Numbers are
      restricted to integers; any other object (a Date, an array, a nested
      record) is `Obj`, carrying an identity and the text its own `toString`
      produces. */
  datatype Value =
    | Undefined
    | Null
    | Bool(b: bool)
    | Int(i: int)
    | Str(s: string)
    | Obj(tag: nat, text: string)

  predicate IsDigit(c: char) {
    '0' <= c <= '9'
  }

  function DigitChar(d: nat): (c: char)
    requires d < 10
    ensures IsDigit(c)
  {
    ['0', '1', '2', '3', '4', '5', '6', '7', '8', '9'][d]
  }

  function DigitValue(c: char): (d: nat)
    requires IsDigit(c)
    ensures d < 10
    ensures DigitChar(d) == c
  {
    (c as int - '0' as int) as nat
  }

  predicate AllDigits(s: string) {
    forall k :: 0 <= k < |s| ==> IsDigit(s[k])
  }

  /** The decimal text of a natural number, most significant digit first. */
  function NatToDecimal(n: nat): (r: string)
    ensures |r| > 0
    ensures AllDigits(r)
    ensures |r| > 1 ==> r[0] != '0'
    decreases n
  {
    if n < 10 then [DigitChar(n)]
    else NatToDecimal(n / 10) + [DigitChar(n % 10)]
  }

  /** Reads a string of decimal digits back as a natural number. */
  function DecimalToNat(s: string): nat
    requires AllDigits(s)
  {
    if |s| == 0 then 0
    else DecimalToNat(s[..|s| - 1]) * 10 + DigitValue(s[|s| - 1])
  }

  /** The decimal text is faithful: reading it back gives the number. */
  lemma {:induction false} DecimalRoundTrip(n: nat)
    ensures DecimalToNat(NatToDecimal(n)) == n
    decreases n
  {
    var r := NatToDecimal(n);
    if n < 10 {
      assert r[..|r| - 1] == [];
    } else {
      DecimalRoundTrip(n / 10);
      assert r[..|r| - 1] == NatToDecimal(n / 10);
      assert r[|r| - 1] == DigitChar(n % 10);
    }
  }

  /** Distinct numbers have distinct decimal texts. */
  lemma DecimalInjective(m: nat, n: nat)
    requires NatToDecimal(m) == NatToDecimal(n)
    ensures m == n
  {
    DecimalRoundTrip(m);
    DecimalRoundTrip(n);
  }

  /** `String(v)` for the values above. */
  function JsString(v: Value): (r: string)
    ensures v.Str? ==> r == v.s
    ensures v.Int? && v.i >= 0 ==> AllDigits(r) && DecimalToNat(r) == v.i
    ensures v.Int? && v.i < 0 ==> |r| > 1 && r[0] == '-' && AllDigits(r[1..]) && DecimalToNat(r[1..]) == -v.i
    ensures v.Int? && v.i >= 0 ==> |r| > 0
    ensures v.Int? && v.i >= 0 && |r| > 1 ==> r[0] != '0'
    ensures v.Int? && v.i < 0 ==> r[1] != '0'
  {
    match v
    case Undefined => "undefined"
    case Null => "null"
    case Bool(b) => if b then "true" else "false"
    case Int(i) =>
      DecimalRoundTrip(if i < 0 then -i else i);
      if i < 0 then "-" + NatToDecimal(-i) else NatToDecimal(i)
    case Str(s) => s
    case Obj(_, text) => text
  }

  /** Distinct numeric ids, negative ones included, convert to distinct strings. */
  lemma JsStringIntInjective(a: int, b: int)
    requires JsString(Int(a)) == JsString(Int(b))
    ensures a == b
  {
  }

  /** Ids of different types can convert to the same string: the number 1
      and the string "1", and a missing id and the string "undefined". */
  lemma JsStringCollisions()
    ensures JsString(Int(1)) == JsString(Str("1"))
    ensures JsString(Undefined) == JsString(Str("undefined"))
  {
    assert NatToDecimal(1) == "1";
  }

  /** Converting an already converted value changes nothing. */
  lemma JsStringIdempotent(v: Value)
    ensures JsString(Str(JsString(v))) == JsString(v)
  {
  }
}

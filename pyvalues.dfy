/**
 * The few pieces of Python semantics that app.py applies to raw JSON values:
 * `str()` inside an f-string, truthiness, `== 1`, numbers as the formatters
 * see them, and `int()`.
 */
module PyValues {
  import opened Wrappers
  import opened Numerals
  import opened Records

  function Abs(x: int): nat {
    if x < 0 then -x else x
  }

  function Sign(negative: bool): string {
    if negative then "-" else ""
  }

  /** Python's `str(i)` for an int. */
  function IntToString(i: int): string {
    Sign(i < 0) + NatToString(Abs(i))
  }

  /**
   * Python's `repr(x)` (and `str(x)`) for a float `milli / 1000` below 10^16 in
   * magnitude: the shortest decimal that reads back as x, with at least one
   * fractional digit.
   */
  function FloatToString(milli: int): string {
    var a := Abs(milli);
    Sign(milli < 0) + NatToString(a / 1000) + "." + FractionText(a % 1000)
  }

  /** The fractional digits `repr` writes: `x` thousandths with trailing zeros dropped, "0" when there are none. */
  function FractionText(x: nat): string
    requires x < 1000
  {
    var stripped := RStrip(Pad3(x), '0');
    if stripped == [] then "0" else stripped
  }

  /** `float(str(x)) == x`: the text of a float reads back as the same number, with one to three decimals. */
  lemma FloatTextRoundTrip(milli: int)
    ensures var d := ParseFloat(FloatToString(milli));
            && d.Some? && 1 <= d.value.places <= 3
            && d.value.mantissa * 1000 == milli * Pow10(d.value.places)
  {
    var a := Abs(milli);
    var whole := NatToString(a / 1000);
    var frac := FractionText(a % 1000);
    assert FloatToString(milli) == Sign(milli < 0) + whole + "." + frac;
    FractionValue(a % 1000);
    ParseSignedText(milli < 0, whole, frac);
    ShiftedValue(a, whole, frac);
    SignedScale(milli, FixedValue(whole, frac), Pow10(|frac|));
  }

  /** Scaling commutes with the sign. */
  lemma SignedScale(milli: int, value: nat, p: nat)
    requires value * 1000 == Abs(milli) * p
    ensures (if milli < 0 then -(value as int) else value) * 1000 == milli * p
  {
  }

  /** The fractional digits, padded back to three places, denote the thousandths. */
  lemma FractionValue(x: nat)
    requires x < 1000
    ensures var frac := FractionText(x);
            && AllDigits(frac) && 1 <= |frac| <= 3
            && DigitsValue(frac) * Pow10(3 - |frac|) == x
            && Pow10(3 - |frac|) * Pow10(|frac|) == 1000
  {
    var stripped := RStrip(Pad3(x), '0');
    var frac := FractionText(x);
    StripZeros(Pad3(x));
    assert Pow10(0) == 1 && Pow10(1) == 10 && Pow10(2) == 100 && Pow10(3) == 1000;
    if stripped == [] {
      assert frac == ['0'] && frac[..0] == [];
    }
  }

  /** The mantissa of `whole.frac`, shifted by three places, is the magnitude shifted by the fraction's places. */
  lemma ShiftedValue(a: nat, whole: string, frac: string)
    requires AllDigits(whole) && AllDigits(frac) && 1 <= |frac| <= 3
    requires DigitsValue(whole) == a / 1000
    requires DigitsValue(frac) * Pow10(3 - |frac|) == a % 1000
    requires Pow10(3 - |frac|) * Pow10(|frac|) == 1000
    ensures FixedValue(whole, frac) * 1000 == a * Pow10(|frac|)
  {
    var p, q := Pow10(|frac|), Pow10(3 - |frac|);
    var w, f := DigitsValue(whole), DigitsValue(frac);
    Regroup(w, f, p, q, a);
  }

  lemma Regroup(w: nat, f: nat, p: nat, q: nat, a: nat)
    requires w == a / 1000 && f * q == a % 1000 && q * p == 1000
    ensures (w * p + f) * 1000 == a * p
  {
    assert (w * p + f) * 1000 == w * 1000 * p + f * (q * p);
    assert (w * 1000 + f * q) * p == w * 1000 * p + f * q * p;
  }

  /**
   * Python's `str(v)` as an f-string applies it. Lists and dicts have no
   * rendering in this model (None).
   */
  function PyStr(v: Json): (r: Option<string>)
    ensures r.None? <==> v.JArr? || v.JObj?
    ensures v.JStr? ==> r == Some(v.s)
  {
    match v
    case JNull => Some("None")
    case JBool(b) => Some(if b then "True" else "False")
    case JInt(i) => Some(IntToString(i))
    case JFloat(m) => Some(FloatToString(m))
    case JStr(s) => Some(s)
    case JArr(_) => None
    case JObj(_) => None
  }

  /** The text an f-string shows for a number reads back as that number: `int()` for an int, `float()` for a float. */
  lemma StrReadsBack(v: Json)
    ensures v.JInt? ==> ParseInt(PyStr(v).value) == Some(v.i)
    ensures v.JFloat? ==> var d := ParseFloat(PyStr(v).value);
              d.Some? && d.value.mantissa * 1000 == v.milli * Pow10(d.value.places)
  {
    match v
    case JInt(i) => IntTextRoundTrip(i);
    case JFloat(m) => FloatTextRoundTrip(m);
    case _ =>
  }

  /** Python truthiness: None, False, zero and empty containers are false. */
  predicate Truthy(v: Json)
    ensures AsMilli(v).Some? ==> (Truthy(v) <==> AsMilli(v).value != 0)
    ensures v.JNull? ==> !Truthy(v)
  {
    match v
    case JNull => false
    case JBool(b) => b
    case JInt(i) => i != 0
    case JFloat(m) => m != 0
    case JStr(s) => s != []
    case JArr(items) => items != []
    case JObj(fields) => fields != map[]
  }

  /**
   * The value in thousandths as Python arithmetic and formatting see it: a bool
   * is the int 0 or 1. None for anything that is not a number.
   */
  function AsMilli(v: Json): Option<int> {
    match v
    case JBool(b) => Some(if b then 1000 else 0)
    case JInt(i) => Some(1000 * i)
    case JFloat(m) => Some(m)
    case _ => None
  }

  /**
   * None or a number: what `value > 0` (after `is not None`) and the `.2f` and
   * `.1f` formatters accept without raising; text, lists and dicts make them raise.
   */
  predicate NoneOrNumber(v: Json)
    ensures !NoneOrNumber(v) <==> v.JStr? || v.JArr? || v.JObj?
  {
    v.JNull? || AsMilli(v).Some?
  }

  /** Python's `v == 1`: true for 1, 1.0 and True, false for every other value. */
  predicate EqualsOne(v: Json)
    ensures EqualsOne(v) <==> v == JInt(1) || v == JFloat(1000) || v == JBool(true)
  {
    AsMilli(v) == Some(1000)
  }

  /** Why `int()` fails: ValueError on text that is not an integer, TypeError on None, lists and dicts. */
  datatype ConversionError = ValueError(text: string) | TypeError

  /** Python's `int(s)` on text: an optional sign followed by digits. */
  function ParseInt(s: string): (r: Option<int>)
    ensures 0 < |s| && AllDigits(s) ==> r == Some(DigitsValue(s))
    ensures r.Some? ==> 0 < |s| && (IsDigit(s[0]) || s[0] == '-' || s[0] == '+')
    ensures r.Some? && r.value < 0 ==> s[0] == '-'
  {
    var signed := 0 < |s| && (s[0] == '-' || s[0] == '+');
    var digits := if signed then s[1..] else s;
    if 0 < |digits| && AllDigits(digits) then
      var value := DigitsValue(digits);
      Some(if signed && s[0] == '-' then -(value as int) else value)
    else None
  }

  /** Python's `int(v)`: floats truncate toward zero, bools are 0 or 1, text is parsed. */
  function PyInt(v: Json): (r: Result<int, ConversionError>)
    ensures r.Err? <==> v.JNull? || v.JArr? || v.JObj? || (v.JStr? && ParseInt(v.s).None?)
    ensures v.JStr? && r.Err? ==> r.error == ValueError(v.s)
    ensures AsMilli(v).Some? && AsMilli(v).value % 1000 == 0 ==> r == Ok(AsMilli(v).value / 1000)
    ensures v.JFloat? ==> Abs(1000 * r.value) <= Abs(v.milli) < Abs(1000 * r.value) + 1000
    ensures v.JFloat? && r.value != 0 ==> (v.milli < 0 <==> r.value < 0)
  {
    match v
    case JInt(i) => Ok(i)
    case JBool(b) => Ok(if b then 1 else 0)
    case JFloat(m) => Ok(if m < 0 then -((-m) / 1000) else m / 1000)
    case JStr(s) => if ParseInt(s).Some? then Ok(ParseInt(s).value) else Err(ValueError(s))
    case _ => Err(TypeError)
  }

  /** `int(str(i)) == i`. */
  lemma IntTextRoundTrip(i: int)
    ensures ParseInt(IntToString(i)) == Some(i)
  {
    var digits := NatToString(Abs(i));
    if i < 0 {
      assert IntToString(i)[1..] == digits;
    } else {
      assert IntToString(i) == digits;
      assert IsDigit(digits[0]);
    }
  }

  /** `float()` on `[-]whole.frac`, the sign written as `format` writes it. */
  lemma ParseSignedText(negative: bool, whole: string, frac: string)
    requires 0 < |whole| && AllDigits(whole) && AllDigits(frac)
    ensures var value := FixedValue(whole, frac);
            ParseFloat(Sign(negative) + whole + "." + frac)
            == Some(Decimal(if negative then -(value as int) else value, |frac|))
  {
    if negative {
      ParseNegativeText(whole, frac);
    } else {
      assert Sign(negative) + whole + "." + frac == whole + "." + frac;
      ParseUnsignedText(whole, frac);
    }
  }
}

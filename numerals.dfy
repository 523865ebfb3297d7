/**
 * Decimal text: Python's str() of a non-negative integer, the `,` thousands
 * separator of the format mini-language (PEP 378), `str.replace(c, '')`,
 * `str.rstrip(c)` and `float()` on plain decimal text.
 */
module Numerals {
  import opened Wrappers

  predicate IsDigit(c: char) {
    '0' <= c <= '9'
  }

  predicate AllDigits(s: string) {
    forall i :: 0 <= i < |s| ==> IsDigit(s[i])
  }

  function DigitOf(c: char): nat
    requires IsDigit(c)
  {
    c as int - '0' as int
  }

  function DigitChar(d: nat): (c: char)
    requires d < 10
    ensures IsDigit(c) && DigitOf(c) == d
  {
    ('0' as int + d) as char
  }

  function Pow10(k: nat): (p: nat)
    ensures p > 0
  {
    if k == 0 then 1 else 10 * Pow10(k - 1)
  }

  /** The number a string of decimal digits denotes (the empty string reads as 0). */
  function DigitsValue(s: string): nat
    requires AllDigits(s)
  {
    if s == [] then 0 else DigitsValue(s[..|s| - 1]) * 10 + DigitOf(s[|s| - 1])
  }

  lemma {:induction false} DigitsValueAppend(a: string, b: string)
    requires AllDigits(a) && AllDigits(b)
    ensures AllDigits(a + b)
    ensures DigitsValue(a + b) == DigitsValue(a) * Pow10(|b|) + DigitsValue(b)
    decreases |b|
  {
    if b == [] {
      assert a + b == a;
    } else {
      var b' := b[..|b| - 1];
      var d := DigitOf(b[|b| - 1]);
      assert (a + b)[..|a + b| - 1] == a + b';
      assert (a + b)[|a + b| - 1] == b[|b| - 1];
      DigitsValueAppend(a, b');
      assert DigitsValue(a + b) == DigitsValue(a + b') * 10 + d;
      assert DigitsValue(b) == DigitsValue(b') * 10 + d;
      assert Pow10(|b|) == Pow10(|b'|) * 10;
      ShiftDigit(DigitsValue(a), Pow10(|b'|), DigitsValue(b'), d);
    }
  }

  /** Appending a digit distributes over a shifted prefix. */
  lemma ShiftDigit(x: int, p: int, y: int, d: int)
    ensures (x * p + y) * 10 + d == x * (p * 10) + (y * 10 + d)
  {
  }

  /** Python's `str(n)` for n >= 0: decimal digits, no leading zero. */
  function NatToString(n: nat): (s: string)
    ensures 0 < |s| && AllDigits(s)
    ensures s[0] == '0' <==> n == 0
    ensures DigitsValue(s) == n
    ensures n < 10 ==> |s| == 1
    ensures n < 100 ==> |s| <= 2
    ensures n < 1000 ==> |s| <= 3
  {
    if n < 10 then
      var s := [DigitChar(n)];
      assert s[..0] == [];
      s
    else
      var init := NatToString(n / 10);
      var s := init + [DigitChar(n % 10)];
      assert s[..|s| - 1] == init;
      s
  }

  /** Two digits with a leading zero, as the `.2f` fractional part. */
  function Pad2(x: nat): (s: string)
    requires x < 100
    ensures |s| == 2 && AllDigits(s) && DigitsValue(s) == x
  {
    var s := [DigitChar(x / 10), DigitChar(x % 10)];
    assert s[..1][..0] == [];
    assert s[..1] == [DigitChar(x / 10)];
    assert DigitsValue(s[..1]) == x / 10;
    assert DigitsValue(s) == (x / 10) * 10 + x % 10;
    s
  }

  /** Three digits with leading zeros, one group after a `,` separator. */
  function Pad3(x: nat): (s: string)
    requires x < 1000
    ensures |s| == 3 && AllDigits(s) && DigitsValue(s) == x
  {
    var s := [DigitChar(x / 100), DigitChar(x / 10 % 10), DigitChar(x % 10)];
    assert s[..2][..1][..0] == [];
    assert s[..2][..1] == [DigitChar(x / 100)];
    assert s[..2] == [DigitChar(x / 100), DigitChar(x / 10 % 10)];
    assert DigitsValue(s[..2][..1]) == x / 100;
    assert DigitsValue(s[..2]) == (x / 100) * 10 + x / 10 % 10 == x / 10;
    assert DigitsValue(s) == (x / 10) * 10 + x % 10;
    s
  }

  /** Python's `s.replace(c, '')` for a one-character `c`: every `c` removed. */
  function Without(s: string, c: char): (r: string)
    ensures c !in r
  {
    if s == [] then [] else (if s[0] == c then [] else [s[0]]) + Without(s[1..], c)
  }

  /** `replace(c, '')` keeps every other character, as often as it occurs. */
  lemma {:induction false} WithoutContents(s: string, c: char)
    ensures multiset(Without(s, c)) == multiset(s)[c := 0]
    decreases |s|
  {
    if s != [] {
      WithoutContents(s[1..], c);
      assert s == [s[0]] + s[1..];
    }
  }

  /** `replace(c, '')` changes nothing when there is no `c`. */
  lemma {:induction false} WithoutAbsent(s: string, c: char)
    requires c !in s
    ensures Without(s, c) == s
    decreases |s|
  {
    if s != [] {
      assert s[0] != c;
      WithoutAbsent(s[1..], c);
      assert [s[0]] + s[1..] == s;
    }
  }

  lemma {:induction false} WithoutAppend(a: string, b: string, c: char)
    ensures Without(a + b, c) == Without(a, c) + Without(b, c)
    decreases |a|
  {
    if a == [] {
      assert a + b == b;
    } else {
      assert (a + b)[0] == a[0];
      assert (a + b)[1..] == a[1..] + b;
      WithoutAppend(a[1..], b, c);
    }
  }

  /** Groups of three digits separated by commas, behind a leading group of one to three digits. */
  predicate Grouped(s: string)
    decreases |s|
  {
    if |s| <= 3 then 0 < |s| && AllDigits(s)
    else 5 <= |s| && s[|s| - 4] == ',' && AllDigits(s[|s| - 3..]) && Grouped(s[..|s| - 4])
  }

  /** Comma-grouped digits with no leading zero, except for "0" itself. */
  predicate IsGrouped(s: string) {
    0 < |s| && Grouped(s) && (s[0] == '0' ==> s == "0")
  }

  /** Python's `format(n, ',')` for n >= 0 (PEP 378): digits grouped by threes with commas. */
  function GroupThousands(n: nat): (s: string)
    ensures IsGrouped(s) && IsDigit(s[0])
    ensures s[0] == '0' <==> n == 0
  {
    if n < 1000 then
      NatToString(n)
    else
      var g := GroupThousands(n / 1000);
      var p := Pad3(n % 1000);
      var s := g + "," + p;
      assert s[..|s| - 4] == g;
      assert s[|s| - 3..] == p;
      s
  }

  /** A grouped numeral holds nothing but digits and commas. */
  lemma {:induction false} GroupedChars(s: string)
    requires Grouped(s)
    ensures forall i :: 0 <= i < |s| ==> IsDigit(s[i]) || s[i] == ','
    decreases |s|
  {
    if 3 < |s| {
      var init := s[..|s| - 4];
      GroupedChars(init);
      forall i | 0 <= i < |s| ensures IsDigit(s[i]) || s[i] == ',' {
        if i < |s| - 4 {
          assert s[i] == init[i];
        } else if |s| - 3 <= i {
          assert s[i] == s[|s| - 3..][i - (|s| - 3)];
        }
      }
    }
  }

  /** Removing the commas from `format(n, ',')` leaves digits that read back as n. */
  lemma {:induction false} GroupDigits(n: nat)
    ensures 0 < |Without(GroupThousands(n), ',')| && AllDigits(Without(GroupThousands(n), ','))
    ensures DigitsValue(Without(GroupThousands(n), ',')) == n
    decreases n
  {
    if n < 1000 {
      WithoutDigits(NatToString(n));
    } else {
      var g := GroupThousands(n / 1000);
      var p := Pad3(n % 1000);
      var digits := Without(g, ',');
      assert GroupThousands(n) == g + "," + p;
      GroupDigits(n / 1000);
      WithoutAfterGroup(g, p);
      DigitsValueAppend(digits, p);
      assert Pow10(|p|) == 1000;
      SplitThousands(n, DigitsValue(digits), DigitsValue(p));
    }
  }

  lemma SplitThousands(n: nat, high: nat, low: nat)
    requires high == n / 1000 && low == n % 1000
    ensures high * 1000 + low == n
  {
  }

  /** Dropping the commas from `g,ppp` leaves the digits of `g` followed by `ppp`. */
  lemma WithoutAfterGroup(g: string, p: string)
    requires AllDigits(p)
    ensures Without(g + "," + p, ',') == Without(g, ',') + p
  {
    WithoutAppend(g + ",", p, ',');
    WithoutAppend(g, ",", ',');
    WithoutDigits(p);
    WithoutOnly(',');
  }

  lemma WithoutOnly(c: char)
    ensures Without([c], c) == []
  {
    assert [c][1..] == [];
  }

  lemma WithoutDigits(p: string)
    requires AllDigits(p)
    ensures Without(p, ',') == p
  {
    assert ',' !in p by {
      forall i | 0 <= i < |p| ensures p[i] != ',' {
        assert IsDigit(p[i]);
      }
    }
    WithoutAbsent(p, ',');
  }

  /** Python's `s.rstrip(c)` for a one-character `c`: the trailing run of `c` removed. */
  function RStrip(s: string, c: char): (r: string)
    ensures r <= s
    ensures r == [] || r[|r| - 1] != c
    ensures forall i :: |r| <= i < |s| ==> s[i] == c
  {
    if s != [] && s[|s| - 1] == c then RStrip(s[..|s| - 1], c) else s
  }

  /** Trailing zeros of a digit string only scale its value by a power of ten. */
  lemma {:induction false} StripZeros(s: string)
    requires AllDigits(s)
    ensures AllDigits(RStrip(s, '0'))
    ensures DigitsValue(RStrip(s, '0')) * Pow10(|s| - |RStrip(s, '0')|) == DigitsValue(s)
    decreases |s|
  {
    if s != [] && s[|s| - 1] == '0' {
      var init := s[..|s| - 1];
      StripZeros(init);
      var r := RStrip(s, '0');
      assert r == RStrip(init, '0');
      assert DigitsValue(s) == DigitsValue(init) * 10;
      ScaleByTen(DigitsValue(r), |init| - |r|);
    } else {
      assert Pow10(0) == 1;
    }
  }

  lemma ScaleByTen(x: nat, k: nat)
    ensures x * Pow10(k + 1) == x * Pow10(k) * 10
  {
  }

  /** A decimal number: `mantissa / 10^places`. */
  datatype Decimal = Decimal(mantissa: int, places: nat)

  /**
   * Python's `float(s)` on plain decimal text: an optional sign, then digits
   * with at most one `.`, at least one digit in all; None where float() raises
   * ValueError.
   */
  function ParseFloat(s: string): (r: Option<Decimal>)
    ensures r.Some? ==> 0 < |s| && (IsDigit(s[0]) || s[0] == '-' || s[0] == '+' || s[0] == '.')
    ensures r.Some? && r.value.mantissa < 0 ==> s[0] == '-'
  {
    if s == [] then None
    else if s[0] == '-' then Negate(ParseUnsigned(s[1..]))
    else if s[0] == '+' then ParseUnsigned(s[1..])
    else ParseUnsigned(s)
  }

  function Negate(d: Option<Decimal>): Option<Decimal> {
    if d.None? then None else Some(Decimal(-d.value.mantissa, d.value.places))
  }

  function ParseUnsigned(s: string): (r: Option<Decimal>)
    ensures r.Some? ==> 0 <= r.value.mantissa
  {
    Scan(s, 0, None, false)
  }

  /** Digits counted after the point, once there is one. */
  function Shift(places: Option<nat>, n: nat): Option<nat> {
    if places.Some? then Some(places.value + n) else None
  }

  /**
   * Reading unsigned decimal text from left to right: `acc` holds the digits
   * read so far as one number, `places` how many of them follow the point
   * (None before the point), `seen` whether any digit was read.
   */
  function Scan(s: string, acc: nat, places: Option<nat>, seen: bool): (r: Option<Decimal>)
    ensures r.Some? ==> 0 <= r.value.mantissa
    decreases |s|
  {
    if s == [] then
      if seen then Some(Decimal(acc, if places.Some? then places.value else 0)) else None
    else if IsDigit(s[0]) then
      Scan(s[1..], acc * 10 + DigitOf(s[0]), Shift(places, 1), true)
    else if s[0] == '.' && places.None? then
      Scan(s[1..], acc, Some(0), seen)
    else None
  }

  /** The scanner accepts only digits and points, and needs a digit. */
  lemma {:induction false} ScanShape(s: string, acc: nat, places: Option<nat>, seen: bool)
    ensures Scan(s, acc, places, seen).Some? ==>
              && (seen || exists i :: 0 <= i < |s| && IsDigit(s[i]))
              && forall i :: 0 <= i < |s| ==> IsDigit(s[i]) || s[i] == '.'
    decreases |s|
  {
    if s != [] && Scan(s, acc, places, seen).Some? {
      var rest := s[1..];
      if IsDigit(s[0]) {
        ScanShape(rest, acc * 10 + DigitOf(s[0]), Shift(places, 1), true);
      } else {
        ScanShape(rest, acc, Some(0), seen);
        if !seen {
          var i :| 0 <= i < |rest| && IsDigit(rest[i]);
          assert IsDigit(s[i + 1]);
        }
      }
      forall i | 0 < i < |s| ensures IsDigit(s[i]) || s[i] == '.' {
        assert s[i] == rest[i - 1];
      }
    }
  }

  /**
   * `float()` accepts plain decimal text only: a sign, a digit or a point first,
   * then digits and points, with at least one digit.
   */
  lemma ParseFloatShape(s: string)
    ensures ParseFloat(s).Some? ==>
              && (exists i :: 0 <= i < |s| && IsDigit(s[i]))
              && forall i :: 0 < i < |s| ==> IsDigit(s[i]) || s[i] == '.'
  {
    if ParseFloat(s).Some? {
      if s[0] == '-' || s[0] == '+' {
        var rest := s[1..];
        ScanShape(rest, 0, None, false);
        var i :| 0 <= i < |rest| && IsDigit(rest[i]);
        assert IsDigit(s[i + 1]);
        forall i | 0 < i < |s| ensures IsDigit(s[i]) || s[i] == '.' {
          assert s[i] == rest[i - 1];
        }
      } else {
        ScanShape(s, 0, None, false);
      }
    }
  }

  /** The mantissa of `whole.frac` once the point is dropped. */
  function FixedValue(whole: string, frac: string): nat
    requires AllDigits(whole) && AllDigits(frac)
  {
    DigitsValue(whole) * Pow10(|frac|) + DigitsValue(frac)
  }

  lemma AppendDigitValue(acc: nat, digit: nat, p: nat, rest: nat)
    ensures (acc * 10 + digit) * p + rest == acc * (10 * p) + (digit * p + rest)
  {
  }

  /** Scanning a run of digits appends them to the number read so far. */
  lemma {:induction false} ScanDigits(d: string, t: string, acc: nat, places: Option<nat>, seen: bool)
    requires AllDigits(d)
    ensures Scan(d + t, acc, places, seen)
            == Scan(t, acc * Pow10(|d|) + DigitsValue(d), Shift(places, |d|), seen || d != [])
    decreases |d|
  {
    if d == [] {
      assert d + t == t;
    } else {
      var c, rest := d[0], d[1..];
      assert (d + t)[0] == c;
      assert (d + t)[1..] == rest + t;
      ScanDigits(rest, t, acc * 10 + DigitOf(c), Shift(places, 1), true);
      assert d == [c] + rest;
      DigitsValueAppend([c], rest);
      assert DigitsValue([c]) == DigitOf(c) by {
        assert [c][..0] == [];
      }
      AppendDigitValue(acc, DigitOf(c), Pow10(|rest|), DigitsValue(rest));
    }
  }

  /** Reading `whole.frac` without a sign gives the digits as one number and the count after the point. */
  lemma ParseUnsignedFixedPoint(whole: string, frac: string)
    requires 0 < |whole| && AllDigits(whole) && AllDigits(frac)
    ensures ParseUnsigned(whole + "." + frac) == Some(Decimal(FixedValue(whole, frac), |frac|))
  {
    var v := DigitsValue(whole);
    assert whole + "." + frac == whole + ("." + frac);
    ScanDigits(whole, "." + frac, 0, None, false);
    assert ("." + frac)[1..] == frac;
    ScanDigits(frac, [], v, Some(0), true);
    assert frac + [] == frac;
  }

  /** `float()` reads back a fixed-point numeral `whole.frac` exactly. */
  lemma ParseUnsignedText(whole: string, frac: string)
    requires 0 < |whole| && AllDigits(whole) && AllDigits(frac)
    ensures ParseFloat(whole + "." + frac) == Some(Decimal(FixedValue(whole, frac), |frac|))
  {
    ParseUnsignedFixedPoint(whole, frac);
    assert (whole + "." + frac)[0] == whole[0];
  }

  /** `float()` reads back a negative fixed-point numeral `-whole.frac` exactly. */
  lemma ParseNegativeText(whole: string, frac: string)
    requires 0 < |whole| && AllDigits(whole) && AllDigits(frac)
    ensures ParseFloat("-" + whole + "." + frac) == Some(Decimal(-(FixedValue(whole, frac) as int), |frac|))
  {
    ParseUnsignedFixedPoint(whole, frac);
    assert ("-" + whole + "." + frac)[1..] == whole + "." + frac;
  }

  /** `float()` refuses the "N/A" sentinel. */
  lemma ParseFloatRejectsSentinel()
    ensures ParseFloat("N/A") == None
  {
    assert !IsDigit('N');
  }
}

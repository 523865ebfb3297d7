/**
 * `format_currency` and `format_percentage` (app.py:7-15). Amounts and fractions
 * are integers in thousandths, so `value * 100` and the `.1f` rendering are
 * exact; `.2f` rounds thousandths to cents.
 */
module Formatters {
  import opened Wrappers
  import opened Numerals
  import opened PyValues

  /** The sentinel for a missing (or, for money, zero) value. */
  const Sentinel := "N/A"

  /** m / 10 rounded to the nearest integer, ties to even, as `.2f` rounds a third decimal. */
  function RoundTenth(m: nat): (c: nat)
    ensures 10 * c <= m + 5 && m <= 10 * c + 5
    ensures m % 10 == 0 ==> 10 * c == m
    ensures m % 10 == 5 ==> c % 2 == 0
  {
    var q, r := m / 10, m % 10;
    if r < 5 then q
    else if r > 5 then q + 1
    else if q % 2 == 0 then q
    else q + 1
  }

  /** `$`, an optional `-`, comma-grouped whole units, a point and exactly two digits. */
  predicate IsCurrencyText(r: string) {
    && 5 <= |r|
    && r[0] == '$'
    && var body := if r[1] == '-' then r[2..] else r[1..];
    && 4 <= |body|
    && body[|body| - 3] == '.'
    && AllDigits(body[|body| - 2..])
    && IsGrouped(body[..|body| - 3])
  }

  lemma CurrencyTextShape(negative: bool, units: string, cents: string)
    requires IsGrouped(units) && IsDigit(units[0])
    requires |cents| == 2 && AllDigits(cents)
    ensures var r := "$" + Sign(negative) + units + "." + cents;
            IsCurrencyText(r) && (r[1] == '-' <==> negative)
  {
    var body := units + "." + cents;
    var r := "$" + Sign(negative) + units + "." + cents;
    assert body[..|body| - 3] == units;
    assert body[|body| - 2..] == cents;
    if negative {
      assert r[2..] == body;
    } else {
      assert r[1..] == body;
    }
  }

  /**
   * `format_currency(amount)`, amount in thousandths: "N/A" for None and for 0,
   * otherwise `f"${amount:,.2f}"`.
   */
  function FormatCurrency(amount: Option<int>): (r: string)
    ensures r == Sentinel <==> amount.None? || amount.value == 0
    ensures amount.Some? && amount.value != 0 ==> IsCurrencyText(r) && (r[1] == '-' <==> amount.value < 0)
  {
    if amount.None? || amount.value == 0 then Sentinel
    else
      var cents := RoundTenth(Abs(amount.value));
      CurrencyTextShape(amount.value < 0, GroupThousands(cents / 100), Pad2(cents % 100));
      "$" + Sign(amount.value < 0) + GroupThousands(cents / 100) + "." + Pad2(cents % 100)
  }

  /** An optional `-`, a numeral without leading zeros, a point, one digit and `%`. */
  predicate IsPercentText(r: string) {
    && 4 <= |r|
    && r[|r| - 1] == '%'
    && IsDigit(r[|r| - 2])
    && r[|r| - 3] == '.'
    && var whole := if r[0] == '-' then r[1..|r| - 3] else r[..|r| - 3];
    && 0 < |whole|
    && AllDigits(whole)
    && (whole[0] == '0' ==> |whole| == 1)
  }

  /**
   * `format_percentage(fraction)`, fraction in thousandths: "N/A" for None only,
   * otherwise `f"{fraction * 100:.1f}%"`.
   */
  function FormatPercentage(fraction: Option<int>): (r: string)
    ensures r == Sentinel <==> fraction.None?
    ensures fraction.Some? ==> IsPercentText(r) && (r[0] == '-' <==> fraction.value < 0)
  {
    if fraction.None? then Sentinel
    else
      var a := Abs(fraction.value);
      var whole := NatToString(a / 10);
      var r := Sign(fraction.value < 0) + whole + "." + [DigitChar(a % 10)] + "%";
      assert fraction.value < 0 ==> r[1..|r| - 3] == whole;
      assert fraction.value >= 0 ==> r[..|r| - 3] == whole;
      assert IsDigit(whole[0]);
      r
  }

  /** Zero is not a percentage sentinel. */
  lemma ZeroPercentage()
    ensures FormatPercentage(Some(0)) == "0.0%"
  {
  }

  /** `format(12345, ',')` is "12,345". */
  lemma GroupExample()
    ensures GroupThousands(12345) == "12,345"
  {
    assert NatToString(1) == "1";
    assert NatToString(12) == NatToString(1) + [DigitChar(2)];
    assert Pad3(345) == "345";
  }

  lemma CurrencyExampleParts()
    ensures FormatCurrency(Some(12345600)) == "$" + GroupThousands(12345) + "." + Pad2(60)
  {
    assert RoundTenth(12345600) == 1234560;
    assert 1234560 / 100 == 12345 && 1234560 % 100 == 60;
    assert Sign(false) == "";
  }

  /** 12345.6 renders as "$12,345.60". */
  lemma CurrencyExample()
    ensures FormatCurrency(Some(12345600)) == "$12,345.60"
  {
    CurrencyExampleParts();
    GroupExample();
    assert Pad2(60) == "60";
  }

  /** 0.153 renders as "15.3%" and 1.0 as "100.0%". */
  lemma PercentageExamples()
    ensures FormatPercentage(Some(153)) == "15.3%"
    ensures FormatPercentage(Some(1000)) == "100.0%"
  {
  }
}

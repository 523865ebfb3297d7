/**
 * The dashboard reads some report strings back into numbers (app.py:174-240):
 * the total enrollment `int(ug) + int(grad)`, the gender shares
 * `float(text.rstrip('%'))` and the earnings `float(text.replace('$','').replace(',',''))`.
 * These lemmas say what those read-backs return on the formatters' output.
 */
module Readback {
  import opened Wrappers
  import opened Numerals
  import opened Records
  import opened PyValues
  import opened Formatters
  import opened Metrics
  import opened ReportProperties

  /** `float(text.replace('$', '').replace(',', ''))`; None where float() raises. */
  function ParseEarnings(text: string): (r: Option<Decimal>)
    ensures '$' !in text && ',' !in text ==> r == ParseFloat(text)
  {
    var number := Without(Without(text, '$'), ',');
    assert '$' !in text && ',' !in text ==> number == text by {
      if '$' !in text && ',' !in text {
        WithoutAbsent(text, '$');
        WithoutAbsent(text, ',');
      }
    }
    ParseFloat(number)
  }

  /** `float(text.rstrip('%'))`; None where float() raises. */
  function ParseShare(text: string): (r: Option<Decimal>)
    ensures text == [] || text[|text| - 1] != '%' ==> r == ParseFloat(text)
  {
    ParseFloat(RStrip(text, '%'))
  }

  /**
   * `int(ug) + int(grad)` on the two enrollment cells: defined exactly when both
   * convert, their sum for two ints, and a ValueError on the "N/A" default.
   */
  function TotalEnrollment(ug: Json, grad: Json): (r: Result<int, ConversionError>)
    ensures r.Ok? <==> PyInt(ug).Ok? && PyInt(grad).Ok?
    ensures ug.JInt? && grad.JInt? ==> r == Ok(ug.i + grad.i)
    ensures ug == JStr(Sentinel) ==> r == Err(ValueError(Sentinel))
    ensures PyInt(ug).Ok? && grad == JStr(Sentinel) ==> r == Err(ValueError(Sentinel))
  {
    assert !IsDigit('N');
    var u :- PyInt(ug);
    var g :- PyInt(grad);
    Ok(u + g)
  }

  /** `f"{total:,}"`: an optional minus sign and the comma-grouped magnitude. */
  function EnrollmentText(total: int): (t: string)
    ensures 0 < |t| && (total < 0 <==> t[0] == '-')
    ensures IsGrouped(if total < 0 then t[1..] else t)
  {
    var t := Sign(total < 0) + GroupThousands(Abs(total));
    assert total < 0 ==> t[1..] == GroupThousands(Abs(total));
    assert total >= 0 ==> t == GroupThousands(Abs(total)) && IsDigit(t[0]);
    t
  }

  /** Dropping the commas from `f"{total:,}"` gives text that `int()` reads back as total. */
  lemma EnrollmentTextRoundTrip(total: int)
    ensures ParseInt(Without(EnrollmentText(total), ',')) == Some(total)
  {
    var g := GroupThousands(Abs(total));
    var digits := Without(g, ',');
    GroupDigits(Abs(total));
    WithoutAppend(Sign(total < 0), g, ',');
    if total < 0 {
      assert Without("-", ',') == "-";
      assert ("-" + digits)[1..] == digits;
    } else {
      assert Without("", ',') == "";
      assert Sign(total < 0) + digits == digits;
      assert IsDigit(digits[0]);
    }
  }

  /** A string without the character c is left as it is by Without, piece by piece. */
  lemma WithoutPieces(sign: string, units: string, cents: string, c: char)
    requires c != '.' && c != '-' && !IsDigit(c)
    requires sign == "" || sign == "-"
    requires AllDigits(cents)
    ensures Without(sign + units + "." + cents, c) == sign + Without(units, c) + "." + cents
  {
    WithoutAppend(sign + units + ".", cents, c);
    WithoutAppend(sign + units, ".", c);
    WithoutAppend(sign, units, c);
    assert c !in sign;
    WithoutAbsent(sign, c);
    assert Without(".", c) == ".";
    assert c !in cents by {
      forall i | 0 <= i < |cents| ensures cents[i] != c {
        assert IsDigit(cents[i]);
      }
    }
    WithoutAbsent(cents, c);
  }

  /** Grouped digits hold no dollar sign. */
  lemma NoDollar(n: nat)
    ensures '$' !in GroupThousands(n)
  {
    GroupedChars(GroupThousands(n));
  }

  /** `replace('$', '')` on currency text leaves the sign, the grouped units, the point and the cents. */
  lemma StripDollar(sign: string, units: string, cents: string)
    requires sign == "" || sign == "-"
    requires AllDigits(cents)
    ensures Without("$" + sign + units + "." + cents, '$') == sign + Without(units, '$') + "." + cents
  {
    var rest := sign + units + "." + cents;
    assert "$" + sign + units + "." + cents == "$" + rest;
    WithoutAppend("$", rest, '$');
    WithoutOnly('$');
    WithoutPieces(sign, units, cents, '$');
  }

  /** Both replacements turn `$[-]units.cents` into `[-]digits.cents`. */
  lemma StripCurrency(sign: string, units: string, cents: string)
    requires sign == "" || sign == "-"
    requires '$' !in units
    requires AllDigits(cents)
    ensures Without(Without("$" + sign + units + "." + cents, '$'), ',') == sign + Without(units, ',') + "." + cents
  {
    StripDollar(sign, units, cents);
    WithoutAbsent(units, '$');
    WithoutPieces(sign, units, cents, ',');
  }

  /** The earnings read-back of `$[-]units.cents` is the fixed-point number its digits denote. */
  lemma ReadNumber(negative: bool, units: string, cents: string)
    requires '$' !in units
    requires AllDigits(cents)
    requires 0 < |Without(units, ',')| && AllDigits(Without(units, ','))
    ensures var value := FixedValue(Without(units, ','), cents);
            ParseEarnings("$" + Sign(negative) + units + "." + cents)
            == Some(Decimal(if negative then -(value as int) else value, |cents|))
  {
    StripCurrency(Sign(negative), units, cents);
    ParseSignedText(negative, Without(units, ','), cents);
    ReadStripped("$" + Sign(negative) + units + "." + cents, Sign(negative) + Without(units, ',') + "." + cents);
  }

  lemma ReadStripped(text: string, number: string)
    requires Without(Without(text, '$'), ',') == number
    ensures ParseEarnings(text) == ParseFloat(number)
  {
  }

  /** The digits of the units followed by the two cents digits denote c. */
  lemma CentsValue(c: nat)
    ensures 0 < |Without(GroupThousands(c / 100), ',')|
    ensures AllDigits(Without(GroupThousands(c / 100), ','))
    ensures FixedValue(Without(GroupThousands(c / 100), ','), Pad2(c % 100)) == c
  {
    GroupDigits(c / 100);
    assert Pow10(2) == 100;
  }

  /** `float()` reads `[-]units.cents` back after the dollar sign and the commas are removed. */
  lemma ReadCurrencyText(negative: bool, c: nat)
    ensures ParseEarnings("$" + Sign(negative) + GroupThousands(c / 100) + "." + Pad2(c % 100))
            == Some(Decimal(if negative then -(c as int) else c, 2))
  {
    NoDollar(c / 100);
    CentsValue(c);
    ReadNumber(negative, GroupThousands(c / 100), Pad2(c % 100));
  }

  /**
   * The earnings chart reads a formatted non-zero amount back to within half a
   * cent, and exactly when the amount is a whole number of cents.
   */
  lemma EarningsRoundTrip(m: int)
    requires m != 0
    ensures ParseEarnings(FormatCurrency(Some(m))).Some?
    ensures var d := ParseEarnings(FormatCurrency(Some(m))).value;
            && d.places == 2
            && -5 <= 10 * d.mantissa - m <= 5
            && (m % 10 == 0 ==> 10 * d.mantissa == m)
  {
    var c := RoundTenth(Abs(m));
    var text := "$" + Sign(m < 0) + GroupThousands(c / 100) + "." + Pad2(c % 100);
    assert FormatCurrency(Some(m)) == text;
    ReadCurrencyText(m < 0, c);
    assert ParseEarnings(text) == Some(Decimal(if m < 0 then -(c as int) else c, 2));
  }

  /** A missing or zero amount shows "N/A", which `float()` refuses. */
  lemma EarningsSentinel(amount: Option<int>)
    requires amount.None? || amount.value == 0
    ensures ParseEarnings(FormatCurrency(amount)).None?
  {
    assert '$' !in Sentinel && ',' !in Sentinel;
    ParseFloatRejectsSentinel();
  }

  /** The gender chart reads a formatted share back exactly: m thousandths are m / 10 percent. */
  lemma ShareRoundTrip(m: int)
    ensures ParseShare(FormatPercentage(Some(m))) == Some(Decimal(m, 1))
  {
    var a := Abs(m);
    var whole, frac := NatToString(a / 10), [DigitChar(a % 10)];
    StripPercent(Sign(m < 0) + whole + "." + frac);
    ParseSignedText(m < 0, whole, frac);
    OneDecimal(a);
  }

  /** The `%` sign is the only thing `rstrip` removes from a shown share. */
  lemma StripPercent(number: string)
    requires number != [] && number[|number| - 1] != '%'
    ensures RStrip(number + "%", '%') == number
  {
    assert (number + "%")[..|number|] == number;
  }

  /** Dropping the point of a one-place numeral gives back its thousandths. */
  lemma OneDecimal(a: nat)
    ensures FixedValue(NatToString(a / 10), [DigitChar(a % 10)]) == a
  {
    var frac := [DigitChar(a % 10)];
    assert Pow10(1) == 10;
    assert frac[..0] == [];
    assert DigitsValue(frac) == a % 10;
  }

  /** A missing share shows "N/A", which `float()` refuses. */
  lemma ShareSentinel()
    ensures ParseShare(FormatPercentage(None)).None?
  {
    assert RStrip(Sentinel, '%') == Sentinel;
    ParseFloatRejectsSentinel();
  }

  /**
   * Total enrollment of the report: the sum when both counts are ints; a
   * ValueError when either count is missing, since its cell is "N/A" (the
   * undergraduate cell is converted first).
   */
  lemma ReportTotalEnrollment(record: Json)
    requires GetSchoolMetrics(record).Ok?
    ensures var body := GetSchoolMetrics(record).value[1].body.groups[0];
            var total := TotalEnrollment(body.fields[0].value, body.fields[1].value);
            var ug, grad := ValueOr(record, Undergraduates, JStr(Sentinel)), ValueOr(record, Graduates, JStr(Sentinel));
            && body.fields[0].name == "Undergraduate Enrollment"
            && body.fields[1].name == "Graduate Enrollment"
            && (ug.JInt? && grad.JInt? ==> total == Ok(ug.i + grad.i))
            && (At(record, Undergraduates).None? ==> total == Err(ValueError(Sentinel)))
            && (At(record, Graduates).None? && PyInt(ug).Ok? ==> total == Err(ValueError(Sentinel)))
  {
    EnrollmentCells(record);
    var ug, grad := ValueOr(record, Undergraduates, JStr(Sentinel)), ValueOr(record, Graduates, JStr(Sentinel));
    if At(record, Undergraduates).None? {
      assert TotalEnrollment(ug, grad) == Err(ValueError(Sentinel));
    }
  }

  /** The two enrollment cells hold the stored counts, or "N/A" where a count is missing. */
  lemma EnrollmentCells(record: Json)
    requires GetSchoolMetrics(record).Ok?
    ensures var body := GetSchoolMetrics(record).value[1].body.groups[0];
            && 2 <= |body.fields|
            && body.fields[0] == Field("Undergraduate Enrollment", ValueOr(record, Undergraduates, JStr(Sentinel)))
            && body.fields[1] == Field("Graduate Enrollment", ValueOr(record, Graduates, JStr(Sentinel)))
  {
    assert Layout[1].body.groups[0].rows[0] == Row("Undergraduate Enrollment", Raw(Undergraduates, JStr(Sentinel)));
    assert Layout[1].body.groups[0].rows[1] == Row("Graduate Enrollment", Raw(Graduates, JStr(Sentinel)));
    NestedField(record, Layout, 1, 0, 0);
    NestedField(record, Layout, 1, 0, 1);
  }

  /**
   * The gender chart's reading of the "Men" cell: the stored share times 100
   * when it is a number; `float()` fails on "N/A" when it is missing or null.
   */
  lemma ReportMenShare(record: Json)
    requires GetSchoolMetrics(record).Ok?
    ensures var f := GetSchoolMetrics(record).value[2].body.groups[0].fields[0];
            var share := AsMilli(ValueOr(record, MenShare, JNull));
            && f.name == "Men" && f.value.JStr?
            && (share.Some? ==> ParseShare(f.value.s) == Some(Decimal(share.value, 1)))
            && (share.None? ==> ParseShare(f.value.s).None?)
  {
    assert Layout[2].body.groups[0].rows[0] == Row("Men", Percentage(MenShare));
    NestedField(record, Layout, 2, 0, 0);
    var share := AsMilli(ValueOr(record, MenShare, JNull));
    if share.Some? {
      ShareRoundTrip(share.value);
    } else {
      ShareSentinel();
    }
  }

  /** The same reading of the "Women" cell. */
  lemma ReportWomenShare(record: Json)
    requires GetSchoolMetrics(record).Ok?
    ensures var f := GetSchoolMetrics(record).value[2].body.groups[0].fields[1];
            var share := AsMilli(ValueOr(record, WomenShare, JNull));
            && f.name == "Women" && f.value.JStr?
            && (share.Some? ==> ParseShare(f.value.s) == Some(Decimal(share.value, 1)))
            && (share.None? ==> ParseShare(f.value.s).None?)
  {
    assert Layout[2].body.groups[0].rows[1] == Row("Women", Percentage(WomenShare));
    NestedField(record, Layout, 2, 0, 1);
    var share := AsMilli(ValueOr(record, WomenShare, JNull));
    if share.Some? {
      ShareRoundTrip(share.value);
    } else {
      ShareSentinel();
    }
  }

  /**
   * The earnings chart's reading of the k-th "Median Earnings" cell (6, 8 and 10
   * years): a non-zero stored amount comes back to within half a cent; a
   * missing, null or zero amount leaves "N/A", which `float()` refuses.
   */
  lemma ReportEarnings(record: Json, k: nat)
    requires GetSchoolMetrics(record).Ok?
    requires k < 3
    ensures var f := GetSchoolMetrics(record).value[5].body.groups[0].fields[k];
            var amount := AsMilli(ValueOr(record, [Earnings6, Earnings8, Earnings10][k], JNull));
            && f.value.JStr?
            && (ParseEarnings(f.value.s).Some? <==> amount.Some? && amount.value != 0)
            && (amount.Some? && amount.value != 0 ==>
                  && ParseEarnings(f.value.s).value.places == 2
                  && -5 <= 10 * ParseEarnings(f.value.s).value.mantissa - amount.value <= 5)
  {
    var amount := AsMilli(ValueOr(record, [Earnings6, Earnings8, Earnings10][k], JNull));
    EarningsCell(record, k);
    if amount.Some? && amount.value != 0 {
      EarningsRoundTrip(amount.value);
    } else {
      EarningsSentinel(amount);
    }
  }

  /** The k-th "Median Earnings" cell shows the stored amount as currency. */
  lemma EarningsCell(record: Json, k: nat)
    requires GetSchoolMetrics(record).Ok?
    requires k < 3
    ensures var g := GetSchoolMetrics(record).value[5].body.groups[0];
            var path := [Earnings6, Earnings8, Earnings10][k];
            && k < |g.fields|
            && g.fields[k].value == JStr(FormatCurrency(AsMilli(ValueOr(record, path, JNull))))
  {
    var path := [Earnings6, Earnings8, Earnings10][k];
    assert Layout[5].body.groups[0].rows[k].source == Currency(path);
    NestedField(record, Layout, 5, 0, k);
  }
}

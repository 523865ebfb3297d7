# College metrics: a verified model of the report builder

The College Metrics Explorer is a dashboard that shows public statistics for a fixed
list of US colleges. For each school it takes the raw nested JSON record of the
College Scorecard API and builds a six-section metrics report: Institution
Overview, Enrollment & Faculty, Demographics, Cost & Financial Aid, Student Success
and Career Outcomes. It formats money as `$12,345.60` and shares as `15.3%`, and
writes "N/A" where data is missing. The dashboard then reads some of those strings
back into numbers for its charts and its enrollment total.

This project models that core of `app.py` in Dafny and proves what it promises:

- `wrappers.dfy`: `Option` and `Result`.
- `numerals.dfy`: decimal numerals, PEP 378 comma grouping (`format(n, ',')`),
  `str.replace`/`str.rstrip` for one character, and `float()` on plain decimal text.
- `records.dfy`: the raw record as a JSON value, and the `.get(key, {})` chain as one
  generic `Lookup` over a key path, with an independent reading of it through the
  values actually stored (`At`, `Traversable`, `ValueOr`).
- `pyvalues.dfy`: the pieces of Python semantics the source relies on: `str()` in
  f-strings, truthiness, `== 1`, a bool counting as 0 or 1, and `int()`.
- `formatters.dfy`: `format_currency` and `format_percentage`.
- `metrics.dfy`: `get_school_metrics`. The nested dict literal becomes a
  declarative `Layout` table of sections, groups, rows and the source of each field.
  One generic evaluation runs the table in the literal's order.
- `report_properties.dfy`: when `get_school_metrics` returns and when it raises, the
  fixed shape of its report, the derived overview fields, the two quirks of the
  source, and the report of a record with no data.
- `readback.dfy`: the dashboard's read-backs: `int(ug) + int(grad)`,
  `float(text.rstrip('%'))` and `float(text.replace('$','').replace(',',''))`.
- `demographics.dfy`: `create_demographic_chart`, an imperative loop proved against
  a filter function.

Numbers in the record are `JInt(i)` or `JFloat(milli)`, a float with at most three
decimals, worth exactly `milli / 1000`. The formatters take amounts and fractions in
thousandths. `value * 100` with `.1f` is then exact. The model's `.2f` rounds the
exact thousandths to cents, ties to the even cent; Python's `.2f` rounds the binary
double nearest the value, which differs on some half-cent amounts. More generally,
every JSON number is read here as its exact decimal, while Python rounds in binary;
"Left out" gives the magnitudes within which the two agree.

Two quirks of the source are reproduced, not corrected. "4-year rate" and "6-year
rate" both read `completion_rate_4yr_150nt`, so they always agree. The
student-faculty ratio has no guard against a missing value, so it reads "None:1".

Two consequences of the code are worth stating outright:

- A record without data does not show "N/A" everywhere. Name, Carnegie
  Classification, Accreditor and Average Age at Entry are `None`; Religious
  Affiliation is "None"; Type is "Private"; Location is "N/A, N/A"; and the ratio is
  "None:1" (`ReportProperties.NoDataReport`).
- `.get` on a present value that is not a mapping (a string, a number, a list)
  raises AttributeError. The model returns an error there, and
  `ReportProperties.Totality` says exactly when `get_school_metrics` returns.

## Model

| member | source | states |
|---|---|---|
| `Formatters.FormatCurrency` | app.py:7-10 | "N/A" exactly for None and for 0; otherwise `$`, a `-` exactly for negative amounts, comma-grouped units without leading zeros, a point and two digits |
| `Formatters.RoundTenth` | app.py:10 | `.2f` on exact thousandths: the nearest cent, within half a cent, exact on whole cents, ties to the even cent (half-cent floats: see Left out) |
| `Formatters.CurrencyExample` | app.py:10 | 12345.6 renders as "$12,345.60" |
| `Formatters.GroupExample` | app.py:10 | `format(12345, ',')` is "12,345" |
| `Formatters.FormatPercentage` | app.py:12-15 | "N/A" only for None; otherwise an optional `-` (exactly for negatives), a numeral without leading zeros, a point, one digit and `%` |
| `Formatters.ZeroPercentage` | app.py:12-15 | zero is not missing: it renders as "0.0%" |
| `Formatters.PercentageExamples` | app.py:15 | 0.153 renders as "15.3%" and 1.0 as "100.0%" |
| `Numerals.GroupThousands` | app.py:10 | the `,` thousands grouping of PEP 378: groups of three behind a leading group of one to three digits, no leading zero |
| `Numerals.GroupDigits` | app.py:238-240 | removing the commas from a grouped numeral leaves digits that read back as the number |
| `Numerals.GroupedChars` | app.py:10 | a grouped numeral holds only digits and commas |
| `Numerals.NatToString` | app.py:15 | the decimal numeral of n: digits only, no leading zero, reads back as n |
| `Numerals.RStrip` | app.py:187-188 | `rstrip(c)` gives a prefix that does not end in c, and everything it dropped is c |
| `Numerals.WithoutAppend` | app.py:238-240 | `replace(c, '')` works piece by piece over a concatenation |
| `Numerals.ScanDigits` | app.py:238-240 | `float()` reading a run of digits appends them to the number read so far and counts them after the point |
| `Numerals.ParseUnsignedFixedPoint` | app.py:238-240 | unsigned text `whole.frac` reads as the digits taken as one number, with `|frac|` places |
| `Numerals.ParseUnsignedText` | app.py:238-240 | `float()` reads `whole.frac` back exactly |
| `Numerals.ParseNegativeText` | app.py:238-240 | `float()` reads `-whole.frac` back exactly, negated |
| `Numerals.Without` | app.py:238-240 | `replace(c, '')` leaves no `c` behind |
| `Numerals.WithoutAbsent` | app.py:238-240 | `replace(c, '')` changes nothing in text without `c` |
| `Numerals.WithoutContents` | app.py:238-240 | `replace(c, '')` keeps every other character, as often as it occurs |
| `Numerals.ParseFloat` | app.py:187-188 | `float()` succeeds only on text that starts with a digit, a sign or a point; a negative result needs a leading `-` |
| `Numerals.ParseFloatShape` | app.py:238-240 | `float()` succeeds only on plain decimal text: digits and points after the first character, at least one digit |
| `Numerals.Scan` | app.py:238-240 | the left-to-right reading of unsigned decimal text never yields a negative number |
| `Numerals.ScanShape` | app.py:238-240 | that reading accepts only digits and points, and needs a digit |
| `Numerals.StripZeros` | app.py:59 | dropping the trailing zeros that `repr` of a float omits divides the digits' value by a power of ten |
| `Numerals.ParseFloatRejectsSentinel` | app.py:238-240 | `float("N/A")` raises |
| `Records.Lookup` | app.py:37-120 | the `.get(k, {})` chain: an AttributeError always names one of the chain's own keys; one `.get` on a mapping never fails (meaning: `Records.LookupMeaning`) |
| `Records.LookupMeaning` | app.py:37-120 | a `.get` chain succeeds exactly when every value it meets before the last key is a mapping or missing; it then yields the stored value, or the default when the path is missing |
| `Records.EmptyLookup` | app.py:37-38 | a chain over `{}` yields its default: `{}` for the intermediate steps, the stated default at the end |
| `Records.MissingKeyGivesDefault` | app.py:54-55 | a key missing at any depth below mappings yields the default and no error |
| `PyValues.ParseInt` | app.py:174 | `int()` on text: a plain digit string reads as its value; success needs a digit or sign first; a negative result needs a `-` |
| `PyValues.PyInt` | app.py:174 | `int(v)` fails exactly on None, lists, dicts and non-integer text (ValueError naming the text); whole numbers convert exactly; floats truncate toward zero |
| `PyValues.PyStr` | app.py:43-59 | `str(v)` in an f-string: text is shown as is; only lists and dicts are not rendered |
| `PyValues.StrReadsBack` | app.py:43-59 | the text shown for an int reads back with `int()`, for a float with `float()`, as the same number |
| `PyValues.FloatTextRoundTrip` | app.py:59 | `float(str(x)) == x` for a float with at most three decimals, shown with one to three decimals |
| `PyValues.FractionValue` | app.py:59 | the decimals `repr` shows, padded back to three places, are the float's thousandths |
| `PyValues.ParseSignedText` | app.py:238-240 | `float()` reads `[-]whole.frac` back exactly, negated exactly when the sign is there |
| `PyValues.Truthy` | app.py:45 | a number is truthy exactly when it is non-zero (bools included); None is falsy |
| `PyValues.NoneOrNumber` | app.py:7-23 | `value > 0` after `is not None`, and the `.2f`/`.1f` formatters, raise exactly for text, lists and dicts |
| `PyValues.EqualsOne` | app.py:46 | `v == 1` holds exactly for 1, 1.0 and True |
| `PyValues.IntTextRoundTrip` | app.py:59 | the text `str(n)` that the ratio shows for an int reads back as n: `int(str(i)) == i` |
| `Metrics.EvalField` | app.py:42-120 | each field expression: every formatted field is text; Raw and Type fields fail only with AttributeError, formatter fields never with an unrendered value, f-string fields never with a formatter error (meaning: `ReportProperties.FieldMeaning`) |
| `Metrics.EvalRows` | app.py:41-50 | a group's fields succeed exactly when each field does, and are its rows' names and values in order |
| `Metrics.EvalGroups` | app.py:52-63 | a section's groups succeed exactly when each group does, and keep the literal's group names and order |
| `Metrics.EvalSections` | app.py:40-123 | the report succeeds exactly when every section does, and keeps the literal's section order |
| `Metrics.GetSchoolMetrics` | app.py:36-123 | a returned report has the six sections of `Metrics.Layout` (the dict literal of app.py:40-123, row by row), with exactly its group and field names in order |
| `ReportProperties.FieldMeaning` | app.py:42-120 | a field is computed exactly when its lookups meet mappings only and its formatter gets None or a number; its value is then the formatted stored value or its default |
| `ReportProperties.GetMeaning` | app.py:37-120 | a lookup of the layout succeeds exactly on a traversable path and yields the stored value or the default |
| `ReportProperties.RowsMeaning` | app.py:41-50 | a group is computed exactly when all of its fields are defined |
| `ReportProperties.BodyMeaning` | app.py:52-63 | a section is computed exactly when all of its fields are defined |
| `ReportProperties.SectionsMeaning` | app.py:40-123 | the whole report is computed exactly when every field is defined |
| `ReportProperties.Totality` | app.py:36-123 | `get_school_metrics` returns exactly when the record is well formed; missing keys never make it raise |
| `ReportProperties.SixSections` | app.py:40-123 | the report has the six named sections in order, the first flat, the others grouped |
| `ReportProperties.FlatField` | app.py:41-50 | where a row of a flat section lands in the report: its name, and its value is the expected one for its source |
| `ReportProperties.NestedField` | app.py:52-122 | where a row of a grouped section lands in the report: its group's and its own names, and its value is the expected one for its source |
| `ReportProperties.GraduationRatesAgree` | app.py:103-104 | "4-year rate" and "6-year rate" are always equal |
| `ReportProperties.RatioText` | app.py:59 | the ratio text ends in ":1"; it is "None:1" for a missing or null ratio and `str(n) + ":1"` for an int |
| `ReportProperties.RatioRendering` | app.py:59 | the report's Student-Faculty Ratio ends in ":1" and reads "None:1" when the ratio is missing |
| `ReportProperties.TypeIsPublicIff` | app.py:46 | Type is "Public" exactly when ownership == 1 (1, 1.0 or True), otherwise "Private" |
| `ReportProperties.WebsiteIff` | app.py:45 | Website is "https://" + url exactly when the url is truthy, otherwise "N/A" |
| `ReportProperties.LocationText` | app.py:43 | a missing city gives "N/A, " in front, a missing state ", N/A" at the end |
| `ReportProperties.LocationDefaults` | app.py:43 | the report's Location falls back to "N/A" for a missing city and for a missing state |
| `ReportProperties.LayoutRooted` | app.py:37-38 | every field path starts at `latest` or at `school` and goes at least one key further |
| `ReportProperties.NoDataLookup` | app.py:37-38 | in a record without `latest` and `school`, every rooted chain yields its default |
| `ReportProperties.NoDataField` | app.py:42-120 | without data, each field shows its fallback: the `.get` default, "N/A", "None:1", "N/A, N/A" or "Private" |
| `ReportProperties.NoDataRows` | app.py:41-50 | without data, a group's fields all show their fallbacks |
| `ReportProperties.NoDataBody` | app.py:52-122 | without data, a section's fields all show their fallbacks |
| `ReportProperties.NoDataSections` | app.py:40-123 | without data, every section is computed and shows only fallbacks |
| `ReportProperties.NoDataReport` | app.py:36-123 | a record without `latest` and `school`, `{}` among them, gives a full report without error, every field at its fallback |
| `Readback.ParseEarnings` | app.py:238-240 | `float(text.replace('$','').replace(',',''))`: on text without `$` and `,` it is plain `float()` (values: `Readback.EarningsRoundTrip`) |
| `Readback.ParseShare` | app.py:187-188 | `float(text.rstrip('%'))`: on text not ending in `%` it is plain `float()` (values: `Readback.ShareRoundTrip`) |
| `Readback.TotalEnrollment` | app.py:174 | `int(ug) + int(grad)`: defined exactly when both convert; the sum for two ints; ValueError on the "N/A" default in either cell |
| `Readback.EnrollmentText` | app.py:174-176 | `f"{n:,}"`: a `-` exactly for negatives, then a comma-grouped magnitude |
| `Readback.EnrollmentTextRoundTrip` | app.py:174-176 | removing the commas from `f"{n:,}"` gives text that `int()` reads back as n |
| `Readback.WithoutPieces` | app.py:238-240 | `replace(c, '')` leaves a sign, a point and digits alone |
| `Readback.NoDollar` | app.py:238 | grouped units hold no `$` |
| `Readback.StripCurrency` | app.py:238-240 | `replace('$','').replace(',','')` on `$[-]units.cents` leaves the sign, the digits of the units, the point and the cents |
| `Readback.ReadNumber` | app.py:238-240 | the earnings read-back of `$[-]units.cents` with digit-only units is the signed fixed-point number |
| `Readback.CentsValue` | app.py:10 | the grouped units and two-digit cents of an amount in cents, with the commas removed, read back as that amount |
| `Readback.StripDollar` | app.py:238 | `replace('$', '')` on currency text leaves the sign, the units, the point and the cents |
| `Readback.ReadCurrencyText` | app.py:238-240 | the earnings read-back of `$[-]units.cents` is the signed number of cents |
| `Readback.EarningsRoundTrip` | app.py:238-240 | a formatted non-zero amount reads back to within half a cent, exactly when it is a whole number of cents |
| `Readback.EarningsSentinel` | app.py:238-240 | a missing or zero amount shows "N/A", which the earnings read-back refuses |
| `Readback.ShareRoundTrip` | app.py:187-188 | a formatted share reads back exactly as the fraction times 100 |
| `Readback.StripPercent` | app.py:187-188 | `rstrip('%')` removes exactly the one `%` of a shown share |
| `Readback.OneDecimal` | app.py:15 | the numeral of a `.1f` share, with its point dropped, is the share in thousandths |
| `Readback.ShareSentinel` | app.py:187-188 | a missing share shows "N/A", which the share read-back refuses |
| `Readback.EnrollmentCells` | app.py:54-55 | the enrollment cells hold the stored counts, or "N/A" where a count is missing |
| `Readback.ReportTotalEnrollment` | app.py:172-174 | the total of the report's enrollment cells is the sum for stored ints and a ValueError when either count is missing |
| `Readback.ReportMenShare` | app.py:187 | the gender chart reads the "Men" cell as the stored share times 100, and fails when it is missing |
| `Readback.ReportWomenShare` | app.py:188 | the gender chart reads the "Women" cell as the stored share times 100, and fails when it is missing |
| `Readback.EarningsCell` | app.py:111-113 | each Median Earnings cell shows its stored amount through the currency formatter |
| `Readback.ReportEarnings` | app.py:236-240 | the earnings chart reads each of the 6-, 8- and 10-year cells back to within half a cent when the amount is non-zero, and fails otherwise |
| `Demographics.Qualifies` | app.py:23 | a qualifying share is a number (so `value > 0` does not raise) and truthy |
| `Demographics.Kept` | app.py:22-25 | the kept slices are no more than the entries, and every kept value is positive |
| `Demographics.KeptAppend` | app.py:22-25 | the filter keeps the mapping's order |
| `Demographics.KeptMembership` | app.py:23-25 | a slice is kept exactly when its category has a present, positive share, with value share * 100 |
| `Demographics.KeptEmpty` | app.py:27-34 | nothing is kept exactly when no share is present and positive |
| `Demographics.CreateDemographicChart` | app.py:17-34 | None exactly when nothing is kept; otherwise a pie titled "Student Demographics" with equal-length names and values that are the kept slices in order; TypeError at the first share that is neither None nor a number |

## Left out

- The data loader (`data_loader.py`): the HTTP fetch, the API key, the cache and the
  list of sample schools. The core receives one raw record as a parameter.
- `main()`: the page layout, widgets, tabs and sidebar, and the plotly figures. A pie
  is modelled as its values, names and title.
- Number representation: every JSON number is read as its exact decimal, an int as
  itself and a float as `milli / 1000` (floats with more than three decimals are not
  modelled). Python rounds to the nearest binary double in four places: when the JSON
  is parsed, when `repr` shows a float, when `.2f` or `.1f` turn an int into a float,
  and when `float()` reads text back. The two agree only within these bounds. A float
  must be below 2^43 (about 8.8·10^12) in magnitude; only then is each three-decimal
  value a double of its own, which `repr` shows with the same decimals. An int
  formatted with `.2f`, or a share's int times 100 formatted with `.1f`, must be below
  2^53. Beyond these bounds the model and Python differ. For example,
  `format_currency(2**53 + 1)` shows "$9,007,199,254,740,992.00" in Python but ends in
  "…993.00" here. The JSON float 9999999999999.999 is the double
  9999999999999.998046875, which Python shows as "9999999999999.998" but the model shows
  as "9999999999999.999".
- Formatters.FormatCurrency: agrees with Python's `.2f` only for floats below 2^43 and
  ints below 2^53 in magnitude (see "Number representation"), and apart from the
  half-cent ties below.
- Formatters.RoundTenth: a half-cent amount is rounded here as an exact decimal, ties to
  the even cent, while Python's `.2f` rounds the float's binary value. So 2.675 shows
  "$2.67" in Python but "$2.68" here, and 0.005 shows "$0.01" in Python but "$0.00"
  here. Ties that are exact in binary (…125, …375, …625, …875) agree.
- Formatters.FormatPercentage: `decimal * 100` is exact here, while Python rounds
  the product in binary. `.1f` agrees for float shares below 2^40 (about 1.1·10^12) and
  for int shares whose hundredfold is below 2^53.
- PyValues.PyStr: `repr` of a float agrees with the model's text only below 2^43 (see
  "Number representation"). The exponent form, used from 10^16 on, is not modelled.
- Readback.EarningsRoundTrip: it states the exact decimal that `float()` reads. Python
  gets the nearest double instead, so the statement holds in Python only within the
  bounds of "Number representation".
- Readback.ShareRoundTrip: the same limit as Readback.EarningsRoundTrip.
- PyValues.FloatTextRoundTrip: it is stated on exact thousandths. In Python a JSON
  float is `milli / 1000` only below 2^43. Beyond that, `float(repr(x)) == x` still
  holds for the double, but neither the text nor the value is the model's.
- Metrics.EvalField: a list or dict shown through an f-string (Location, Website,
  Ratio) yields an `Unrendered` error, while Python prints its repr. The text of a
  container's repr is not modelled.
- Numerals.ParseFloat: `float()` is modelled on plain decimal text only. Surrounding
  whitespace, underscores, exponents, `inf` and `nan` are not modelled; on the text
  the formatters produce, these do not arise.
- PyValues.ParseInt: `int()` on text is modelled for an optional sign and digits;
  whitespace and underscores are not.
- JSON objects are unordered maps here. The report's order comes from the layout, as
  in the source, where it comes from the dict literal.
- Demographics.CreateDemographicChart: the mapping is a sequence of entries in
  insertion order; the uniqueness of dict keys is not needed and not modelled.

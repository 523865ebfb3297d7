/**
 * `get_school_metrics` (app.py:36-123): the fixed six-section report built
 * from one raw school record. The source's nested dict literal is written
 * here as a declarative layout, a table of (section, group, field, source)
 * entries, that one generic evaluation runs over, in the literal's order.
 */
module Metrics {
  import opened Wrappers
  import opened Records
  import opened PyValues
  import opened Formatters

  /** How one report field is computed from the record. */
  datatype Source =
      /** the looked-up value itself, e.g. `school.get('address', 'N/A')` */
    | Raw(path: Path, default: Json)
      /** `format_currency(<lookup>)` */
    | Currency(path: Path)
      /** `format_percentage(<lookup>)` */
    | Percentage(path: Path)
      /** `f"{<lookup>}:1"`, with no guard against None */
    | Ratio(path: Path)
      /** `f"{<city lookup or 'N/A'>}, {<state lookup or 'N/A'>}"` */
    | Location(city: Path, state: Path)
      /** `f"https://{url}" if url else "N/A"` */
    | Website(path: Path)
      /** `"Public" if <lookup> == 1 else "Private"` */
    | Ownership(path: Path)

  datatype Row = Row(name: string, source: Source)
  datatype GroupSpec = GroupSpec(name: string, rows: seq<Row>)
  /** A section holds its fields directly (Institution Overview) or in named groups. */
  datatype BodySpec = FlatSpec(rows: seq<Row>) | NestedSpec(groups: seq<GroupSpec>)
  datatype SectionSpec = SectionSpec(name: string, body: BodySpec)

  /** The report: ordered sections, groups and fields, every leaf a JSON value. */
  datatype Field = Field(name: string, value: Json)
  datatype Group = Group(name: string, fields: seq<Field>)
  datatype Body = Flat(fields: seq<Field>) | Nested(groups: seq<Group>)
  datatype Section = Section(name: string, body: Body)
  type Report = seq<Section>

  /** The exceptions `get_school_metrics` can raise. */
  datatype Error =
      /** `.get` called on a present value that is not a mapping (AttributeError) */
    | AttributeError(key: string)
      /** a formatter given a string, list or dict (ValueError or TypeError) */
    | FormatError(path: Path)
      /** a list or dict shown through an f-string; not modelled */
    | Unrendered(path: Path)

  const SchoolName: Path := ["school", "name"]
  const City: Path := ["school", "city"]
  const State: Path := ["school", "state"]
  const Url: Path := ["school", "school_url"]
  const OwnershipKind: Path := ["school", "ownership"]
  const Undergraduates: Path := ["latest", "student", "enrollment", "undergrad_12_month"]
  const Graduates: Path := ["latest", "student", "enrollment", "grad_12_month"]
  const FacultyRatio: Path := ["latest", "student", "demographics", "student_faculty_ratio"]
  const MenShare: Path := ["latest", "student", "demographics", "men"]
  const WomenShare: Path := ["latest", "student", "demographics", "women"]
  const CompletionRate: Path := ["latest", "completion", "completion_rate_4yr_150nt"]
  const Earnings6: Path := ["latest", "earnings", "6_yrs_after_entry", "median"]
  const Earnings8: Path := ["latest", "earnings", "8_yrs_after_entry", "median_earnings"]
  const Earnings10: Path := ["latest", "earnings", "10_yrs_after_entry", "median"]

  /** The report layout of app.py:40-123, one constant per section, in the literal's order. */
  const Layout: seq<SectionSpec> := [Overview, EnrollmentFaculty, DemographicsSection, CostAid, StudentSuccess, CareerOutcomes]

  const Overview: SectionSpec := SectionSpec("Institution Overview", FlatSpec([
    Row("Name", Raw(SchoolName, JNull)),
    Row("Location", Location(City, State)),
    Row("Address", Raw(["school", "address"], JStr(Sentinel))),
    Row("Website", Website(Url)),
    Row("Type", Ownership(OwnershipKind)),
    Row("Carnegie Classification", Raw(["school", "carnegie_basic"], JNull)),
    Row("Accreditor", Raw(["school", "accreditor"], JNull)),
    Row("Religious Affiliation", Raw(["school", "religious_affiliation"], JStr("None")))
  ]))

  const EnrollmentFaculty: SectionSpec := SectionSpec("Enrollment & Faculty", NestedSpec([
    GroupSpec("Student Body", [
      Row("Undergraduate Enrollment", Raw(Undergraduates, JStr(Sentinel))),
      Row("Graduate Enrollment", Raw(Graduates, JStr(Sentinel))),
      Row("Part-time Share", Percentage(["latest", "student", "part_time_share"]))
    ]),
    GroupSpec("Faculty", [
      Row("Student-Faculty Ratio", Ratio(FacultyRatio)),
      Row("Full-time Faculty Rate", Percentage(["school", "ft_faculty_rate"])),
      Row("Faculty Salary", Currency(["school", "faculty_salary"]))
    ])
  ]))

  const DemographicsSection: SectionSpec := SectionSpec("Demographics", NestedSpec([
    GroupSpec("Gender", [
      Row("Men", Percentage(MenShare)),
      Row("Women", Percentage(WomenShare))
    ]),
    GroupSpec("Student Background", [
      Row("First Generation", Percentage(["latest", "student", "share_firstgeneration"])),
      Row("Age 25 or Older", Percentage(["latest", "student", "share_25_older"])),
      Row("Average Age at Entry", Raw(["latest", "student", "demographics", "age_entry"], JNull)),
      Row("Median Family Income", Currency(["latest", "student", "demographics", "median_family_income"]))
    ])
  ]))

  const CostAid: SectionSpec := SectionSpec("Cost & Financial Aid", NestedSpec([
    GroupSpec("Direct Costs", [
      Row("In-State Tuition", Currency(["latest", "cost", "tuition", "in_state"])),
      Row("Out-of-State Tuition", Currency(["latest", "cost", "tuition", "out_of_state"])),
      Row("Room and Board", Currency(["latest", "cost", "roomboard", "oncampus"])),
      Row("Books and Supplies", Currency(["latest", "cost", "booksupply"]))
    ]),
    GroupSpec("Net Price", [
      Row("Average", Currency(["latest", "cost", "avg_net_price", "overall"])),
      Row("Low Income (0-30k)", Currency(["latest", "cost", "net_price", "public", "by_income_level", "0-30000"])),
      Row("High Income (75k+)", Currency(["latest", "cost", "net_price", "public", "by_income_level", "75000-plus"]))
    ]),
    GroupSpec("Aid & Debt", [
      Row("Pell Grant Recipients", Percentage(["latest", "student", "students_with_pell_grant"])),
      Row("Federal Loan Recipients", Percentage(["latest", "aid", "federal_loan_rate"])),
      Row("Median Debt", Currency(["latest", "aid", "median_debt", "completers", "overall"]))
    ])
  ]))

  const StudentSuccess: SectionSpec := SectionSpec("Student Success", NestedSpec([
    GroupSpec("Retention", [
      Row("First-year Full-time", Percentage(["latest", "student", "retention_rate", "overall", "full_time"])),
      Row("First-year Part-time", Percentage(["latest", "student", "retention_rate", "overall", "part_time"]))
    ]),
    GroupSpec("Graduation", [
      Row("4-year rate", Percentage(CompletionRate)),
      Row("6-year rate", Percentage(CompletionRate)),
      Row("Transfer-out rate", Percentage(["latest", "completion", "transfer_rate", "4yr", "full_time"]))
    ])
  ]))

  const CareerOutcomes: SectionSpec := SectionSpec("Career Outcomes", NestedSpec([
    GroupSpec("Median Earnings", [
      Row("6 years after entry", Currency(Earnings6)),
      Row("8 years after entry", Currency(Earnings8)),
      Row("10 years after entry", Currency(Earnings10))
    ]),
    GroupSpec("Employment", [
      Row("Earning over $25k/year", Percentage(["latest", "earnings", "6_yrs_after_entry", "percent_greater_than_25000"]))
    ]),
    GroupSpec("Loan Repayment", [
      Row("1-year rate", Percentage(["latest", "repayment", "1_yr", "rate_suppressed", "overall"])),
      Row("3-year rate", Percentage(["latest", "repayment", "3_yr", "rate_suppressed", "overall"]))
    ])
  ]))

  /** The lookup chain, its AttributeError lifted into the report's errors. */
  function Get(record: Json, path: Path, default: Json): Result<Json, Error> {
    match Lookup(record, path, default)
    case Ok(v) => Ok(v)
    case Err(key) => Err(AttributeError(key))
  }

  /** What a formatter receives: None, or a number in thousandths; anything else makes it raise. */
  function Numeric(v: Json, path: Path): Result<Option<int>, Error> {
    if !NoneOrNumber(v) then Err(FormatError(path))
    else if v.JNull? then Ok(None)
    else Ok(Some(AsMilli(v).value))
  }

  function Render(v: Json, path: Path): Result<string, Error> {
    if PyStr(v).Some? then Ok(PyStr(v).value) else Err(Unrendered(path))
  }

  /** One field of the report, evaluated as the dict literal evaluates it. */
  function EvalField(record: Json, source: Source): (r: Result<Json, Error>)
    ensures r.Ok? && !source.Raw? ==> r.value.JStr?
    ensures r.Err? && (source.Raw? || source.Ownership?) ==> r.error.AttributeError?
    ensures r.Err? && (source.Currency? || source.Percentage?) ==> !r.error.Unrendered?
    ensures r.Err? && (source.Ratio? || source.Location? || source.Website?) ==> !r.error.FormatError?
  {
    match source
    case Raw(p, d) => Get(record, p, d)
    case Currency(p) =>
      var v :- Get(record, p, JNull);
      var amount :- Numeric(v, p);
      Ok(JStr(FormatCurrency(amount)))
    case Percentage(p) =>
      var v :- Get(record, p, JNull);
      var fraction :- Numeric(v, p);
      Ok(JStr(FormatPercentage(fraction)))
    case Ratio(p) =>
      var v :- Get(record, p, JNull);
      var text :- Render(v, p);
      Ok(JStr(text + ":1"))
    case Location(c, s) =>
      var city :- Get(record, c, JStr(Sentinel));
      var cityText :- Render(city, c);
      var state :- Get(record, s, JStr(Sentinel));
      var stateText :- Render(state, s);
      Ok(JStr(cityText + ", " + stateText))
    case Website(p) =>
      var url :- Get(record, p, JNull);
      if Truthy(url) then
        var text :- Render(url, p);
        Ok(JStr("https://" + text))
      else Ok(JStr(Sentinel))
    case Ownership(p) =>
      var v :- Get(record, p, JNull);
      Ok(JStr(if EqualsOne(v) then "Public" else "Private"))
  }

  function EvalRows(record: Json, rows: seq<Row>): (r: Result<seq<Field>, Error>)
    ensures r.Ok? <==> forall k :: 0 <= k < |rows| ==> EvalField(record, rows[k].source).Ok?
    ensures r.Ok? ==> |r.value| == |rows|
    ensures r.Ok? ==> forall k :: 0 <= k < |rows| ==>
              r.value[k] == Field(rows[k].name, EvalField(record, rows[k].source).value)
  {
    if rows == [] then Ok([])
    else
      var v :- EvalField(record, rows[0].source);
      var rest :- EvalRows(record, rows[1..]);
      assert forall k :: 1 <= k < |rows| ==> rows[k] == rows[1..][k - 1];
      Ok([Field(rows[0].name, v)] + rest)
  }

  function EvalGroups(record: Json, groups: seq<GroupSpec>): (r: Result<seq<Group>, Error>)
    ensures r.Ok? <==> forall j :: 0 <= j < |groups| ==> EvalRows(record, groups[j].rows).Ok?
    ensures r.Ok? ==> |r.value| == |groups|
    ensures r.Ok? ==> forall j :: 0 <= j < |groups| ==>
              r.value[j] == Group(groups[j].name, EvalRows(record, groups[j].rows).value)
  {
    if groups == [] then Ok([])
    else
      var fields :- EvalRows(record, groups[0].rows);
      var rest :- EvalGroups(record, groups[1..]);
      assert forall j :: 1 <= j < |groups| ==> groups[j] == groups[1..][j - 1];
      Ok([Group(groups[0].name, fields)] + rest)
  }

  function EvalBody(record: Json, body: BodySpec): Result<Body, Error> {
    match body
    case FlatSpec(rows) =>
      var fields :- EvalRows(record, rows);
      Ok(Flat(fields))
    case NestedSpec(groups) =>
      var gs :- EvalGroups(record, groups);
      Ok(Nested(gs))
  }

  function EvalSections(record: Json, sections: seq<SectionSpec>): (r: Result<Report, Error>)
    ensures r.Ok? <==> forall i :: 0 <= i < |sections| ==> EvalBody(record, sections[i].body).Ok?
    ensures r.Ok? ==> |r.value| == |sections|
    ensures r.Ok? ==> forall i :: 0 <= i < |sections| ==>
              r.value[i] == Section(sections[i].name, EvalBody(record, sections[i].body).value)
  {
    if sections == [] then Ok([])
    else
      var body :- EvalBody(record, sections[0].body);
      var rest :- EvalSections(record, sections[1..]);
      assert forall i :: 1 <= i < |sections| ==> sections[i] == sections[1..][i - 1];
      Ok([Section(sections[0].name, body)] + rest)
  }

  /** Field names match the rows, in order. */
  predicate SameNames(fields: seq<Field>, rows: seq<Row>) {
    |fields| == |rows| && forall k :: 0 <= k < |rows| ==> fields[k].name == rows[k].name
  }

  /** A report body has exactly the group and field names its layout entry lists. */
  predicate SameShape(body: Body, spec: BodySpec) {
    match (body, spec)
    case (Flat(fields), FlatSpec(rows)) => SameNames(fields, rows)
    case (Nested(groups), NestedSpec(specs)) =>
      && |groups| == |specs|
      && forall j :: 0 <= j < |specs| ==>
           groups[j].name == specs[j].name && SameNames(groups[j].fields, specs[j].rows)
    case _ => false
  }

  /** `get_school_metrics(school_data)`. */
  function GetSchoolMetrics(record: Json): (r: Result<Report, Error>)
    ensures r.Ok? ==> |r.value| == |Layout|
    ensures r.Ok? ==> forall i :: 0 <= i < |Layout| ==>
              r.value[i].name == Layout[i].name && SameShape(r.value[i].body, Layout[i].body)
  {
    var r := EvalSections(record, Layout);
    if r.Ok? then
      forall i | 0 <= i < |Layout| ensures SameShape(r.value[i].body, Layout[i].body) {
        assert r.value[i].body == EvalBody(record, Layout[i].body).value;
      }
      r
    else r
  }
}

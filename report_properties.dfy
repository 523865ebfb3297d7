/**
 * What `get_school_metrics` promises about every record: when it returns, when
 * it raises, the fixed shape of its result, the derived overview fields, and the
 * two quirks of the source (the shared graduation-rate path and the unguarded ratio).
 */
module ReportProperties {
  import opened Wrappers
  import opened Records
  import opened PyValues
  import opened Formatters
  import opened Metrics

  predicate Renderable(v: Json) {
    PyStr(v).Some?
  }

  /**
   * When a field can be computed, stated over stored values (At) rather than
   * over the lookup chain: every lookup passes through mappings only, formatters
   * get None or a number, f-strings get a scalar.
   */
  predicate Defined(record: Json, source: Source) {
    match source
    case Raw(p, _) => Traversable(record, p)
    case Currency(p) => Traversable(record, p) && NoneOrNumber(ValueOr(record, p, JNull))
    case Percentage(p) => Traversable(record, p) && NoneOrNumber(ValueOr(record, p, JNull))
    case Ratio(p) => Traversable(record, p) && Renderable(ValueOr(record, p, JNull))
    case Location(c, s) =>
      && Traversable(record, c) && Renderable(ValueOr(record, c, JStr(Sentinel)))
      && Traversable(record, s) && Renderable(ValueOr(record, s, JStr(Sentinel)))
    case Website(p) =>
      Traversable(record, p) && (Truthy(ValueOr(record, p, JNull)) ==> Renderable(ValueOr(record, p, JNull)))
    case Ownership(p) => Traversable(record, p)
  }

  /** The field's value in terms of the stored value or the field's default. */
  function Expected(record: Json, source: Source): Json
    requires Defined(record, source)
  {
    match source
    case Raw(p, d) => ValueOr(record, p, d)
    case Currency(p) => JStr(FormatCurrency(AsMilli(ValueOr(record, p, JNull))))
    case Percentage(p) => JStr(FormatPercentage(AsMilli(ValueOr(record, p, JNull))))
    case Ratio(p) => JStr(PyStr(ValueOr(record, p, JNull)).value + ":1")
    case Location(c, s) =>
      JStr(PyStr(ValueOr(record, c, JStr(Sentinel))).value + ", " + PyStr(ValueOr(record, s, JStr(Sentinel))).value)
    case Website(p) =>
      var url := ValueOr(record, p, JNull);
      JStr(if Truthy(url) then "https://" + PyStr(url).value else Sentinel)
    case Ownership(p) => JStr(if EqualsOne(ValueOr(record, p, JNull)) then "Public" else "Private")
  }

  /** A lookup of the layout succeeds exactly on a traversable path and yields the stored value or the default. */
  lemma GetMeaning(record: Json, p: Path, d: Json)
    ensures Get(record, p, d).Ok? <==> Traversable(record, p)
    ensures Get(record, p, d).Ok? ==> Get(record, p, d).value == ValueOr(record, p, d)
  {
    LookupMeaning(record, p, d);
  }

  /** A field is computed exactly when it is Defined, and then it is the Expected value. */
  predicate Means(record: Json, source: Source) {
    && (EvalField(record, source).Ok? <==> Defined(record, source))
    && (EvalField(record, source).Ok? ==> EvalField(record, source).value == Expected(record, source))
  }

  lemma FieldMeaning(record: Json, source: Source)
    ensures EvalField(record, source).Ok? <==> Defined(record, source)
    ensures EvalField(record, source).Ok? ==> EvalField(record, source).value == Expected(record, source)
  {
    match source
    case Raw(p, d) => GetMeaning(record, p, d);
    case Currency(p) => CurrencyMeaning(record, p);
    case Percentage(p) => PercentageMeaning(record, p);
    case Ratio(p) => RatioMeaning(record, p);
    case Location(c, s) => LocationMeaning(record, c, s);
    case Website(p) => WebsiteMeaning(record, p);
    case Ownership(p) => GetMeaning(record, p, JNull);
  }

  lemma CurrencyMeaning(record: Json, p: Path)
    ensures Means(record, Currency(p))
  {
    GetMeaning(record, p, JNull);
  }

  lemma PercentageMeaning(record: Json, p: Path)
    ensures Means(record, Percentage(p))
  {
    GetMeaning(record, p, JNull);
  }

  lemma RatioMeaning(record: Json, p: Path)
    ensures Means(record, Ratio(p))
  {
    GetMeaning(record, p, JNull);
  }

  lemma LocationMeaning(record: Json, c: Path, s: Path)
    ensures Means(record, Location(c, s))
  {
    GetMeaning(record, c, JStr(Sentinel));
    GetMeaning(record, s, JStr(Sentinel));
  }

  lemma WebsiteMeaning(record: Json, p: Path)
    ensures Means(record, Website(p))
  {
    GetMeaning(record, p, JNull);
  }

  predicate RowsDefined(record: Json, rows: seq<Row>) {
    forall k :: 0 <= k < |rows| ==> Defined(record, rows[k].source)
  }

  predicate BodyDefined(record: Json, body: BodySpec) {
    match body
    case FlatSpec(rows) => RowsDefined(record, rows)
    case NestedSpec(groups) => forall j :: 0 <= j < |groups| ==> RowsDefined(record, groups[j].rows)
  }

  predicate SectionsDefined(record: Json, sections: seq<SectionSpec>) {
    forall i :: 0 <= i < |sections| ==> BodyDefined(record, sections[i].body)
  }

  /** Every field of the layout can be computed from this record. */
  predicate WellFormed(record: Json) {
    SectionsDefined(record, Layout)
  }

  lemma RowsMeaning(record: Json, rows: seq<Row>)
    ensures EvalRows(record, rows).Ok? <==> RowsDefined(record, rows)
  {
    forall k | 0 <= k < |rows| ensures EvalField(record, rows[k].source).Ok? <==> Defined(record, rows[k].source) {
      FieldMeaning(record, rows[k].source);
    }
  }

  lemma BodyMeaning(record: Json, body: BodySpec)
    ensures EvalBody(record, body).Ok? <==> BodyDefined(record, body)
  {
    match body
    case FlatSpec(rows) => RowsMeaning(record, rows);
    case NestedSpec(groups) =>
      forall j | 0 <= j < |groups| ensures EvalRows(record, groups[j].rows).Ok? <==> RowsDefined(record, groups[j].rows) {
        RowsMeaning(record, groups[j].rows);
      }
  }

  lemma SectionsMeaning(record: Json, sections: seq<SectionSpec>)
    ensures EvalSections(record, sections).Ok? <==> SectionsDefined(record, sections)
  {
    forall i | 0 <= i < |sections|
      ensures EvalBody(record, sections[i].body).Ok? <==> BodyDefined(record, sections[i].body)
    {
      BodyMeaning(record, sections[i].body);
    }
  }

  /**
   * `get_school_metrics` returns exactly when every lookup meets mappings only
   * and every formatter gets None or a number; missing keys at any depth never
   * make it raise.
   */
  lemma Totality(record: Json)
    ensures GetSchoolMetrics(record).Ok? <==> WellFormed(record)
  {
    SectionsMeaning(record, Layout);
  }

  /** The report always has the same six sections, in the literal's order. */
  lemma SixSections(record: Json)
    requires GetSchoolMetrics(record).Ok?
    ensures var r := GetSchoolMetrics(record).value;
            |r| == 6
            && r[0].name == "Institution Overview" && r[0].body.Flat?
            && r[1].name == "Enrollment & Faculty" && r[1].body.Nested?
            && r[2].name == "Demographics" && r[2].body.Nested?
            && r[3].name == "Cost & Financial Aid" && r[3].body.Nested?
            && r[4].name == "Student Success" && r[4].body.Nested?
            && r[5].name == "Career Outcomes" && r[5].body.Nested?
  {
    var r := GetSchoolMetrics(record).value;
    forall i | 0 <= i < 6 ensures r[i].body.Flat? == Layout[i].body.FlatSpec? {
      assert SameShape(r[i].body, Layout[i].body);
    }
  }

  /** Where a flat section's field of the layout ends up in the evaluated report, and its Expected value. */
  lemma FlatField(record: Json, sections: seq<SectionSpec>, i: nat, k: nat)
    requires EvalSections(record, sections).Ok?
    requires i < |sections| && sections[i].body.FlatSpec? && k < |sections[i].body.rows|
    ensures var r := EvalSections(record, sections).value;
            var row := sections[i].body.rows[k];
            && r[i].body.Flat? && k < |r[i].body.fields|
            && r[i].body.fields[k].name == row.name
            && Defined(record, row.source)
            && r[i].body.fields[k].value == Expected(record, row.source)
  {
    var r := EvalSections(record, sections).value;
    assert r[i].body == EvalBody(record, sections[i].body).value;
    FieldMeaning(record, sections[i].body.rows[k].source);
  }

  /** Where a grouped field of the layout ends up in the evaluated report, and its Expected value. */
  lemma NestedField(record: Json, sections: seq<SectionSpec>, i: nat, j: nat, k: nat)
    requires EvalSections(record, sections).Ok?
    requires i < |sections| && sections[i].body.NestedSpec?
    requires j < |sections[i].body.groups| && k < |sections[i].body.groups[j].rows|
    ensures var r := EvalSections(record, sections).value;
            var spec := sections[i].body.groups[j];
            && r[i].body.Nested? && j < |r[i].body.groups|
            && r[i].body.groups[j].name == spec.name
            && k < |r[i].body.groups[j].fields|
            && r[i].body.groups[j].fields[k].name == spec.rows[k].name
            && Defined(record, spec.rows[k].source)
            && r[i].body.groups[j].fields[k].value == Expected(record, spec.rows[k].source)
  {
    var r := EvalSections(record, sections).value;
    assert r[i].body == EvalBody(record, sections[i].body).value;
    FieldMeaning(record, sections[i].body.groups[j].rows[k].source);
  }

  /** Quirk kept from the source: "4-year rate" and "6-year rate" read the same path, so they always agree. */
  lemma GraduationRatesAgree(record: Json)
    requires GetSchoolMetrics(record).Ok?
    ensures var g := GetSchoolMetrics(record).value[4].body.groups[1];
            && g.name == "Graduation"
            && g.fields[0].name == "4-year rate"
            && g.fields[1].name == "6-year rate"
            && g.fields[0].value == g.fields[1].value
  {
    assert Layout[4].body.groups[1].rows[0] == Row("4-year rate", Percentage(CompletionRate));
    assert Layout[4].body.groups[1].rows[1] == Row("6-year rate", Percentage(CompletionRate));
    NestedField(record, Layout, 4, 1, 0);
    NestedField(record, Layout, 4, 1, 1);
  }

  /** The ratio text always ends in ":1"; a missing or null ratio reads "None:1". */
  lemma RatioText(record: Json, p: Path)
    requires Defined(record, Ratio(p))
    ensures var t := Expected(record, Ratio(p)).s;
            && 2 <= |t| && t[|t| - 2..] == ":1"
            && (ValueOr(record, p, JNull) == JNull ==> t == "None:1")
            && (ValueOr(record, p, JNull).JInt? ==> t == IntToString(ValueOr(record, p, JNull).i) + ":1")
  {
    var t := Expected(record, Ratio(p)).s;
    var text := PyStr(ValueOr(record, p, JNull)).value;
    assert t == text + ":1";
    assert t[|t| - 2..] == ":1";
  }

  /**
   * Quirk kept from the source: the ratio always ends in ":1" and reads
   * "None:1" when the ratio is missing or null.
   */
  lemma RatioRendering(record: Json)
    requires GetSchoolMetrics(record).Ok?
    ensures var f := GetSchoolMetrics(record).value[1].body.groups[1].fields[0];
            && f.name == "Student-Faculty Ratio"
            && f.value.JStr? && 2 <= |f.value.s| && f.value.s[|f.value.s| - 2..] == ":1"
            && (ValueOr(record, FacultyRatio, JNull) == JNull ==> f.value == JStr("None:1"))
            && (ValueOr(record, FacultyRatio, JNull).JInt? ==>
                  f.value == JStr(IntToString(ValueOr(record, FacultyRatio, JNull).i) + ":1"))
  {
    assert Layout[1].body.groups[1].rows[0] == Row("Student-Faculty Ratio", Ratio(FacultyRatio));
    NestedField(record, Layout, 1, 1, 0);
    RatioText(record, FacultyRatio);
  }

  /** Type is "Public" exactly when ownership == 1 (1, 1.0 or True), otherwise "Private". */
  lemma TypeIsPublicIff(record: Json)
    requires GetSchoolMetrics(record).Ok?
    ensures var f := GetSchoolMetrics(record).value[0].body.fields[4];
            && f.name == "Type"
            && (f.value == JStr("Public") <==> EqualsOne(ValueOr(record, OwnershipKind, JNull)))
            && (f.value != JStr("Public") ==> f.value == JStr("Private"))
  {
    assert Layout[0].body.rows[4] == Row("Type", Ownership(OwnershipKind));
    FlatField(record, Layout, 0, 4);
  }

  /** Website is "https://" + url exactly when school_url is truthy, otherwise "N/A". */
  lemma WebsiteIff(record: Json)
    requires GetSchoolMetrics(record).Ok?
    ensures var f := GetSchoolMetrics(record).value[0].body.fields[3];
            var url := ValueOr(record, Url, JNull);
            && f.name == "Website"
            && (Truthy(url) ==> PyStr(url).Some? && f.value == JStr("https://" + PyStr(url).value))
            && (!Truthy(url) ==> f.value == JStr(Sentinel))
  {
    assert Layout[0].body.rows[3] == Row("Website", Website(Url));
    FlatField(record, Layout, 0, 3);
  }

  /** The location text falls back to "N/A" for a missing city and for a missing state. */
  lemma LocationText(record: Json, c: Path, s: Path)
    requires Defined(record, Location(c, s))
    ensures var t := Expected(record, Location(c, s)).s;
            && (At(record, c).None? ==> "N/A, " <= t)
            && (At(record, s).None? ==> 5 <= |t| && t[|t| - 5..] == ", N/A")
  {
    var t := Expected(record, Location(c, s)).s;
    var cityText := PyStr(ValueOr(record, c, JStr(Sentinel))).value;
    var stateText := PyStr(ValueOr(record, s, JStr(Sentinel))).value;
    assert t == cityText + ", " + stateText;
    if At(record, c).None? {
      assert t == "N/A, " + stateText;
    }
    if At(record, s).None? {
      assert t == cityText + ", N/A";
      assert t[|t| - 5..] == ", N/A";
    }
  }

  /** Location falls back to "N/A" for a missing city and for a missing state. */
  lemma LocationDefaults(record: Json)
    requires GetSchoolMetrics(record).Ok?
    ensures var f := GetSchoolMetrics(record).value[0].body.fields[1];
            && f.name == "Location" && f.value.JStr?
            && (At(record, City).None? ==> "N/A, " <= f.value.s)
            && (At(record, State).None? ==> 5 <= |f.value.s| && f.value.s[|f.value.s| - 5..] == ", N/A")
  {
    assert Layout[0].body.rows[1] == Row("Location", Location(City, State));
    FlatField(record, Layout, 0, 1);
    LocationText(record, City, State);
  }

  /** Every path of the layout starts at `latest` or `school` and goes one key further. */
  predicate Rooted(p: Path) {
    2 <= |p| && (p[0] == "latest" || p[0] == "school")
  }

  predicate SourceRooted(source: Source) {
    match source
    case Raw(p, _) => Rooted(p)
    case Currency(p) => Rooted(p)
    case Percentage(p) => Rooted(p)
    case Ratio(p) => Rooted(p)
    case Location(c, s) => Rooted(c) && Rooted(s)
    case Website(p) => Rooted(p)
    case Ownership(p) => Rooted(p)
  }

  predicate RowsRooted(rows: seq<Row>) {
    forall k :: 0 <= k < |rows| ==> SourceRooted(rows[k].source)
  }

  predicate BodyRooted(body: BodySpec) {
    match body
    case FlatSpec(rows) => RowsRooted(rows)
    case NestedSpec(groups) => forall j :: 0 <= j < |groups| ==> RowsRooted(groups[j].rows)
  }

  predicate SectionsRooted(sections: seq<SectionSpec>) {
    forall i :: 0 <= i < |sections| ==> BodyRooted(sections[i].body)
  }

  lemma LayoutRooted()
    ensures SectionsRooted(Layout)
  {
    OverviewRooted();
    EnrollmentFacultyRooted();
    DemographicsRooted();
    CostAidRooted();
    StudentSuccessRooted();
    CareerOutcomesRooted();
  }

  lemma OverviewRooted() ensures BodyRooted(Overview.body) {}
  lemma EnrollmentFacultyRooted() ensures BodyRooted(EnrollmentFaculty.body) {}
  lemma DemographicsRooted() ensures BodyRooted(DemographicsSection.body) {}
  lemma CostAidRooted() ensures BodyRooted(CostAid.body) {}
  lemma StudentSuccessRooted() ensures BodyRooted(StudentSuccess.body) {}
  lemma CareerOutcomesRooted() ensures BodyRooted(CareerOutcomes.body) {}

  /** The record of a school the API knows nothing about: a mapping without `latest` and `school`. */
  predicate NoData(record: Json) {
    record.JObj? && "latest" !in record.fields && "school" !in record.fields
  }

  /** What each field shows when its data is missing. */
  function Blank(source: Source): Json {
    match source
    case Raw(_, d) => d
    case Currency(_) => JStr(Sentinel)
    case Percentage(_) => JStr(Sentinel)
    case Ratio(_) => JStr("None:1")
    case Location(_, _) => JStr("N/A, N/A")
    case Website(_) => JStr(Sentinel)
    case Ownership(_) => JStr("Private")
  }

  lemma NoDataLookup(record: Json, p: Path, d: Json)
    requires NoData(record) && Rooted(p)
    ensures Lookup(record, p, d) == Ok(d)
  {
    assert Lookup(record, p, d) == Lookup(JObj(map[]), p[1..], d);
    EmptyLookup(p[1..], d);
  }

  lemma NoDataField(record: Json, source: Source)
    requires NoData(record) && SourceRooted(source)
    ensures EvalField(record, source) == Ok(Blank(source))
  {
    match source
    case Raw(p, d) => NoDataLookup(record, p, d);
    case Currency(p) => NoDataLookup(record, p, JNull);
    case Percentage(p) => NoDataLookup(record, p, JNull);
    case Ratio(p) =>
      NoDataLookup(record, p, JNull);
      assert "None" + ":1" == "None:1";
    case Location(c, s) =>
      NoDataLookup(record, c, JStr(Sentinel));
      NoDataLookup(record, s, JStr(Sentinel));
      assert Sentinel + ", " + Sentinel == "N/A, N/A";
    case Website(p) => NoDataLookup(record, p, JNull);
    case Ownership(p) => NoDataLookup(record, p, JNull);
  }

  predicate BlankBody(body: Body, spec: BodySpec) {
    match (body, spec)
    case (Flat(fields), FlatSpec(rows)) =>
      |fields| == |rows| && forall k :: 0 <= k < |rows| ==> fields[k].value == Blank(rows[k].source)
    case (Nested(groups), NestedSpec(specs)) =>
      && |groups| == |specs|
      && forall j :: 0 <= j < |specs| ==>
           && |groups[j].fields| == |specs[j].rows|
           && forall k :: 0 <= k < |specs[j].rows| ==> groups[j].fields[k].value == Blank(specs[j].rows[k].source)
    case _ => false
  }

  /** Every field of the report shows its layout row's Blank value. */
  predicate AllBlank(report: Report, sections: seq<SectionSpec>) {
    |report| == |sections| && forall i :: 0 <= i < |sections| ==> BlankBody(report[i].body, sections[i].body)
  }

  lemma NoDataRows(record: Json, rows: seq<Row>)
    requires NoData(record) && RowsRooted(rows)
    ensures EvalRows(record, rows).Ok?
    ensures forall k :: 0 <= k < |rows| ==> EvalRows(record, rows).value[k].value == Blank(rows[k].source)
  {
    forall k | 0 <= k < |rows| ensures EvalField(record, rows[k].source) == Ok(Blank(rows[k].source)) {
      NoDataField(record, rows[k].source);
    }
  }

  lemma NoDataBody(record: Json, body: BodySpec)
    requires NoData(record) && BodyRooted(body)
    ensures EvalBody(record, body).Ok?
    ensures BlankBody(EvalBody(record, body).value, body)
  {
    match body
    case FlatSpec(rows) => NoDataRows(record, rows);
    case NestedSpec(groups) =>
      forall j | 0 <= j < |groups|
        ensures EvalRows(record, groups[j].rows).Ok?
        ensures forall k :: 0 <= k < |groups[j].rows| ==>
                  EvalRows(record, groups[j].rows).value[k].value == Blank(groups[j].rows[k].source)
      {
        NoDataRows(record, groups[j].rows);
      }
  }

  lemma NoDataSections(record: Json, sections: seq<SectionSpec>)
    requires NoData(record) && SectionsRooted(sections)
    ensures EvalSections(record, sections).Ok?
    ensures AllBlank(EvalSections(record, sections).value, sections)
  {
    forall i | 0 <= i < |sections|
      ensures EvalBody(record, sections[i].body).Ok?
      ensures BlankBody(EvalBody(record, sections[i].body).value, sections[i].body)
    {
      NoDataBody(record, sections[i].body);
    }
  }

  /**
   * A record without `latest` and `school` (the empty record `{}` among them)
   * gives a full report without error, every field at its fallback: "N/A" for
   * formatted values, the `.get` default for raw ones, "None:1", "N/A, N/A" and
   * "Private" for the derived ones.
   */
  lemma NoDataReport(record: Json)
    requires NoData(record)
    ensures GetSchoolMetrics(record).Ok?
    ensures AllBlank(GetSchoolMetrics(record).value, Layout)
  {
    LayoutRooted();
    NoDataSections(record, Layout);
  }
}

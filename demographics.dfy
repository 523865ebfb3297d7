/**
 * `create_demographic_chart` (app.py:17-34): walk a category -> share mapping in
 * its insertion order, keep the categories whose share is present and
 * positive, scale their shares by 100 and draw a pie of them, or give None
 * when nothing is kept.
 */
module Demographics {
  import opened Wrappers
  import opened Records
  import opened PyValues

  /** The mapping's items in insertion order: (category, share). */
  type Entry = (string, Json)

  /** The pie figure: one slice per kept category, value * 100 in thousandths. */
  datatype Pie = Pie(values: seq<int>, names: seq<string>, title: string)

  /** `value > 0` raised TypeError on a share that is neither None nor a number. */
  datatype ChartError = Incomparable(category: string)

  /** `value is not None and value > 0`. */
  predicate Qualifies(v: Json)
    ensures Qualifies(v) ==> NoneOrNumber(v) && Truthy(v)
  {
    AsMilli(v).Some? && AsMilli(v).value > 0
  }

  /** The slices the chart keeps, in order: (category, 100 * share in thousandths). */
  function Kept(entries: seq<Entry>): (r: seq<(string, int)>)
    ensures |r| <= |entries|
    ensures forall k :: 0 <= k < |r| ==> r[k].1 > 0
  {
    if entries == [] then []
    else
      var last := entries[|entries| - 1];
      Kept(entries[..|entries| - 1])
        + (if Qualifies(last.1) then [(last.0, 100 * AsMilli(last.1).value)] else [])
  }

  /** Filtering keeps the order: the slices of a concatenation are the slices of each part. */
  lemma {:induction false} KeptAppend(a: seq<Entry>, b: seq<Entry>)
    ensures Kept(a + b) == Kept(a) + Kept(b)
    decreases |b|
  {
    if b == [] {
      assert a + b == a;
    } else {
      var init := b[..|b| - 1];
      assert (a + b)[..|a + b| - 1] == a + init;
      assert (a + b)[|a + b| - 1] == b[|b| - 1];
      KeptAppend(a, init);
    }
  }

  /** A slice (c, v) is kept exactly when some entry has category c and a present, positive share giving v. */
  lemma {:induction false} KeptMembership(entries: seq<Entry>, c: string, v: int)
    ensures (c, v) in Kept(entries) <==>
            exists k :: 0 <= k < |entries| && entries[k].0 == c && Qualifies(entries[k].1)
                        && v == 100 * AsMilli(entries[k].1).value
    decreases |entries|
  {
    if entries != [] {
      var init := entries[..|entries| - 1];
      var last := entries[|entries| - 1];
      KeptMembership(init, c, v);
      if exists k :: 0 <= k < |init| && init[k].0 == c && Qualifies(init[k].1)
                     && v == 100 * AsMilli(init[k].1).value {
        var k :| 0 <= k < |init| && init[k].0 == c && Qualifies(init[k].1)
                 && v == 100 * AsMilli(init[k].1).value;
        assert entries[k] == init[k];
      }
      if exists k :: 0 <= k < |entries| && entries[k].0 == c && Qualifies(entries[k].1)
                     && v == 100 * AsMilli(entries[k].1).value {
        var k :| 0 <= k < |entries| && entries[k].0 == c && Qualifies(entries[k].1)
                 && v == 100 * AsMilli(entries[k].1).value;
        if k < |init| {
          assert init[k] == entries[k];
        }
      }
    }
  }

  /** Nothing is kept exactly when no share is present and positive. */
  lemma {:induction false} KeptEmpty(entries: seq<Entry>)
    ensures Kept(entries) == [] <==> forall k :: 0 <= k < |entries| ==> !Qualifies(entries[k].1)
    decreases |entries|
  {
    if entries != [] {
      var init := entries[..|entries| - 1];
      KeptEmpty(init);
      forall k | 0 <= k < |init| ensures init[k] == entries[k] {}
    }
  }

  /** `create_demographic_chart(demographics)`. */
  method CreateDemographicChart(demographics: seq<Entry>) returns (r: Result<Option<Pie>, ChartError>)
    ensures r.Err? <==> exists k :: 0 <= k < |demographics| && !NoneOrNumber(demographics[k].1)
    ensures r.Err? ==> exists k :: 0 <= k < |demographics|
                        && demographics[k].0 == r.error.category && !NoneOrNumber(demographics[k].1)
                        && forall i :: 0 <= i < k ==> NoneOrNumber(demographics[i].1)
    ensures r.Ok? ==> (r.value.None? <==> Kept(demographics) == [])
    ensures r.Ok? && r.value.Some? ==>
              var pie, kept := r.value.value, Kept(demographics);
              && pie.title == "Student Demographics"
              && |pie.names| == |pie.values| == |kept|
              && forall k :: 0 <= k < |kept| ==> (pie.names[k], pie.values[k]) == kept[k]
  {
    var labels: seq<string> := [];
    var values: seq<int> := [];
    for i := 0 to |demographics|
      invariant forall k :: 0 <= k < i ==> NoneOrNumber(demographics[k].1)
      invariant |labels| == |values| == |Kept(demographics[..i])|
      invariant forall k :: 0 <= k < |labels| ==> (labels[k], values[k]) == Kept(demographics[..i])[k]
    {
      var (category, value) := demographics[i];
      if !NoneOrNumber(value) {
        return Err(Incomparable(category));
      }
      assert demographics[..i + 1][..i] == demographics[..i];
      if Qualifies(value) {
        labels := labels + [category];
        values := values + [100 * AsMilli(value).value];
      }
    }
    assert demographics[..|demographics|] == demographics;
    if values != [] {
      return Ok(Some(Pie(values, labels, "Student Demographics")));
    }
    return Ok(None);
  }
}

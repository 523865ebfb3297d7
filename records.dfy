/**
 * The raw school record: the JSON value the College Scorecard API returns for
 * one school, and the defensive chained lookup `d.get(k1, {}).get(k2, {})…get(kn, default)`
 * that app.py applies to it.
 */
module Records {
  import opened Wrappers

  /**
   * A JSON value as Python's json module decodes it. Integers and floats stay
   * apart, as Python keeps them; a float is modelled exactly as `milli / 1000`
   * (a value with at most three decimals).
   */
  datatype Json =
    | JNull
    | JBool(b: bool)
    | JInt(i: int)
    | JFloat(milli: int)
    | JStr(s: string)
    | JArr(items: seq<Json>)
    | JObj(fields: map<string, Json>)

  type Path = seq<string>

  /**
   * The chain `j.get(path[0], {}).get(path[1], {})…get(path[n-1], default)`.
   * A missing key yields `{}` in the middle of the chain and `default` at its
   * end; a present key yields its value, None included. Calling `.get` on a
   * value that is not a mapping raises AttributeError in Python: here `Err`,
   * naming the key that was being fetched.
   */
  function Lookup(j: Json, path: Path, default: Json): (r: Result<Json, string>)
    ensures r.Err? ==> r.error in path
    ensures j.JObj? && |path| == 1 ==> r.Ok?
    decreases |path|
  {
    if path == [] then Ok(j)
    else if !j.JObj? then Err(path[0])
    else
      var next :=
        if path[0] in j.fields then j.fields[path[0]]
        else if |path| == 1 then default
        else JObj(map[]);
      Lookup(next, path[1..], default)
  }

  /** The value stored at `path`, when every key along it is present in a mapping. */
  function At(j: Json, path: Path): Option<Json>
    decreases |path|
  {
    if path == [] then Some(j)
    else if j.JObj? && path[0] in j.fields then At(j.fields[path[0]], path[1..])
    else None
  }

  /** Every value that is present strictly before the end of `path` is a mapping. */
  predicate Traversable(j: Json, path: Path) {
    forall k :: 0 <= k < |path| ==> At(j, path[..k]).Some? ==> At(j, path[..k]).value.JObj?
  }

  /** The value at `path` if it is there, otherwise `default`. */
  function ValueOr(j: Json, path: Path, default: Json): Json {
    if At(j, path).Some? then At(j, path).value else default
  }

  /** Descending one present key in a mapping: prefixes of the rest line up with prefixes of the path. */
  lemma AtStep(j: Json, path: Path, k: nat)
    requires 0 < k <= |path| && j.JObj? && path[0] in j.fields
    ensures At(j, path[..k]) == At(j.fields[path[0]], path[1..][..k - 1])
  {
    assert path[..k][0] == path[0];
    assert path[..k][1..] == path[1..][..k - 1];
  }

  /**
   * The lookup chain never fails except on a present non-mapping before the last
   * key, and when it succeeds it yields the stored value or, if any key is missing,
   * the default.
   */
  lemma {:induction false} LookupMeaning(j: Json, path: Path, default: Json)
    ensures Lookup(j, path, default).Ok? <==> Traversable(j, path)
    ensures Lookup(j, path, default).Ok? ==> Lookup(j, path, default).value == ValueOr(j, path, default)
    decreases |path|
  {
    if path == [] {
    } else if !j.JObj? {
      assert path[..0] == [];
      assert At(j, path[..0]) == Some(j);
    } else if path[0] in j.fields {
      var child := j.fields[path[0]];
      LookupMeaning(child, path[1..], default);
      assert path[..0] == [];
      forall k | 0 < k <= |path| ensures At(j, path[..k]) == At(child, path[1..][..k - 1]) {
        AtStep(j, path, k);
      }
      assert Traversable(j, path) <==> Traversable(child, path[1..]) by {
        if Traversable(child, path[1..]) {
          forall k | 0 <= k < |path| && At(j, path[..k]).Some? ensures At(j, path[..k]).value.JObj? {
            if k > 0 {
              assert At(child, path[1..][..k - 1]).Some?;
            }
          }
        }
        if Traversable(j, path) {
          forall k | 0 <= k < |path[1..]| && At(child, path[1..][..k]).Some?
            ensures At(child, path[1..][..k]).value.JObj?
          {
            assert At(j, path[..k + 1]) == At(child, path[1..][..k]);
          }
        }
      }
      assert At(j, path[..|path|]) == At(child, path[1..][..|path| - 1]);
      assert path[..|path|] == path && path[1..][..|path| - 1] == path[1..];
    } else {
      assert path[..0] == [];
      forall k | 0 < k <= |path| ensures At(j, path[..k]) == None {
        assert path[..k][0] == path[0];
      }
      assert path[..|path|] == path;
      if |path| > 1 {
        EmptyLookup(path[1..], default);
      }
    }
  }

  /** Every chain on the empty mapping `{}` ends at the default. */
  lemma {:induction false} EmptyLookup(path: Path, default: Json)
    requires path != []
    ensures Lookup(JObj(map[]), path, default) == Ok(default)
    decreases |path|
  {
    if |path| > 1 {
      EmptyLookup(path[1..], default);
    }
  }

  /** A present value at a prefix of `path` is reached through mappings only. */
  lemma {:induction false} AtPrefix(j: Json, path: Path, i: nat, k: nat)
    requires i < k <= |path| && At(j, path[..k]).Some?
    ensures At(j, path[..i]).Some? && At(j, path[..i]).value.JObj?
    decreases k
  {
    assert path[..k][0] == path[0];
    assert j.JObj? && path[0] in j.fields;
    if i > 0 {
      AtStep(j, path, k);
      AtStep(j, path, i);
      AtPrefix(j.fields[path[0]], path[1..], i - 1, k - 1);
    } else {
      assert path[..0] == [];
    }
  }

  /** Past a missing key nothing is stored. */
  lemma {:induction false} AtBeyondMissing(j: Json, path: Path, k: nat, n: nat)
    requires k < n <= |path|
    requires At(j, path[..k]).Some? && At(j, path[..k]).value.JObj?
    requires path[k] !in At(j, path[..k]).value.fields
    ensures At(j, path[..n]) == None
    decreases k
  {
    assert path[..n][0] == path[0];
    if k == 0 {
      assert path[..0] == [];
    } else {
      assert path[..k][0] == path[0];
      AtStep(j, path, k);
      AtStep(j, path, n);
      AtBeyondMissing(j.fields[path[0]], path[1..], k - 1, n - 1);
    }
  }

  /**
   * A key missing at any depth, below mappings only, makes the whole chain
   * resolve to its default, without error.
   */
  lemma MissingKeyGivesDefault(j: Json, path: Path, k: nat, default: Json)
    requires k < |path|
    requires At(j, path[..k]).Some? && At(j, path[..k]).value.JObj?
    requires path[k] !in At(j, path[..k]).value.fields
    ensures Lookup(j, path, default) == Ok(default)
  {
    forall i | 0 <= i < |path| && At(j, path[..i]).Some? ensures At(j, path[..i]).value.JObj? {
      if i < k {
        AtPrefix(j, path, i, k);
      } else if i > k {
        AtBeyondMissing(j, path, k, i);
      }
    }
    AtBeyondMissing(j, path, k, |path|);
    assert path[..|path|] == path;
    LookupMeaning(j, path, default);
  }
}

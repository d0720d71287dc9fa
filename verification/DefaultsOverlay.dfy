/** Defaults overlay (resource/defaults_overlay.go): payloads are stored compacted
    against their defaults and rebuilt by merging the defaults back underneath. */
module DefaultsOverlay {
  import opened Payload

  /** Overrides laid over defaults: objects merge key by key, anything else replaces. */
  function Merge(d: Fields, o: Fields): Fields
    decreases Obj(o)
  {
    map k | k in d.Keys + o.Keys ::
      if k !in o then d[k]
      else if k in d && d[k].Obj? && o[k].Obj? then Obj(Merge(d[k].fields, o[k].fields))
      else o[k]
  }

  /** What is left of v once everything that d already says is dropped. */
  function Compact(v: Fields, d: Fields): Fields
    decreases Obj(v)
  {
    map k | k in v.Keys &&
            (k in d ==> if d[k].Obj? && v[k].Obj? then Compact(v[k].fields, d[k].fields) != map[]
                        else v[k] != d[k]) ::
      if k in d && d[k].Obj? && v[k].Obj? then Obj(Compact(v[k].fields, d[k].fields)) else v[k]
  }

  /** What two objects agree on. */
  function Intersect(l: Fields, r: Fields): Fields
    decreases Obj(l)
  {
    map k | k in l.Keys && k in r.Keys &&
            (if l[k].Obj? && r[k].Obj? then
               Intersect(l[k].fields, r[k].fields) != map[] || (l[k].fields == map[] && r[k].fields == map[])
             else l[k] == r[k]) ::
      if l[k].Obj? && r[k].Obj? then Obj(Intersect(l[k].fields, r[k].fields)) else l[k]
  }

  method MergeObjectWithDefaults(d: Fields, o: Fields) returns (merged: Fields)
    ensures merged == Merge(d, o)
    decreases Obj(o)
  {
    merged := d;
    var todo := o.Keys;
    while todo != {}
      invariant todo <= o.Keys
      invariant merged.Keys == d.Keys + (o.Keys - todo)
      invariant forall k :: k in merged ==> merged[k] == if k in todo then d[k] else Merge(d, o)[k]
      decreases todo
    {
      var key :| key in todo;
      if key in d && d[key].Obj? && o[key].Obj? {
        var nested := MergeObjectWithDefaults(d[key].fields, o[key].fields);
        merged := merged[key := Obj(nested)];
      } else {
        merged := merged[key := o[key]];
      }
      todo := todo - {key};
    }
  }

  method CompactObjectAgainstDefaults(v: Fields, d: Fields) returns (compacted: Fields)
    ensures compacted == Compact(v, d)
    decreases Obj(v)
  {
    compacted := map[];
    var todo := v.Keys;
    while todo != {}
      invariant todo <= v.Keys
      invariant compacted.Keys == Compact(v, d).Keys - todo
      invariant forall k :: k in compacted ==> compacted[k] == Compact(v, d)[k]
      decreases todo
    {
      var key :| key in todo;
      if key !in d {
        compacted := compacted[key := v[key]];
      } else if d[key].Obj? && v[key].Obj? {
        var nested := CompactObjectAgainstDefaults(v[key].fields, d[key].fields);
        if nested != map[] {
          compacted := compacted[key := Obj(nested)];
        }
      } else if v[key] != d[key] {
        compacted := compacted[key := v[key]];
      }
      todo := todo - {key};
    }
  }

  method IntersectObjectDefaults(l: Fields, r: Fields) returns (result: Fields)
    ensures result == Intersect(l, r)
    decreases Obj(l)
  {
    result := map[];
    var todo := l.Keys;
    while todo != {}
      invariant todo <= l.Keys
      invariant result.Keys == Intersect(l, r).Keys - todo
      invariant forall k :: k in result ==> result[k] == Intersect(l, r)[k]
      decreases todo
    {
      var key :| key in todo;
      if key in r {
        if l[key].Obj? && r[key].Obj? {
          var nested := IntersectObjectDefaults(l[key].fields, r[key].fields);
          if nested != map[] || (l[key].fields == map[] && r[key].fields == map[]) {
            result := result[key := Obj(nested)];
          }
        } else if l[key] == r[key] {
          result := result[key := l[key]];
        }
      }
      todo := todo - {key};
    }
  }

  function MergeWithDefaults(defaults: Value, overrides: Value): Result<Value> {
    if defaults.Null? then Ok(overrides)
    else if !defaults.Obj? then Err(Validation)
    else if overrides.Null? then Ok(defaults)
    else if !overrides.Obj? then Err(Validation)
    else Ok(Obj(Merge(defaults.fields, overrides.fields)))
  }

  function CompactAgainstDefaults(value: Value, defaults: Value): Result<Value> {
    if defaults.Null? then Ok(value)
    else if !defaults.Obj? then Err(Validation)
    else if value.Null? then Ok(Null)
    else if !value.Obj? then Err(Validation)
    else
      var compacted := Compact(value.fields, defaults.fields);
      if compacted == map[] then Ok(Null) else Ok(Obj(compacted))
  }

  // ----- merge and compact undo each other -----

  lemma {:induction false} CompactSelf(d: Fields)
    ensures Compact(d, d) == map[]
    decreases Obj(d)
  {
    forall k | k in d && d[k].Obj?
      ensures Compact(d[k].fields, d[k].fields) == map[]
    {
      CompactSelf(d[k].fields);
    }
  }

  lemma {:induction false} MergeOfCompact(d: Fields, v: Fields)
    ensures Merge(d, Compact(v, d)) == Merge(d, v)
    decreases Obj(v)
  {
    var c := Compact(v, d);
    forall k | k in d && k in v && d[k].Obj? && v[k].Obj?
      ensures Merge(d[k].fields, Compact(v[k].fields, d[k].fields)) == Merge(d[k].fields, v[k].fields)
      ensures Merge(d[k].fields, map[]) == d[k].fields
    {
      MergeOfCompact(d[k].fields, v[k].fields);
    }
    assert Merge(d, c).Keys == Merge(d, v).Keys;
    assert forall k :: k in Merge(d, v) ==> Merge(d, c)[k] == Merge(d, v)[k];
  }

  lemma {:induction false} CompactOfMerge(d: Fields, v: Fields)
    ensures Compact(Merge(d, v), d) == Compact(v, d)
    decreases Obj(v)
  {
    var m := Merge(d, v);
    forall k | k in d && k in v && d[k].Obj? && v[k].Obj?
      ensures Compact(Merge(d[k].fields, v[k].fields), d[k].fields) == Compact(v[k].fields, d[k].fields)
    {
      CompactOfMerge(d[k].fields, v[k].fields);
    }
    forall k | k in d && d[k].Obj?
      ensures Compact(d[k].fields, d[k].fields) == map[]
    {
      CompactSelf(d[k].fields);
    }
    forall k | k in m
      ensures k in Compact(m, d) <==> k in Compact(v, d)
      ensures k in Compact(m, d) ==> Compact(m, d)[k] == Compact(v, d)[k]
    {
    }
  }

  /** Compaction is a canonical form of the effective value. */
  lemma CompactIsCanonical(d: Fields, v: Fields, w: Fields)
    ensures Compact(v, d) == Compact(w, d) <==> Merge(d, v) == Merge(d, w)
  {
    MergeOfCompact(d, v);
    MergeOfCompact(d, w);
    CompactOfMerge(d, v);
    CompactOfMerge(d, w);
  }

  /** a says nothing that b does not say: same value, or objects contained key by key. */
  ghost predicate Contained(a: Fields, b: Fields)
    decreases Obj(a)
  {
    forall k :: k in a ==>
      k in b && (a[k] == b[k] || (a[k].Obj? && b[k].Obj? && Contained(a[k].fields, b[k].fields)))
  }

  lemma {:induction false} CompactContained(w: Fields, d: Fields)
    ensures Contained(Compact(w, d), w)
    decreases Obj(w)
  {
    forall k | k in Compact(w, d) && k in d && d[k].Obj? && w[k].Obj?
      ensures Contained(Compact(w[k].fields, d[k].fields), w[k].fields)
    {
      CompactContained(w[k].fields, d[k].fields);
    }
  }

  /** Among all overrides with the same effect, the compacted one says least. */
  lemma CompactIsLeast(d: Fields, v: Fields, w: Fields)
    requires Merge(d, w) == Merge(d, v)
    ensures Contained(Compact(v, d), w)
  {
    CompactIsCanonical(d, v, w);
    CompactContained(w, d);
  }

  /** Nothing is left to store exactly when the payload adds nothing to its defaults; without defaults
      everything is, and anything but null or an object is refused. */
  lemma NothingStoredIff(value: Value, defaults: Value)
    ensures defaults.Null? ==> CompactAgainstDefaults(value, defaults) == Ok(value)
    ensures !defaults.Null? ==>
              (CompactAgainstDefaults(value, defaults) == Ok(Null) <==>
               defaults.Obj? && (value.Null? || (value.Obj? && MergeWithDefaults(defaults, value) == Ok(defaults)))) &&
              (CompactAgainstDefaults(value, defaults).Err? <==> !defaults.Obj? || (!value.Null? && !value.Obj?))
  {
    hide Merge, Compact;
    if defaults.Obj? && value.Obj? {
      CompactIsCanonical(defaults.fields, value.fields, map[]);
      NothingAdded(defaults.fields);
    }
  }

  lemma NothingAdded(d: Fields)
    ensures Merge(d, map[]) == d && Compact(map[], d) == map[]
  {
  }

  /** The stored form of any object payload reads back to the same effective payload,
      also when nothing is left to store. */
  lemma MergeOfStoredForm(defaults: Value, value: Value)
    requires value.Obj?
    ensures CompactAgainstDefaults(value, defaults).Ok? <==> MergeWithDefaults(defaults, value).Ok?
    ensures CompactAgainstDefaults(value, defaults).Ok? ==>
              MergeWithDefaults(defaults, CompactAgainstDefaults(value, defaults).value)
              == MergeWithDefaults(defaults, value)
  {
    if defaults.Obj? {
      MergeOfCompact(defaults.fields, value.fields);
      assert Merge(defaults.fields, map[]) == defaults.fields;
    }
  }

  // ----- inference of common defaults -----

  /** A leaf is anything that is not an object with fields. */
  predicate IsLeaf(v: Value) {
    !v.Obj? || v.fields == map[]
  }

  /** v assigns the leaf l at the key path p. */
  ghost predicate HasLeaf(v: Value, p: seq<string>, l: Value)
    decreases p
  {
    if p == [] then v == l && IsLeaf(v)
    else v.Obj? && p[0] in v.fields && HasLeaf(v.fields[p[0]], p[1..], l)
  }

  ghost predicate SameLeaves(a: Fields, b: Fields) {
    forall p, l :: p != [] ==> (HasLeaf(Obj(a), p, l) <==> HasLeaf(Obj(b), p, l))
  }

  lemma {:induction false} SomeLeaf(v: Value) returns (p: seq<string>, l: Value)
    ensures HasLeaf(v, p, l)
    ensures !IsLeaf(v) ==> p != []
  {
    if IsLeaf(v) {
      p, l := [], v;
    } else {
      var k :| k in v.fields;
      var q;
      q, l := SomeLeaf(v.fields[k]);
      p := [k] + q;
      assert p[1..] == q;
    }
  }

  lemma LeafUnder(a: Fields, k: string, q: seq<string>, l: Value)
    ensures HasLeaf(Obj(a), [k] + q, l) <==> k in a && HasLeaf(a[k], q, l)
  {
    assert ([k] + q)[1..] == q;
  }

  lemma SameLeavesKeys(a: Fields, b: Fields, k: string)
    requires SameLeaves(a, b) && k in a
    ensures k in b
    ensures IsLeaf(a[k]) ==> b[k] == a[k]
  {
    var q, l := SomeLeaf(a[k]);
    LeafUnder(a, k, q, l);
    LeafUnder(b, k, q, l);
    if IsLeaf(a[k]) {
      LeafUnder(a, k, [], a[k]);
      LeafUnder(b, k, [], a[k]);
    }
  }

  /** An object is determined by its leaf assignments. */
  lemma {:induction false} LeavesDetermine(a: Fields, b: Fields)
    requires SameLeaves(a, b)
    ensures a == b
    decreases Obj(a)
  {
    forall k | k in a
      ensures k in b && a[k] == b[k]
    {
      SameLeavesKeys(a, b, k);
      if IsLeaf(b[k]) {
        SameLeavesKeys(b, a, k);
      } else if !IsLeaf(a[k]) {
        forall p, l | p != []
          ensures HasLeaf(a[k], p, l) <==> HasLeaf(b[k], p, l)
        {
          LeafUnder(a, k, p, l);
          LeafUnder(b, k, p, l);
        }
        LeavesDetermine(a[k].fields, b[k].fields);
      }
    }
    forall k | k in b
      ensures k in a
    {
      SameLeavesKeys(b, a, k);
    }
  }

  /** Intersection keeps exactly the leaf assignments that both sides make. */
  lemma {:induction false} IntersectLeaves(l: Fields, r: Fields, p: seq<string>, leaf: Value)
    requires p != []
    ensures HasLeaf(Obj(Intersect(l, r)), p, leaf) <==> HasLeaf(Obj(l), p, leaf) && HasLeaf(Obj(r), p, leaf)
    decreases p
  {
    var k := p[0];
    if k in l && k in r && l[k].Obj? && r[k].Obj? && p[1..] != [] {
      IntersectLeaves(l[k].fields, r[k].fields, p[1..], leaf);
    }
  }

  function Samples(values: seq<Value>): (s: seq<Value>)
    ensures forall v :: v in s <==> v in values && !v.Null?
  {
    if values == [] then []
    else if values[|values| - 1].Null? then Samples(values[..|values| - 1])
    else Samples(values[..|values| - 1]) + [values[|values| - 1]]
  }

  function Common(samples: seq<Value>): Fields
    requires forall v :: v in samples ==> v.Obj?
  {
    if samples == [] then map[]
    else if |samples| == 1 then samples[0].fields
    else Intersect(Common(samples[..|samples| - 1]), samples[|samples| - 1].fields)
  }

  function InferDefaults(values: seq<Value>): Result<Value> {
    var s := Samples(values);
    if |values| < 2 then Ok(Obj(map[]))
    else if exists v :: v in s && !v.Obj? then Err(Validation)
    else if |s| < 2 then Ok(Obj(map[]))
    else Ok(Obj(Common(s)))
  }

  lemma SamplesNext(values: seq<Value>, i: nat)
    requires i < |values|
    ensures Samples(values[..i + 1]) ==
            if values[i].Null? then Samples(values[..i]) else Samples(values[..i]) + [values[i]]
  {
    assert values[..i + 1][..i] == values[..i];
  }

  lemma CommonNext(samples: seq<Value>, v: Value)
    requires v.Obj? && forall s :: s in samples ==> s.Obj?
    ensures Common(samples + [v]) ==
            if samples == [] then v.fields else Intersect(Common(samples), v.fields)
  {
    assert (samples + [v])[..|samples|] == samples;
  }

  lemma NoSamples()
    ensures Samples([]) == [] && Common([]) == map[]
  {
  }

  lemma NonObjectRefused(values: seq<Value>, i: nat)
    requires i < |values| && |values| >= 2 && !values[i].Null? && !values[i].Obj?
    ensures InferDefaults(values) == Err(Validation)
  {
    hide Samples, Common;
    assert values[i] in Samples(values);
  }

  method InferDefaultsFromValues(values: seq<Value>) returns (r: Result<Value>)
    ensures r == InferDefaults(values)
  {
    hide Samples, Common, Intersect, Merge, Compact;
    assert values[..0] == [] && values[..|values|] == values;
    NoSamples();
    if |values| < 2 {
      return Ok(Obj(map[]));
    }
    var common: Fields := map[];
    var samples := 0;
    for i := 0 to |values|
      invariant forall v :: v in Samples(values[..i]) ==> v.Obj?
      invariant samples == |Samples(values[..i])|
      invariant common == Common(Samples(values[..i]))
    {
      SamplesNext(values, i);
      if values[i].Null? {
        continue;
      }
      if !values[i].Obj? {
        NonObjectRefused(values, i);
        return Err(Validation);
      }
      CommonNext(Samples(values[..i]), values[i]);
      if samples == 0 {
        common := values[i].fields;
      } else {
        common := IntersectObjectDefaults(common, values[i].fields);
      }
      samples := samples + 1;
    }
    if samples < 2 || common == map[] {
      return Ok(Obj(map[]));
    }
    return Ok(Obj(common));
  }

  lemma {:induction false} CommonLeaves(samples: seq<Value>, p: seq<string>, leaf: Value)
    requires samples != [] && forall v :: v in samples ==> v.Obj?
    requires p != []
    ensures HasLeaf(Obj(Common(samples)), p, leaf) <==> forall v :: v in samples ==> HasLeaf(v, p, leaf)
  {
    var n := |samples| - 1;
    if n > 0 {
      hide HasLeaf, Intersect;
      CommonLeaves(samples[..n], p, leaf);
      IntersectLeaves(Common(samples[..n]), samples[n].fields, p, leaf);
      assert samples == samples[..n] + [samples[n]];
    } else {
      assert samples[0] in samples;
      assert Obj(Common(samples)) == samples[0];
    }
  }

  /** Inferred defaults are exactly the leaf assignments that every sample makes. */
  lemma InferredDefaultsAreSharedLeaves(values: seq<Value>, p: seq<string>, leaf: Value)
    requires |Samples(values)| >= 2 && InferDefaults(values).Ok? && p != []
    ensures HasLeaf(InferDefaults(values).value, p, leaf)
            <==> forall v :: v in values && !v.Null? ==> HasLeaf(v, p, leaf)
  {
    SamplesNoLonger(values);
    CommonLeaves(Samples(values), p, leaf);
  }

  lemma {:induction false} SamplesNoLonger(values: seq<Value>)
    ensures |Samples(values)| <= |values|
  {
    if values != [] {
      SamplesNoLonger(values[..|values| - 1]);
    }
  }

  /** Inference fails exactly on two or more values of which one is neither null nor an object. */
  lemma InferenceRefusedIff(values: seq<Value>)
    ensures InferDefaults(values) == Err(Validation) <==> |values| >= 2 && exists v :: v in values && !v.Null? && !v.Obj?
    ensures InferDefaults(values) == Err(Validation) || InferDefaults(values).Ok?
  {
    hide Common, Samples;
  }

  lemma {:induction false} FewSamples(values: seq<Value>)
    requires forall i, j :: 0 <= i < j < |values| ==> values[i].Null? || values[j].Null?
    ensures |Samples(values)| <= 1
  {
    if values != [] {
      var n := |values| - 1;
      FewSamples(values[..n]);
      if !values[n].Null? {
        assert forall i :: 0 <= i < n ==> values[i].Null?;
        OnlyNulls(values[..n]);
      }
    }
  }

  lemma {:induction false} OnlyNulls(values: seq<Value>)
    requires forall i :: 0 <= i < |values| ==> values[i].Null?
    ensures Samples(values) == []
  {
    if values != [] {
      OnlyNulls(values[..|values| - 1]);
    }
  }

  /** One sample shares nothing: without two values that are not null there are no defaults. */
  lemma OneSampleHasNoDefaults(values: seq<Value>)
    requires InferDefaults(values).Ok? && forall i, j :: 0 <= i < j < |values| ==> values[i].Null? || values[j].Null?
    ensures InferDefaults(values).value == Obj(map[])
  {
    hide Samples, Common;
    FewSamples(values);
  }

  lemma {:induction false} SamplesMultiset(values: seq<Value>)
    ensures multiset(Samples(values)) == multiset(values)[Null := 0]
  {
    if values != [] {
      var n := |values| - 1;
      assert values == values[..n] + [values[n]];
      SamplesMultiset(values[..n]);
    }
  }

  /** The order in which samples arrive does not matter. */
  lemma InferenceIgnoresOrder(values: seq<Value>, permuted: seq<Value>)
    requires multiset(values) == multiset(permuted)
    ensures InferDefaults(values) == InferDefaults(permuted)
  {
    var s, t := Samples(values), Samples(permuted);
    SamplesMultiset(values);
    SamplesMultiset(permuted);
    assert |values| == |multiset(values)| == |permuted|;
    assert |s| == |multiset(s)| == |t|;
    assert forall v :: v in s <==> v in multiset(s);
    assert forall v :: v in t <==> v in multiset(t);
    if |s| >= 2 && forall v :: v in s ==> v.Obj? {
      forall p, l | p != []
        ensures HasLeaf(Obj(Common(s)), p, l) <==> HasLeaf(Obj(Common(t)), p, l)
      {
        CommonLeaves(s, p, l);
        CommonLeaves(t, p, l);
      }
      LeavesDetermine(Common(s), Common(t));
    }
  }

  /** A value that makes every leaf assignment of a absorbs a when a is merged underneath it. */
  lemma {:induction false} LeavesAbsorbed(a: Fields, b: Fields)
    requires forall p, l :: p != [] && HasLeaf(Obj(a), p, l) ==> HasLeaf(Obj(b), p, l)
    ensures Merge(a, b) == b
    decreases Obj(a)
  {
    forall k | k in a
      ensures k in b
      ensures a[k].Obj? && b[k].Obj? ==> Merge(a[k].fields, b[k].fields) == b[k].fields
    {
      var q, l := SomeLeaf(a[k]);
      LeafUnder(a, k, q, l);
      LeafUnder(b, k, q, l);
      if a[k].Obj? && b[k].Obj? {
        forall p, l | p != [] && HasLeaf(a[k], p, l)
          ensures HasLeaf(b[k], p, l)
        {
          LeafUnder(a, k, p, l);
          LeafUnder(b, k, p, l);
        }
        LeavesAbsorbed(a[k].fields, b[k].fields);
      }
    }
    assert Merge(a, b).Keys == b.Keys;
  }

  /** Every sample survives being stored against the defaults inferred from it. */
  lemma SampleRestored(values: seq<Value>, v: Value)
    requires v in values && v.Obj? && InferDefaults(values).Ok?
    ensures var d := InferDefaults(values).value;
            CompactAgainstDefaults(v, d).Ok? &&
            MergeWithDefaults(d, CompactAgainstDefaults(v, d).value) == Ok(v)
  {
    var d := InferDefaults(values).value;
    forall p, l | p != [] && HasLeaf(d, p, l)
      ensures HasLeaf(v, p, l)
    {
      if |Samples(values)| >= 2 {
        InferredDefaultsAreSharedLeaves(values, p, l);
      }
    }
    LeavesAbsorbed(d.fields, v.fields);
    MergeOfStoredForm(d, v);
  }
}

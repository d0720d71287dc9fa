/** What masking, detecting and resolving do at every place of a payload. */
module SecretPlaces {
  import opened Payload
  import opened Text
  import opened Secrets
  import JsonPointer
  import Externalization

  // ----- places and their attribute paths -----

  /** x stands at the end of the tokens: keys of objects and decimal indices of arrays. */
  ghost predicate Stands(v: Value, tokens: seq<string>, x: Value)
    decreases tokens
  {
    if tokens == [] then x == v
    else match v
      case Obj(fields) => tokens[0] in fields && Stands(fields[tokens[0]], tokens[1..], x)
      case Arr(items) => exists i :: 0 <= i < |items| && tokens[0] == Itoa(i) && Stands(items[i], tokens[1..], x)
      case _ => false
  }

  /** The attribute path of a place below one with the given path. */
  function PathOf(path: string, tokens: seq<string>): string
    decreases tokens
  {
    if tokens == [] then path else PathOf(JoinPath(path, tokens[0]), tokens[1..])
  }

  function Trims(tokens: seq<string>): (r: seq<string>)
    ensures |r| == |tokens|
  {
    seq(|tokens|, i requires 0 <= i < |tokens| => TrimSpace(tokens[i]))
  }

  /** The attribute path of a place is the JSON Pointer of its trimmed tokens. */
  lemma {:induction false} PathIsPointer(path: string, tokens: seq<string>)
    requires WellFormed(path) && forall t :: t in tokens ==> TrimSpace(t) != ""
    ensures PathOf(path, tokens) == path + JsonPointer.Print(Trims(tokens))
    decreases tokens
  {
    hide TrimSpace, JsonPointer.EscapeToken, JoinPath, WellFormed;
    if tokens != [] {
      JoinWellFormed(path, tokens[0]);
      PathIsPointer(JoinPath(path, tokens[0]), tokens[1..]);
      assert Trims(tokens)[1..] == Trims(tokens[1..]);
      assert path + ("/" + JsonPointer.EscapeToken(TrimSpace(tokens[0])) + JsonPointer.Print(Trims(tokens[1..]))) ==
             path + "/" + JsonPointer.EscapeToken(TrimSpace(tokens[0])) + JsonPointer.Print(Trims(tokens[1..]));
    }
  }

  /** A blank key starts the path anew: what stands above it is forgotten. */
  lemma {:induction false} PathAfterBlank(path: string, above: seq<string>, blank: string, below: seq<string>)
    requires TrimSpace(blank) == ""
    ensures PathOf(path, above + [blank] + below) == PathOf("", below)
    decreases above
  {
    hide TrimSpace;
    var tokens := above + [blank] + below;
    if above == [] {
      assert tokens[0] == blank && tokens[1..] == below;
    } else {
      assert tokens[1..] == above[1..] + [blank] + below;
      PathAfterBlank(JoinPath(path, above[0]), above[1..], blank, below);
    }
  }

  // ----- walks -----

  /** Every string can be rewritten. */
  ghost predicate AllRewritten(v: Value, path: string, f: Rewrite) {
    forall tokens, s :: Stands(v, tokens, Str(s)) ==> f(PathOf(path, tokens), s).Some?
  }

  lemma StandsField(v: Value, k: string, tokens: seq<string>, x: Value)
    requires v.Obj? && k in v.fields
    ensures Stands(v, [k] + tokens, x) <==> Stands(v.fields[k], tokens, x)
    ensures forall path :: PathOf(path, [k] + tokens) == PathOf(JoinPath(path, k), tokens)
  {
    assert ([k] + tokens)[1..] == tokens;
  }

  lemma StandsItem(v: Value, i: nat, tokens: seq<string>, x: Value)
    requires v.Arr? && i < |v.items|
    ensures Stands(v, [Itoa(i)] + tokens, x) <==> Stands(v.items[i], tokens, x)
    ensures forall path :: PathOf(path, [Itoa(i)] + tokens) == PathOf(JoinPath(path, Itoa(i)), tokens)
  {
    hide Itoa;
    assert ([Itoa(i)] + tokens)[1..] == tokens;
    forall j: nat | Itoa(j) == Itoa(i) ensures j == i { ItoaInjective(i, j); }
  }

  lemma RewrittenFields(v: Value, path: string, f: Rewrite)
    requires v.Obj?
    ensures AllRewritten(v, path, f) <==> forall k :: k in v.fields ==> AllRewritten(v.fields[k], JoinPath(path, k), f)
  {
    hide JoinPath;
    if AllRewritten(v, path, f) {
      forall k, tokens, s | k in v.fields && Stands(v.fields[k], tokens, Str(s))
        ensures f(PathOf(JoinPath(path, k), tokens), s).Some?
      {
        StandsField(v, k, tokens, Str(s));
      }
    }
    if forall k :: k in v.fields ==> AllRewritten(v.fields[k], JoinPath(path, k), f) {
      forall tokens, s | Stands(v, tokens, Str(s))
        ensures f(PathOf(path, tokens), s).Some?
      {
        assert AllRewritten(v.fields[tokens[0]], JoinPath(path, tokens[0]), f);
      }
    }
  }

  lemma RewrittenItems(v: Value, path: string, f: Rewrite)
    requires v.Arr?
    ensures AllRewritten(v, path, f) <==>
              forall i :: 0 <= i < |v.items| ==> AllRewritten(v.items[i], JoinPath(path, Itoa(i)), f)
  {
    hide JoinPath, Itoa;
    if AllRewritten(v, path, f) {
      forall i, tokens, s | 0 <= i < |v.items| && Stands(v.items[i], tokens, Str(s))
        ensures f(PathOf(JoinPath(path, Itoa(i)), tokens), s).Some?
      {
        StandsItem(v, i, tokens, Str(s));
      }
    }
    if forall i :: 0 <= i < |v.items| ==> AllRewritten(v.items[i], JoinPath(path, Itoa(i)), f) {
      forall tokens, s | Stands(v, tokens, Str(s))
        ensures f(PathOf(path, tokens), s).Some?
      {
        var i :| 0 <= i < |v.items| && tokens[0] == Itoa(i) && Stands(v.items[i], tokens[1..], Str(s));
        assert AllRewritten(v.items[i], JoinPath(path, Itoa(i)), f);
      }
    }
  }

  /** A walk succeeds exactly when the payload is not nested too deeply and every string can be rewritten. */
  lemma {:induction false} WalkSucceedsIff(v: Value, path: string, depth: nat, f: Rewrite)
    ensures Walk(v, path, depth, f).Some? <==> Shallow(v, depth) && AllRewritten(v, path, f)
    decreases v
  {
    hide JoinPath, Itoa;
    match v
    case Obj(fields) =>
      forall k | k in fields
        ensures Walk(fields[k], JoinPath(path, k), depth + 1, f).Some? <==>
                Shallow(fields[k], depth + 1) && AllRewritten(fields[k], JoinPath(path, k), f)
      {
        WalkSucceedsIff(fields[k], JoinPath(path, k), depth + 1, f);
      }
      RewrittenFields(v, path, f);
      hide AllRewritten;
    case Arr(items) =>
      forall i | 0 <= i < |items|
        ensures Walk(items[i], JoinPath(path, Itoa(i)), depth + 1, f).Some? <==>
                Shallow(items[i], depth + 1) && AllRewritten(items[i], JoinPath(path, Itoa(i)), f)
      {
        WalkSucceedsIff(items[i], JoinPath(path, Itoa(i)), depth + 1, f);
      }
      RewrittenItems(v, path, f);
      hide AllRewritten;
    case Str(s) =>
      if AllRewritten(v, path, f) {
        assert Stands(v, [], Str(s)) && PathOf(path, []) == path;
      }
    case _ =>
  }

  /** Null inside n arrays. */
  function Nested(n: nat): Value {
    if n == 0 then Null else Arr([Nested(n - 1)])
  }

  /** A payload may be nested 256 levels deep and no deeper. */
  lemma {:induction false} DepthLimit(n: nat, depth: nat)
    ensures Shallow(Nested(n), depth) <==> depth + n <= 256
    decreases n
  {
    if n > 0 {
      DepthLimit(n - 1, depth + 1);
      assert Nested(n).items[0] == Nested(n - 1);
    }
  }

  /** A successful walk rewrites each string by its attribute path and changes nothing else. */
  lemma {:induction false} WalkRewrites(v: Value, path: string, depth: nat, f: Rewrite)
    requires Walk(v, path, depth, f).Some?
    ensures var r := Walk(v, path, depth, f).value;
            Externalization.SameShape(v, r) &&
            forall tokens, s :: Stands(v, tokens, Str(s)) ==>
              f(PathOf(path, tokens), s).Some? && Stands(r, tokens, Str(f(PathOf(path, tokens), s).value))
    decreases v
  {
    hide JoinPath, Itoa;
    var r := Walk(v, path, depth, f).value;
    match v
    case Obj(fields) =>
      forall k | k in fields
        ensures Externalization.SameShape(fields[k], r.fields[k])
      {
        WalkRewrites(fields[k], JoinPath(path, k), depth + 1, f);
      }
      forall tokens, s | Stands(v, tokens, Str(s))
        ensures f(PathOf(path, tokens), s).Some? && Stands(r, tokens, Str(f(PathOf(path, tokens), s).value))
      {
        WalkRewrites(fields[tokens[0]], JoinPath(path, tokens[0]), depth + 1, f);
      }
    case Arr(items) =>
      forall i | 0 <= i < |items|
        ensures Externalization.SameShape(items[i], r.items[i])
      {
        WalkRewrites(items[i], JoinPath(path, Itoa(i)), depth + 1, f);
      }
      forall tokens, s | Stands(v, tokens, Str(s))
        ensures f(PathOf(path, tokens), s).Some? && Stands(r, tokens, Str(f(PathOf(path, tokens), s).value))
      {
        var i :| 0 <= i < |items| && tokens[0] == Itoa(i) && Stands(items[i], tokens[1..], Str(s));
        WalkRewrites(items[i], JoinPath(path, Itoa(i)), depth + 1, f);
      }
    case _ =>
  }

  // ----- the fields of a payload -----

  /** The object at the tokens has the field k with value x. */
  ghost predicate FieldAt(v: Value, tokens: seq<string>, k: string, x: Value)
    decreases tokens
  {
    match v
    case Obj(fields) =>
      if tokens == [] then k in fields && fields[k] == x
      else tokens[0] in fields && FieldAt(fields[tokens[0]], tokens[1..], k, x)
    case Arr(items) =>
      tokens != [] && exists i :: 0 <= i < |items| && tokens[0] == Itoa(i) && FieldAt(items[i], tokens[1..], k, x)
    case _ => false
  }

  /** A field, the tokens above it and its attribute path. */
  datatype Field = Field(above: seq<string>, key: string, path: string, value: Value)

  /** The fields in the order in which the walks visit them. */
  function AllFields(v: Value, path: string, above: seq<string>): seq<Field>
    decreases v, 1
  {
    match v
    case Obj(fields) => FieldsUnder(fields, SortedKeys(fields.Keys), path, above)
    case Arr(items) => FieldsInside(items, |items|, path, above)
    case _ => []
  }

  function FieldsUnder(fields: Fields, keys: seq<string>, path: string, above: seq<string>): seq<Field>
    requires forall k :: k in keys ==> k in fields
    decreases Obj(fields), 0, |keys|
  {
    if keys == [] then []
    else
      var n := |keys| - 1;
      var here := JoinPath(path, keys[n]);
      FieldsUnder(fields, keys[..n], path, above) + [Field(above, keys[n], here, fields[keys[n]])] +
      AllFields(fields[keys[n]], here, above + [keys[n]])
  }

  function FieldsInside(items: seq<Value>, n: nat, path: string, above: seq<string>): seq<Field>
    requires n <= |items|
    decreases Arr(items), 0, n
  {
    if n == 0 then []
    else
      FieldsInside(items, n - 1, path, above) +
      AllFields(items[n - 1], JoinPath(path, Itoa(n - 1)), above + [Itoa(n - 1)])
  }

  /** f is a field of v, which has the given path and stands below the given tokens. */
  ghost predicate IsField(f: Field, v: Value, path: string, above: seq<string>) {
    above <= f.above && FieldAt(v, f.above[|above|..], f.key, f.value) &&
    f.path == JoinPath(PathOf(path, f.above[|above|..]), f.key)
  }

  /** f is a field of the child t, or lies below it. */
  ghost predicate Starts(f: Field, above: seq<string>, t: string) {
    |f.above| > |above| && above <= f.above && f.above[|above|] == t
  }

  lemma FieldOfChild(f: Field, v: Value, child: Value, t: string, path: string, above: seq<string>)
    requires forall tokens, k, x :: FieldAt(v, [t] + tokens, k, x) <==> FieldAt(child, tokens, k, x)
    ensures IsField(f, child, JoinPath(path, t), above + [t]) <==> IsField(f, v, path, above) && Starts(f, above, t)
  {
    hide JoinPath, FieldAt;
    if Starts(f, above, t) {
      var tokens := f.above[|above|..];
      assert tokens == [t] + tokens[1..] && tokens[1..] == f.above[|above + [t]|..];
      assert above + [t] <= f.above;
    }
  }

  lemma FieldBelowKey(v: Value, t: string, tokens: seq<string>, k: string, x: Value)
    requires v.Obj? && t in v.fields
    ensures FieldAt(v, [t] + tokens, k, x) <==> FieldAt(v.fields[t], tokens, k, x)
  {
    assert ([t] + tokens)[1..] == tokens;
  }

  lemma FieldBelowIndex(v: Value, i: nat, tokens: seq<string>, k: string, x: Value)
    requires v.Arr? && i < |v.items|
    ensures FieldAt(v, [Itoa(i)] + tokens, k, x) <==> FieldAt(v.items[i], tokens, k, x)
  {
    hide Itoa;
    assert ([Itoa(i)] + tokens)[1..] == tokens;
    forall j: nat | Itoa(j) == Itoa(i) ensures j == i { ItoaInjective(i, j); }
  }

  /** f is a field under one of the keys. */
  ghost predicate UnderKeys(f: Field, keys: seq<string>, above: seq<string>) {
    above <= f.above && (if f.above == above then f.key in keys else f.above[|above|] in keys)
  }

  /** f is a field below one of the first n elements. */
  ghost predicate UnderIndex(f: Field, n: nat, above: seq<string>) {
    exists i :: 0 <= i < n && Starts(f, above, Itoa(i))
  }

  lemma UnderSome(f: Field, v: Value, path: string, above: seq<string>)
    requires IsField(f, v, path, above)
    ensures v.Obj? || v.Arr?
    ensures v.Obj? ==> UnderKeys(f, SortedKeys(v.fields.Keys), above)
    ensures v.Arr? ==> UnderIndex(f, |v.items|, above)
  {
    hide JoinPath, Itoa, PathOf;
    var tokens := f.above[|above|..];
    assert f.above == above + tokens;
    if v.Arr? {
      var i :| 0 <= i < |v.items| && tokens[0] == Itoa(i) && FieldAt(v.items[i], tokens[1..], f.key, f.value);
      assert Starts(f, above, Itoa(i));
    }
  }

  /** The list holds the fields of the payload. */
  lemma {:induction false} ListIsExact(f: Field, v: Value, path: string, above: seq<string>)
    ensures f in AllFields(v, path, above) <==> IsField(f, v, path, above)
    decreases v, 1
  {
    hide JoinPath, Itoa, IsField, UnderKeys, UnderIndex, FieldsUnder, FieldsInside;
    if IsField(f, v, path, above) {
      UnderSome(f, v, path, above);
    }
    match v
    case Obj(fields) => ListUnderIsExact(f, v, SortedKeys(fields.Keys), path, above);
    case Arr(items) => ListInsideIsExact(f, v, |items|, path, above);
    case _ =>
  }

  lemma {:induction false} ListUnderIsExact(f: Field, v: Value, keys: seq<string>, path: string, above: seq<string>)
    requires v.Obj? && forall k :: k in keys ==> k in v.fields
    ensures f in FieldsUnder(v.fields, keys, path, above) <==> IsField(f, v, path, above) && UnderKeys(f, keys, above)
    decreases v, 0, |keys|
  {
    hide JoinPath;
    if keys != [] {
      var n := |keys| - 1;
      var t := keys[n];
      var here := JoinPath(path, t);
      assert t in keys && keys == keys[..n] + [t];
      ListUnderIsExact(f, v, keys[..n], path, above);
      ListIsExact(f, v.fields[t], here, above + [t]);
      forall tokens, k, x ensures FieldAt(v, [t] + tokens, k, x) <==> FieldAt(v.fields[t], tokens, k, x) {
        FieldBelowKey(v, t, tokens, k, x);
      }
      FieldOfChild(f, v, v.fields[t], t, path, above);
      FieldItself(f, v, t, path, above);
      hide IsField, FieldsUnder, AllFields;
      assert FieldsUnder(v.fields, keys, path, above) ==
             FieldsUnder(v.fields, keys[..n], path, above) + [Field(above, t, here, v.fields[t])] +
             AllFields(v.fields[t], here, above + [t]) by { UnderNext(v.fields, keys, path, above); }
    }
  }

  lemma UnderNext(fields: Fields, keys: seq<string>, path: string, above: seq<string>)
    requires keys != [] && forall k :: k in keys ==> k in fields
    ensures var n := |keys| - 1;
            var here := JoinPath(path, keys[n]);
            FieldsUnder(fields, keys, path, above) ==
            FieldsUnder(fields, keys[..n], path, above) + [Field(above, keys[n], here, fields[keys[n]])] +
            AllFields(fields[keys[n]], here, above + [keys[n]])
  {
    hide JoinPath;
  }

  lemma FieldItself(f: Field, v: Value, t: string, path: string, above: seq<string>)
    requires v.Obj? && t in v.fields
    ensures f == Field(above, t, JoinPath(path, t), v.fields[t]) <==>
              IsField(f, v, path, above) && f.above == above && f.key == t
  {
    hide JoinPath;
    assert f.above == above ==> f.above[|above|..] == [];
  }

  lemma {:induction false} ListInsideIsExact(f: Field, v: Value, n: nat, path: string, above: seq<string>)
    requires v.Arr? && n <= |v.items|
    ensures f in FieldsInside(v.items, n, path, above) <==> IsField(f, v, path, above) && UnderIndex(f, n, above)
    decreases v, 0, n
  {
    hide JoinPath, Itoa, Starts, IsField, AllFields;
    if n > 0 {
      var t := Itoa(n - 1);
      ListInsideIsExact(f, v, n - 1, path, above);
      ListIsExact(f, v.items[n - 1], JoinPath(path, t), above + [t]);
      forall tokens, k, x ensures FieldAt(v, [t] + tokens, k, x) <==> FieldAt(v.items[n - 1], tokens, k, x) {
        FieldBelowIndex(v, n - 1, tokens, k, x);
      }
      FieldOfChild(f, v, v.items[n - 1], t, path, above);
      assert UnderIndex(f, n, above) <==> UnderIndex(f, n - 1, above) || Starts(f, above, t);
    }
  }

  /** No field is listed twice. */
  lemma {:induction false} ListIsApart(v: Value, path: string, above: seq<string>, i: nat, j: nat)
    requires i < j < |AllFields(v, path, above)|
    ensures var fs := AllFields(v, path, above); fs[i].above != fs[j].above || fs[i].key != fs[j].key
    decreases v, 1
  {
    hide JoinPath, Itoa, FieldsUnder, FieldsInside;
    match v
    case Obj(fields) =>
      var keys := SortedKeys(fields.Keys);
      forall a, b | 0 <= a < b < |keys| ensures keys[a] != keys[b] { SortedKeysOrdered(fields.Keys, a, b); }
      ListUnderIsApart(v, keys, path, above, i, j);
    case Arr(items) => ListInsideIsApart(v, |items|, path, above, i, j);
    case _ =>
  }

  lemma ListedUnder(f: Field, v: Value, keys: seq<string>, path: string, above: seq<string>)
    requires v.Obj? && forall k :: k in keys ==> k in v.fields
    requires f in FieldsUnder(v.fields, keys, path, above)
    ensures UnderKeys(f, keys, above)
  {
    hide FieldsUnder, UnderKeys;
    ListUnderIsExact(f, v, keys, path, above);
  }

  lemma ListedBelow(f: Field, v: Value, path: string, above: seq<string>)
    requires f in AllFields(v, path, above)
    ensures above <= f.above
  {
    hide AllFields;
    ListIsExact(f, v, path, above);
  }

  lemma {:induction false} ListUnderIsApart(v: Value, keys: seq<string>, path: string, above: seq<string>, i: nat, j: nat)
    requires v.Obj? && forall k :: k in keys ==> k in v.fields
    requires forall a, b :: 0 <= a < b < |keys| ==> keys[a] != keys[b]
    requires i < j < |FieldsUnder(v.fields, keys, path, above)|
    ensures var fs := FieldsUnder(v.fields, keys, path, above); fs[i].above != fs[j].above || fs[i].key != fs[j].key
    decreases v, 0, |keys|
  {
    hide JoinPath, FieldsUnder, AllFields;
    if keys == [] {
      UnderNone(v.fields, path, above);
    } else {
      var n := |keys| - 1;
      var t := keys[n];
      var here := JoinPath(path, t);
      UnderNext(v.fields, keys, path, above);
      var front := FieldsUnder(v.fields, keys[..n], path, above);
      var below := AllFields(v.fields[t], here, above + [t]);
      var fs := FieldsUnder(v.fields, keys, path, above);
      if j < |front| {
        assert fs[i] == front[i] && fs[j] == front[j];
        ListUnderIsApart(v, keys[..n], path, above, i, j);
      } else if i < |front| {
        assert fs[i] == front[i];
        ListedUnder(front[i], v, keys[..n], path, above);
        LastUnder(v, keys, path, above, j - |front|);
      } else {
        if i > |front| {
          ListIsApart(v.fields[t], here, above + [t], i - |front| - 1, j - |front| - 1);
        } else {
          ListedBelow(below[j - |front| - 1], v.fields[t], here, above + [t]);
        }
      }
    }
  }

  lemma UnderNone(fields: Fields, path: string, above: seq<string>)
    ensures FieldsUnder(fields, [], path, above) == []
  {
  }

  /** What the last key adds to the list is not under the other keys. */
  lemma LastUnder(v: Value, keys: seq<string>, path: string, above: seq<string>, m: nat)
    requires v.Obj? && keys != [] && forall k :: k in keys ==> k in v.fields
    requires forall a, b :: 0 <= a < b < |keys| ==> keys[a] != keys[b]
    requires m <= |AllFields(v.fields[keys[|keys| - 1]], JoinPath(path, keys[|keys| - 1]), above + [keys[|keys| - 1]])|
    ensures var n := |keys| - 1;
            var t := keys[n];
            var added := [Field(above, t, JoinPath(path, t), v.fields[t])] + AllFields(v.fields[t], JoinPath(path, t), above + [t]);
            !UnderKeys(added[m], keys[..n], above)
  {
    hide JoinPath, AllFields;
    var n := |keys| - 1;
    var t := keys[n];
    var below := AllFields(v.fields[t], JoinPath(path, t), above + [t]);
    assert t !in keys[..n];
    if m > 0 {
      ListedBelow(below[m - 1], v.fields[t], JoinPath(path, t), above + [t]);
      assert (above + [t])[|above|] == t;
    }
  }

  lemma ListedInside(f: Field, v: Value, n: nat, path: string, above: seq<string>)
    requires v.Arr? && n < |v.items| && f in FieldsInside(v.items, n, path, above)
    ensures !Starts(f, above, Itoa(n))
  {
    hide FieldsInside, Itoa;
    ListInsideIsExact(f, v, n, path, above);
    var i :| 0 <= i < n && Starts(f, above, Itoa(i));
    if Itoa(i) == Itoa(n) {
      ItoaInjective(i, n);
    }
  }

  lemma {:induction false} ListInsideIsApart(v: Value, n: nat, path: string, above: seq<string>, i: nat, j: nat)
    requires v.Arr? && n <= |v.items| && i < j < |FieldsInside(v.items, n, path, above)|
    ensures var fs := FieldsInside(v.items, n, path, above); fs[i].above != fs[j].above || fs[i].key != fs[j].key
    decreases v, 0, n
  {
    hide JoinPath, Itoa, AllFields;
    var t := Itoa(n - 1);
    var front := FieldsInside(v.items, n - 1, path, above);
    var below := AllFields(v.items[n - 1], JoinPath(path, t), above + [t]);
    if j < |front| {
      ListInsideIsApart(v, n - 1, path, above, i, j);
    } else {
      ListedBelow(below[j - |front|], v.items[n - 1], JoinPath(path, t), above + [t]);
      if i < |front| {
        ListedInside(front[i], v, n - 1, path, above);
      } else {
        ListIsApart(v.items[n - 1], JoinPath(path, t), above + [t], i - |front|, j - |front|);
      }
    }
  }

  // ----- collecting is a fold over the fields -----

  function CollectAll(rules: Rules, c: Candidates, fs: seq<Field>): Option<Candidates> {
    if fs == [] then Some(c)
    else
      var n := |fs| - 1;
      var before :- CollectAll(rules, c, fs[..n]);
      CandidateAt(rules, fs[n].key, fs[n].value, fs[n].path, before)
  }

  function CollectMore(rules: Rules, c: Option<Candidates>, fs: seq<Field>): Option<Candidates> {
    if c.None? then None else CollectAll(rules, c.value, fs)
  }

  lemma {:induction false} CollectConcat(rules: Rules, c: Candidates, a: seq<Field>, b: seq<Field>)
    ensures CollectAll(rules, c, a + b) == CollectMore(rules, CollectAll(rules, c, a), b)
  {
    hide CandidateAt;
    if b == [] {
      assert a + b == a;
    } else {
      assert (a + b)[..|a + b| - 1] == a + b[..|b| - 1];
      CollectConcat(rules, c, a, b[..|b| - 1]);
    }
  }

  lemma CollectOne(rules: Rules, c: Candidates, f: Field)
    ensures CollectAll(rules, c, [f]) == CandidateAt(rules, f.key, f.value, f.path, c)
  {
    hide CandidateAt;
    assert [f][..0] == [];
  }

  lemma {:induction false} CollectIsFold(rules: Rules, v: Value, path: string, c: Candidates, depth: nat, above: seq<string>)
    ensures Collect(rules, v, path, c, depth) ==
            if Shallow(v, depth) then CollectAll(rules, c, AllFields(v, path, above)) else None
    decreases v, 1
  {
    hide JoinPath, Itoa, CandidateAt;
    match v
    case Obj(fields) =>
      if depth <= MAX_DEPTH {
        CollectFieldsIsFold(rules, fields, SortedKeys(fields.Keys), path, c, depth, above);
      }
    case Arr(items) =>
      if depth <= MAX_DEPTH {
        CollectItemsIsFold(rules, items, |items|, path, c, depth, above);
      }
    case _ =>
  }

  lemma {:induction false} CollectFieldsIsFold(rules: Rules, fields: Fields, keys: seq<string>, path: string, c: Candidates,
                                               depth: nat, above: seq<string>)
    requires forall k :: k in keys ==> k in fields
    ensures CollectFields(rules, fields, keys, path, c, depth) ==
            if forall k :: k in keys ==> Shallow(fields[k], depth + 1)
            then CollectAll(rules, c, FieldsUnder(fields, keys, path, above)) else None
    decreases Obj(fields), 0, |keys|
  {
    hide JoinPath, CandidateAt, Shallow, Collect, AllFields;
    if keys != [] {
      var n := |keys| - 1;
      var t := keys[n];
      var here := JoinPath(path, t);
      assert t in keys && keys == keys[..n] + [t];
      CollectFieldsIsFold(rules, fields, keys[..n], path, c, depth, above);
      var front, one := FieldsUnder(fields, keys[..n], path, above), Field(above, t, here, fields[t]);
      var below := AllFields(fields[t], here, above + [t]);
      UnderNext(fields, keys, path, above);
      CollectConcat(rules, c, front + [one], below);
      CollectConcat(rules, c, front, [one]);
      var before := CollectFields(rules, fields, keys[..n], path, c, depth);
      if before.Some? {
        CollectOne(rules, before.value, one);
        var after := CandidateAt(rules, t, fields[t], here, before.value);
        if after.Some? {
          CollectIsFold(rules, fields[t], here, after.value, depth + 1, above + [t]);
        }
      }
    }
  }

  lemma {:induction false} CollectItemsIsFold(rules: Rules, items: seq<Value>, n: nat, path: string, c: Candidates,
                                              depth: nat, above: seq<string>)
    requires n <= |items|
    ensures CollectItems(rules, items, n, path, c, depth) ==
            if forall i :: 0 <= i < n ==> Shallow(items[i], depth + 1)
            then CollectAll(rules, c, FieldsInside(items, n, path, above)) else None
    decreases Arr(items), 0, n
  {
    hide JoinPath, CandidateAt, Shallow, Collect, AllFields, Itoa, CollectAll;
    if n == 0 {
      CollectNone(rules, c);
    } else {
      var here := JoinPath(path, Itoa(n - 1));
      CollectItemsIsFold(rules, items, n - 1, path, c, depth, above);
      CollectConcat(rules, c, FieldsInside(items, n - 1, path, above), AllFields(items[n - 1], here, above + [Itoa(n - 1)]));
      var before := CollectItems(rules, items, n - 1, path, c, depth);
      if before.Some? {
        CollectIsFold(rules, items[n - 1], here, before.value, depth + 1, above + [Itoa(n - 1)]);
      }
    }
  }

  lemma CollectNone(rules: Rules, c: Candidates)
    ensures CollectAll(rules, c, []) == Some(c)
  {
  }

  // ----- which fields are masked -----

  /** The field holds a plain secret. */
  ghost predicate IsSecret(rules: Rules, key: string, x: Value) {
    rules.likelyKey(key) && x.Str? && ParsePlaceholder(rules, x.s).Plain?
  }

  /** The field cannot be masked: neither null, nor a string with a proper placeholder or plain text. */
  ghost predicate IsBad(rules: Rules, key: string, x: Value) {
    rules.likelyKey(key) && !x.Null? && !(x.Str? && !ParsePlaceholder(rules, x.s).Malformed?)
  }

  /** The fields can be collected one after the other. */
  ghost predicate Collectable(rules: Rules, fs: seq<Field>) {
    (forall i :: 0 <= i < |fs| ==> !IsBad(rules, fs[i].key, fs[i].value)) &&
    (forall i, j :: 0 <= i < j < |fs| && IsSecret(rules, fs[i].key, fs[i].value) && IsSecret(rules, fs[j].key, fs[j].value) ==>
       fs[i].key != fs[j].key && fs[i].path != fs[j].path)
  }

  /** The candidates are the secrets of the fields. */
  ghost predicate CandidatesOf(rules: Rules, fs: seq<Field>, c: Candidates) {
    (forall f :: f in fs && IsSecret(rules, f.key, f.value) ==>
       f.path in c.values && Str(c.values[f.path]) == f.value && f.key in c.scopes && c.scopes[f.key] == f.path) &&
    (forall p :: p in c.values ==> exists f :: f in fs && IsSecret(rules, f.key, f.value) && f.path == p) &&
    (forall k :: k in c.scopes ==> exists f :: f in fs && IsSecret(rules, f.key, f.value) && f.key == k)
  }

  lemma {:induction false} CollectAllIff(rules: Rules, fs: seq<Field>)
    ensures CollectAll(rules, Candidates(map[], map[]), fs).Some? <==> Collectable(rules, fs)
    ensures Collectable(rules, fs) ==> CandidatesOf(rules, fs, CollectAll(rules, Candidates(map[], map[]), fs).value)
  {
    hide ParsePlaceholder;
    if fs != [] {
      var n := |fs| - 1;
      var front, f := fs[..n], fs[n];
      assert fs == front + [f];
      CollectAllIff(rules, front);
      if Collectable(rules, front) {
        var c := CollectAll(rules, Candidates(map[], map[]), front).value;
        hide CollectAll;
        CollectStep(rules, front, f, c);
        assert CollectAll(rules, Candidates(map[], map[]), fs) == CandidateAt(rules, f.key, f.value, f.path, c) by {
          CollectConcat(rules, Candidates(map[], map[]), front, [f]);
          CollectOne(rules, c, f);
        }
      } else {
        CollectableNext(rules, front, f);
      }
    }
  }

  /** A secret among the fields has the key or the path of f. */
  ghost predicate Repeats(rules: Rules, fs: seq<Field>, f: Field) {
    exists g :: g in fs && IsSecret(rules, g.key, g.value) && (g.key == f.key || g.path == f.path)
  }

  lemma CollectableNext(rules: Rules, front: seq<Field>, f: Field)
    ensures Collectable(rules, front + [f]) <==>
              Collectable(rules, front) && !IsBad(rules, f.key, f.value) &&
              (IsSecret(rules, f.key, f.value) ==> !Repeats(rules, front, f))
  {
    hide IsBad, IsSecret;
    var fs := front + [f];
    assert fs[|front|] == f && forall i :: 0 <= i < |front| ==> fs[i] == front[i];
    if Collectable(rules, fs) {
      forall i | 0 <= i < |front| ensures !IsBad(rules, front[i].key, front[i].value) {
        assert !IsBad(rules, fs[i].key, fs[i].value);
      }
      forall i, j | 0 <= i < j < |front| && IsSecret(rules, front[i].key, front[i].value) && IsSecret(rules, front[j].key, front[j].value)
        ensures front[i].key != front[j].key && front[i].path != front[j].path
      {
        assert IsSecret(rules, fs[i].key, fs[i].value) && IsSecret(rules, fs[j].key, fs[j].value);
      }
      assert !IsBad(rules, fs[|front|].key, fs[|front|].value);
      if IsSecret(rules, f.key, f.value) {
        forall i | 0 <= i < |front| && IsSecret(rules, front[i].key, front[i].value)
          ensures front[i].key != f.key && front[i].path != f.path
        {
          assert IsSecret(rules, fs[i].key, fs[i].value) && IsSecret(rules, fs[|front|].key, fs[|front|].value);
        }
      }
    }
  }

  lemma RepeatsIff(rules: Rules, front: seq<Field>, f: Field, c: Candidates)
    requires CandidatesOf(rules, front, c)
    ensures (f.key in c.scopes && c.scopes[f.key] != f.path) || f.path in c.values <==> Repeats(rules, front, f)
  {
    hide IsSecret;
  }

  lemma CandidatesNext(rules: Rules, front: seq<Field>, f: Field, c: Candidates)
    requires CandidatesOf(rules, front, c) && IsSecret(rules, f.key, f.value) && !Repeats(rules, front, f)
    ensures CandidatesOf(rules, front + [f], Candidates(c.values[f.path := f.value.s], c.scopes[f.key := f.path]))
  {
    hide ParsePlaceholder;
    var fs := front + [f];
    assert f in fs && forall g :: g in front ==> g in fs;
  }

  lemma CandidatesStay(rules: Rules, front: seq<Field>, f: Field, c: Candidates)
    requires CandidatesOf(rules, front, c) && !IsSecret(rules, f.key, f.value)
    ensures CandidatesOf(rules, front + [f], c)
  {
    hide IsSecret;
    assert forall g :: g in front ==> g in front + [f];
  }

  lemma CollectStep(rules: Rules, front: seq<Field>, f: Field, c: Candidates)
    requires Collectable(rules, front) && CandidatesOf(rules, front, c)
    ensures var r := CandidateAt(rules, f.key, f.value, f.path, c);
            (r.Some? <==> Collectable(rules, front + [f])) && (r.Some? ==> CandidatesOf(rules, front + [f], r.value))
  {
    CollectableNext(rules, front, f);
    RepeatsIff(rules, front, f, c);
    if !IsSecret(rules, f.key, f.value) {
      CandidatesStay(rules, front, f, c);
    } else if !Repeats(rules, front, f) {
      CandidatesNext(rules, front, f, c);
    }
    hide ParsePlaceholder, Collectable, CandidatesOf, Repeats;
  }

  /** f is a field of the payload, with its attribute path. */
  ghost predicate FieldOf(f: Field, v: Value) {
    FieldAt(v, f.above, f.key, f.value) && f.path == JoinPath(PathOf("", f.above), f.key)
  }

  /** Every secret-looking field can be masked. */
  ghost predicate NoneBad(rules: Rules, v: Value) {
    forall f :: FieldOf(f, v) ==> !IsBad(rules, f.key, f.value)
  }

  /** No key and no attribute path is that of two plain secrets. */
  ghost predicate Unrepeated(rules: Rules, v: Value) {
    forall f, g :: FieldOf(f, v) && FieldOf(g, v) && IsSecret(rules, f.key, f.value) && IsSecret(rules, g.key, g.value) ==>
      (f.above == g.above && f.key == g.key) || (f.key != g.key && f.path != g.path)
  }

  lemma ListedIff(f: Field, v: Value)
    ensures f in AllFields(v, "", []) <==> FieldOf(f, v)
  {
    hide FieldAt, JoinPath;
    ListIsExact(f, v, "", []);
    assert f.above[0..] == f.above;
  }

  lemma CollectableIff(rules: Rules, v: Value)
    ensures Collectable(rules, AllFields(v, "", [])) <==> NoneBad(rules, v) && Unrepeated(rules, v)
  {
    hide AllFields, FieldOf, IsBad, IsSecret;
    var fs := AllFields(v, "", []);
    forall f ensures f in fs <==> FieldOf(f, v) { ListedIff(f, v); }
    if NoneBad(rules, v) && Unrepeated(rules, v) {
      forall i, j | 0 <= i < j < |fs| && IsSecret(rules, fs[i].key, fs[i].value) && IsSecret(rules, fs[j].key, fs[j].value)
        ensures fs[i].key != fs[j].key && fs[i].path != fs[j].path
      {
        assert FieldOf(fs[i], v) && FieldOf(fs[j], v);
        ListIsApart(v, "", [], i, j);
      }
    }
    if Collectable(rules, fs) {
      forall f, g | FieldOf(f, v) && FieldOf(g, v) && IsSecret(rules, f.key, f.value) && IsSecret(rules, g.key, g.value)
        ensures (f.above == g.above && f.key == g.key) || (f.key != g.key && f.path != g.path)
      {
        assert f in fs && g in fs;
        var i :| 0 <= i < |fs| && fs[i] == f;
        var j :| 0 <= j < |fs| && fs[j] == g;
        assert f.above != g.above || f.key != g.key ==> i != j;
      }
    }
  }

  /** Masking succeeds exactly when the payload is not nested too deeply, every secret-looking field can
      be masked, and no two plain secrets share a key or an attribute path. */
  lemma MaskSucceedsIff(rules: Rules, v: Value)
    requires Lawful(rules)
    ensures Mask(rules, v).Some? <==> Shallow(v, 0) && NoneBad(rules, v) && Unrepeated(rules, v)
  {
    hide AllFields, Collect, ApplyMask, Collectable, CandidatesOf, NoneBad, Unrepeated, Lawful, CollectAll;
    CollectIsFold(rules, v, "", Candidates(map[], map[]), 0, []);
    CollectAllIff(rules, AllFields(v, "", []));
    CollectableIff(rules, v);
    if Collect(rules, v, "", Candidates(map[], map[]), 0).Some? {
      MaskingInvisible(rules, v, "", map[]);
    }
  }

  /** The values that masking stores are the texts of the plain secrets, by attribute path. */
  lemma MaskedValues(rules: Rules, v: Value)
    requires Mask(rules, v).Some?
    ensures var values := Mask(rules, v).value.1;
            (forall f :: FieldOf(f, v) && IsSecret(rules, f.key, f.value) ==> f.path in values && Str(values[f.path]) == f.value) &&
            (forall p :: p in values ==> exists f :: FieldOf(f, v) && IsSecret(rules, f.key, f.value) && f.path == p)
  {
    hide AllFields, Collect, ApplyMask, Collectable, FieldOf, IsSecret, CollectAll;
    var c := Candidates(map[], map[]);
    var fs := AllFields(v, "", []);
    CollectIsFold(rules, v, "", c, 0, []);
    CollectAllIff(rules, fs);
    forall f ensures f in fs <==> FieldOf(f, v) { ListedIff(f, v); }
  }

  /** A masked payload: the secrets among its fields replaced, at any depth, and nothing else. */
  ghost predicate MaskOf(rules: Rules, v: Value, m: Value) {
    match v
    case Obj(fields) =>
      m.Obj? && m.fields.Keys == fields.Keys &&
      forall k :: k in fields ==>
        if IsSecret(rules, k, fields[k]) then m.fields[k] == Str(CURRENT_SCOPE) else MaskOf(rules, fields[k], m.fields[k])
    case Arr(items) => m.Arr? && |m.items| == |items| && forall i :: 0 <= i < |items| ==> MaskOf(rules, items[i], m.items[i])
    case _ => m == v
  }

  lemma {:induction false} ApplyMaskMasks(rules: Rules, v: Value, path: string, values: map<string, string>, depth: nat)
    requires Maskable(rules, v, path, values) && ApplyMask(rules, v, path, values, depth).Some?
    ensures MaskOf(rules, v, ApplyMask(rules, v, path, values, depth).value)
    decreases v
  {
    hide JoinPath, ParsePlaceholder, WellFormed, Lawful, LikelyPaths, Itoa;
    match v
    case Obj(fields) =>
      var masked := ApplyMask(rules, v, path, values, depth).value.fields;
      forall k | k in fields
        ensures if IsSecret(rules, k, fields[k]) then masked[k] == Str(CURRENT_SCOPE) else MaskOf(rules, fields[k], masked[k])
      {
        JoinWellFormed(path, k);
        if JoinPath(path, k) in values {
          MaskedKeyLikely(rules, k, path, values);
        }
        if !Masks(rules, values, fields[k], JoinPath(path, k)) {
          ApplyMaskMasks(rules, fields[k], JoinPath(path, k), values, depth + 1);
        }
      }
    case Arr(items) =>
      var masked := ApplyMask(rules, v, path, values, depth).value.items;
      forall i | 0 <= i < |items|
        ensures MaskOf(rules, items[i], masked[i])
      {
        JoinWellFormed(path, Itoa(i));
        ApplyMaskMasks(rules, items[i], JoinPath(path, Itoa(i)), values, depth + 1);
      }
    case _ =>
  }

  /** Masking replaces the plain secrets and nothing else. */
  lemma MaskReplaces(rules: Rules, v: Value)
    requires Lawful(rules) && Mask(rules, v).Some?
    ensures MaskOf(rules, v, Mask(rules, v).value.0)
  {
    hide Collect, ApplyMask, MaskOf, Lawful;
    var c := Candidates(map[], map[]);
    EmptyWellFormed();
    CollectCovers(rules, v, "", c, 0);
    ApplyMaskMasks(rules, v, "", Collect(rules, v, "", c, 0).value.values, 0);
  }

  // ----- which fields are detected -----

  /** The field is a plain secret with a likely value. */
  ghost predicate IsLikely(rules: Rules, key: string, x: Value) {
    IsSecret(rules, key, x) && rules.likelyValue(x.s)
  }

  /** The field ends the detection: a malformed placeholder under a secret-looking key. */
  ghost predicate IsBroken(rules: Rules, key: string, x: Value) {
    rules.likelyKey(key) && x.Str? && ParsePlaceholder(rules, x.s).Malformed?
  }

  ghost predicate Detects(rules: Rules, fs: seq<Field>, found: set<string>, r: Option<set<string>>) {
    (r.None? <==> exists f :: f in fs && IsBroken(rules, f.key, f.value)) &&
    (r.Some? ==> forall p :: p in r.value <==> p in found || exists f :: f in fs && IsLikely(rules, f.key, f.value) && f.path == p)
  }

  lemma DetectsConcat(rules: Rules, a: seq<Field>, b: seq<Field>, found: set<string>, mid: set<string>, r: Option<set<string>>)
    requires Detects(rules, a, found, Some(mid)) && Detects(rules, b, mid, r)
    ensures Detects(rules, a + b, found, r)
  {
    hide IsLikely, IsBroken;
  }

  lemma DetectsFail(rules: Rules, a: seq<Field>, b: seq<Field>, found: set<string>)
    requires Detects(rules, a, found, None)
    ensures Detects(rules, a + b, found, None)
  {
    hide IsLikely, IsBroken;
  }

  lemma DetectOne(rules: Rules, f: Field, found: set<string>)
    ensures var here := DetectField(rules, f.key, f.value, f.path);
            Detects(rules, [f], found, if here.Some? then Some(found + here.value) else None)
  {
    hide ParsePlaceholder;
    assert f in [f];
  }

  lemma DetectNothing(rules: Rules, found: set<string>)
    ensures Detects(rules, [], found, Some(found))
  {
  }

  lemma {:induction false} DetectIsFold(rules: Rules, v: Value, path: string, found: set<string>, depth: nat, above: seq<string>)
    ensures if Shallow(v, depth) then Detects(rules, AllFields(v, path, above), found, Detect(rules, v, path, found, depth))
            else Detect(rules, v, path, found, depth).None?
    decreases v, 1
  {
    hide JoinPath, Itoa, DetectField, Detects;
    match v
    case Obj(fields) =>
      if depth <= MAX_DEPTH {
        DetectFieldsIsFold(rules, fields, SortedKeys(fields.Keys), path, found, depth, above);
      }
    case Arr(items) =>
      if depth <= MAX_DEPTH {
        DetectItemsIsFold(rules, items, |items|, path, found, depth, above);
      }
    case _ => DetectNothing(rules, found);
  }

  lemma {:induction false} DetectFieldsIsFold(rules: Rules, fields: Fields, keys: seq<string>, path: string, found: set<string>,
                                              depth: nat, above: seq<string>)
    requires forall k :: k in keys ==> k in fields
    ensures var r := DetectFields(rules, fields, keys, path, found, depth);
            if forall k :: k in keys ==> Shallow(fields[k], depth + 1)
            then Detects(rules, FieldsUnder(fields, keys, path, above), found, r) else r.None?
    decreases Obj(fields), 0, |keys|
  {
    hide JoinPath, DetectField, Shallow, Detect, AllFields, Detects;
    if keys == [] {
      DetectNothing(rules, found);
    } else {
      var n := |keys| - 1;
      var t := keys[n];
      var here := JoinPath(path, t);
      assert t in keys && keys == keys[..n] + [t];
      DetectFieldsIsFold(rules, fields, keys[..n], path, found, depth, above);
      var front, one := FieldsUnder(fields, keys[..n], path, above), Field(above, t, here, fields[t]);
      var below := AllFields(fields[t], here, above + [t]);
      UnderNext(fields, keys, path, above);
      var before := DetectFields(rules, fields, keys[..n], path, found, depth);
      if before.Some? {
        DetectOne(rules, one, before.value);
        var mine := DetectField(rules, t, fields[t], here);
        var r := if mine.Some? then Some(before.value + mine.value) else None;
        if forall k :: k in keys[..n] ==> Shallow(fields[k], depth + 1) {
          DetectsConcat(rules, front, [one], found, before.value, r);
          if mine.Some? {
            DetectIsFold(rules, fields[t], here, r.value, depth + 1, above + [t]);
            if Shallow(fields[t], depth + 1) {
              DetectsConcat(rules, front + [one], below, found, r.value, Detect(rules, fields[t], here, r.value, depth + 1));
            }
          } else {
            DetectsFail(rules, front + [one], below, found);
          }
        }
      } else if forall k :: k in keys[..n] ==> Shallow(fields[k], depth + 1) {
        DetectsFail(rules, front, [one], found);
        DetectsFail(rules, front + [one], below, found);
      }
    }
  }

  lemma {:induction false} DetectItemsIsFold(rules: Rules, items: seq<Value>, n: nat, path: string, found: set<string>,
                                             depth: nat, above: seq<string>)
    requires n <= |items|
    ensures var r := DetectItems(rules, items, n, path, found, depth);
            if forall i :: 0 <= i < n ==> Shallow(items[i], depth + 1)
            then Detects(rules, FieldsInside(items, n, path, above), found, r) else r.None?
    decreases Arr(items), 0, n
  {
    hide JoinPath, DetectField, Shallow, Detect, AllFields, Itoa, Detects;
    if n == 0 {
      DetectNothing(rules, found);
    } else {
      var here := JoinPath(path, Itoa(n - 1));
      DetectItemsIsFold(rules, items, n - 1, path, found, depth, above);
      var front, below := FieldsInside(items, n - 1, path, above), AllFields(items[n - 1], here, above + [Itoa(n - 1)]);
      var before := DetectItems(rules, items, n - 1, path, found, depth);
      if forall i :: 0 <= i < n - 1 ==> Shallow(items[i], depth + 1) {
        if before.Some? {
          DetectIsFold(rules, items[n - 1], here, before.value, depth + 1, above + [Itoa(n - 1)]);
          if Shallow(items[n - 1], depth + 1) {
            DetectsConcat(rules, front, below, found, before.value, Detect(rules, items[n - 1], here, before.value, depth + 1));
          }
        } else {
          DetectsFail(rules, front, below, found);
        }
      }
    }
  }

  /** Detection fails exactly on payloads that are nested too deeply or have a malformed placeholder under
      a secret-looking key; a path is detected exactly when a plain, likely text under a secret-looking key
      stands there. */
  lemma DetectIff(rules: Rules, v: Value)
    ensures var r := Detect(rules, v, "", {}, 0);
            (r.Some? <==> Shallow(v, 0) && forall f :: FieldOf(f, v) ==> !IsBroken(rules, f.key, f.value)) &&
            (r.Some? ==> forall p :: p in r.value <==>
                           exists f :: FieldOf(f, v) && IsLikely(rules, f.key, f.value) && f.path == p)
  {
    hide AllFields, Detect, FieldOf, IsLikely, IsBroken, Shallow;
    DetectIsFold(rules, v, "", {}, 0, []);
    forall f ensures f in AllFields(v, "", []) <==> FieldOf(f, v) { ListedIff(f, v); }
  }
}

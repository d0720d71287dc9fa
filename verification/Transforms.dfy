/** Select and exclude: the payload transforms built on JSON Pointers
    (internal/orchestrator/json_pointer.go). */
module Transforms {
  import opened Payload
  import opened Text
  import opened JsonPointer

  // ----- the pointer list -----

  function TrimmedSet(pointers: seq<string>): set<string> {
    set p | p in pointers :: TrimSpace(p)
  }

  function NormalizedPointers(pointers: seq<string>): Option<seq<string>> {
    if forall p :: p in pointers ==> Parse(TrimSpace(p)).Some? then Some(SortedKeys(TrimmedSet(pointers))) else None
  }

  method NormalizePointers(pointers: seq<string>) returns (r: Option<seq<string>>)
    ensures r == NormalizedPointers(pointers)
  {
    hide Parse, SortedKeys, TrimSpace;
    var seen: set<string> := {};
    for i := 0 to |pointers|
      invariant seen == TrimmedSet(pointers[..i])
      invariant forall p :: p in pointers[..i] ==> Parse(TrimSpace(p)).Some?
    {
      var pointer := TrimSpace(pointers[i]);
      assert pointers[..i + 1] == pointers[..i] + [pointers[i]];
      assert TrimmedSet(pointers[..i + 1]) == seen + {pointer};
      if pointer in seen {
        var p :| p in pointers[..i] && TrimSpace(p) == pointer;
        continue;
      }
      if Parse(pointer).None? {
        assert pointers[i] in pointers;
        return None;
      }
      seen := seen + {pointer};
    }
    assert pointers[..|pointers|] == pointers;
    r := Some(SortedKeys(seen));
  }

  function Tokens(pointer: string): seq<string> {
    var r := Parse(pointer);
    if r.Some? then r.value else []
  }

  // ----- exclude -----

  /** A pointer none of whose tokens is an array index. */
  predicate KeysOnly(p: seq<string>) {
    p != [] && forall t :: t in p ==> ParseIndex(t).None?
  }

  function DeleteAll(v: Value, paths: seq<seq<string>>): Value {
    if paths == [] then v else Delete(DeleteAll(v, paths[..|paths| - 1]), paths[|paths| - 1])
  }

  function Tails(paths: set<seq<string>>, key: string): set<seq<string>> {
    set p | p in paths && p != [] && p[0] == key :: p[1..]
  }

  predicate Gone(child: Value, tails: set<seq<string>>) {
    [] in tails || (child.Null? && tails != {})
  }

  /** The payload without the subtrees at the given paths, and without a null that lies above one of them. */
  function Without(v: Value, paths: set<seq<string>>): Value {
    match v
    case Obj(fields) => Obj(map k | k in fields && !Gone(fields[k], Tails(paths, k)) :: Without(fields[k], Tails(paths, k)))
    case _ => v
  }

  lemma {:induction false} WithoutNothing(v: Value)
    ensures Without(v, {}) == v
  {
    if v.Obj? {
      forall k | k in v.fields
        ensures Tails({}, k) == {} && Without(v.fields[k], {}) == v.fields[k]
      {
        WithoutNothing(v.fields[k]);
      }
    }
  }

  lemma TailsGrow(paths: set<seq<string>>, p: seq<string>, key: string)
    requires p != []
    ensures Tails(paths + {p}, key) == if p[0] == key then Tails(paths, key) + {p[1..]} else Tails(paths, key)
  {
  }

  lemma DeleteAtKey(fields: Fields, p: seq<string>)
    requires p != [] && ParseIndex(p[0]).None?
    ensures Delete(Obj(fields), p).Obj?
    ensures Delete(Obj(fields), p).fields ==
            if p[0] !in fields then fields
            else if |p| == 1 || Delete(fields[p[0]], p[1..]).Null? then fields - {p[0]}
            else fields[p[0] := Delete(fields[p[0]], p[1..])]
  {
    hide ParseIndex;
  }

  lemma DeleteElsewhere(v: Value, p: seq<string>)
    requires KeysOnly(p) && !v.Obj?
    ensures Delete(v, p) == v
  {
    hide ParseIndex;
    assert p[0] in p;
  }

  /** Deleting one more path. */
  lemma {:induction false} DeleteWithout(v: Value, paths: set<seq<string>>, p: seq<string>)
    requires KeysOnly(p)
    ensures Delete(Without(v, paths), p) == Without(v, paths + {p})
    decreases p
  {
    hide ParseIndex, Delete, Tails;
    if v.Obj? {
      var key, tail := p[0], p[1..];
      var w := Without(v, paths);
      forall k
        ensures Tails(paths + {p}, k) == if k == key then Tails(paths, k) + {tail} else Tails(paths, k)
      {
        TailsGrow(paths, p, k);
      }
      if tail != [] && key in v.fields {
        TailIsKeys(p);
        DeleteWithout(v.fields[key], Tails(paths, key), tail);
      }
      assert key in p;
      DeleteAtKey(w.fields, p);
      assert |p| == 1 <==> tail == [];
      assert Delete(w, p).fields == Without(v, paths + {p}).fields;
    } else {
      DeleteElsewhere(v, p);
    }
  }

  lemma TailIsKeys(p: seq<string>)
    requires KeysOnly(p) && p[1..] != []
    ensures KeysOnly(p[1..])
  {
    hide ParseIndex;
  }

  /** The deletions remove a set of paths: neither their order nor repeating them matters. */
  lemma {:induction false} DeleteAllIsWithout(v: Value, paths: seq<seq<string>>)
    requires forall p :: p in paths ==> KeysOnly(p)
    ensures DeleteAll(v, paths) == Without(v, set p | p in paths)
  {
    if paths == [] {
      WithoutNothing(v);
      assert (set p | p in paths) == {};
    } else {
      var n := |paths| - 1;
      assert paths == paths[..n] + [paths[n]];
      DeleteAllIsWithout(v, paths[..n]);
      var before := set p | p in paths[..n];
      DeleteWithout(v, before, paths[n]);
      assert (set p | p in paths) == before + {paths[n]};
    }
  }

  function AllTokens(pointers: seq<string>): (r: seq<seq<string>>)
    ensures |r| == |pointers| && forall i :: 0 <= i < |r| ==> r[i] == Tokens(pointers[i])
  {
    seq(|pointers|, i requires 0 <= i < |pointers| => Tokens(pointers[i]))
  }

  function Excluded(v: Value, pointers: seq<string>): Option<Value> {
    var sorted :- NormalizedPointers(pointers);
    Some(if "" in sorted then Null else DeleteAll(v, AllTokens(sorted)))
  }

  method ApplySuppressPointers(v: Value, pointers: seq<string>) returns (r: Option<Value>)
    ensures r == Excluded(v, pointers)
  {
    hide Parse, SortedKeys, TrimSpace, NormalizedPointers, Delete;
    var sorted := NormalizePointers(pointers);
    if sorted.None? {
      return None;
    }
    var ps := sorted.value;
    var working := v;
    for i := 0 to |ps|
      invariant "" !in ps[..i]
      invariant working == DeleteAll(v, AllTokens(ps)[..i])
    {
      if ps[i] == "" {
        return Some(Null);
      }
      assert ps[..i + 1] == ps[..i] + [ps[i]];
      assert AllTokens(ps)[..i + 1][..i] == AllTokens(ps)[..i];
      working := Delete(working, Tokens(ps[i]));
    }
    assert ps[..|ps|] == ps && AllTokens(ps)[..|ps|] == AllTokens(ps);
    r := Some(working);
  }

  /** The paths that the pointers stand for. */
  function Paths(pointers: seq<string>): set<seq<string>> {
    set p | p in pointers :: Tokens(p)
  }

  lemma TokensOfTrimmed(pointer: string)
    ensures Tokens(TrimSpace(pointer)) == Tokens(pointer)
  {
    hide TrimSpace;
    TrimSpaceTrimmed(pointer);
    TrimSpaceFixed(TrimSpace(pointer));
  }

  lemma NormalizedPaths(pointers: seq<string>)
    requires NormalizedPointers(pointers).Some?
    ensures forall t :: t in AllTokens(NormalizedPointers(pointers).value) <==> t in Paths(pointers)
  {
    hide SortedKeys, TrimSpace, Parse, Tokens;
    var sorted := NormalizedPointers(pointers).value;
    forall p | p in pointers
      ensures Tokens(p) in AllTokens(sorted)
    {
      TokensOfTrimmed(p);
      assert TrimSpace(p) in sorted;
      var i :| 0 <= i < |sorted| && sorted[i] == TrimSpace(p);
      assert AllTokens(sorted)[i] == Tokens(p);
    }
    forall i | 0 <= i < |sorted|
      ensures Tokens(sorted[i]) in Paths(pointers)
    {
      assert sorted[i] in sorted;
      var p :| p in pointers && TrimSpace(p) == sorted[i];
      TokensOfTrimmed(p);
    }
  }

  /** Excluding object-key pointers depends on nothing but the set of paths. */
  lemma ExcludeIsWithout(v: Value, pointers: seq<string>)
    requires NormalizedPointers(pointers).Some? && forall p :: p in Paths(pointers) ==> KeysOnly(p)
    ensures Excluded(v, pointers) == Some(Without(v, Paths(pointers)))
  {
    hide NormalizedPointers, Without, Tokens, Paths, DeleteAll, KeysOnly;
    var sorted := NormalizedPointers(pointers).value;
    NormalizedPaths(pointers);
    var paths := AllTokens(sorted);
    DeleteAllIsWithout(v, paths);
    assert (set p | p in paths) == Paths(pointers);
    forall i | 0 <= i < |sorted|
      ensures sorted[i] != ""
    {
      assert KeysOnly(paths[i]);
      KeysHaveTokens(sorted[i]);
    }
  }

  lemma KeysHaveTokens(pointer: string)
    requires KeysOnly(Tokens(pointer))
    ensures pointer != ""
  {
    hide IsSpace;
  }

  /** It is idempotent. */
  lemma ExcludeTwice(v: Value, pointers: seq<string>)
    requires NormalizedPointers(pointers).Some? && forall p :: p in Paths(pointers) ==> KeysOnly(p)
    ensures Excluded(Excluded(v, pointers).value, pointers) == Excluded(v, pointers)
  {
    hide NormalizedPointers, Excluded;
    ExcludeIsWithout(v, pointers);
    var w := Without(v, Paths(pointers));
    ExcludeIsWithout(w, pointers);
    WithoutTwice(v, Paths(pointers));
  }

  lemma {:induction false} WithoutTwice(v: Value, paths: set<seq<string>>)
    ensures Without(Without(v, paths), paths) == Without(v, paths)
  {
    if v.Obj? {
      var w := Without(v, paths);
      forall k | k in w.fields
        ensures Without(w.fields[k], Tails(paths, k)) == w.fields[k] && !Gone(w.fields[k], Tails(paths, k))
      {
        WithoutTwice(v.fields[k], Tails(paths, k));
      }
      assert Without(w, paths).fields == w.fields;
    }
  }

  // ----- what exclusion leaves -----

  /** q is an excluded path or lies below one. */
  ghost predicate Removed(paths: set<seq<string>>, q: seq<string>) {
    exists p :: p in paths && p <= q
  }

  /** q leads to an excluded path. */
  ghost predicate LeadsTo(paths: set<seq<string>>, q: seq<string>) {
    exists p :: p in paths && q <= p
  }

  function Rests(paths: set<seq<string>>, q: seq<string>): set<seq<string>> {
    set p | p in paths && q <= p :: p[|q|..]
  }

  lemma UnderKey(p: seq<string>, q: seq<string>)
    requires p != [] && q != []
    ensures q <= p <==> p[0] == q[0] && q[1..] <= p[1..]
    ensures q <= p ==> p[|q|..] == p[1..][|q| - 1..]
  {
    assert p == [p[0]] + p[1..] && q == [q[0]] + q[1..];
  }

  lemma TailBack(paths: set<seq<string>>, key: string, t: seq<string>)
    ensures t in Tails(paths, key) <==> [key] + t in paths
  {
    assert ([key] + t)[1..] == t;
    if t in Tails(paths, key) {
      var p :| p in paths && p != [] && p[0] == key && p[1..] == t;
      assert p == [key] + t;
    }
  }

  lemma RemovedStep(paths: set<seq<string>>, q: seq<string>)
    requires q != []
    ensures Removed(paths, q) <==> [] in paths || Removed(Tails(paths, q[0]), q[1..])
  {
    var key, tail := q[0], q[1..];
    if p :| p in paths && p <= q && p != [] {
      UnderKey(q, p);
      assert p[1..] in Tails(paths, key);
    }
    if t :| t in Tails(paths, key) && t <= tail {
      TailBack(paths, key, t);
      UnderKey(q, [key] + t);
    }
    if [] in paths {
      assert [] <= q;
    }
  }

  lemma LeadsToStep(paths: set<seq<string>>, q: seq<string>)
    requires q != []
    ensures LeadsTo(paths, q) <==> LeadsTo(Tails(paths, q[0]), q[1..])
  {
    var key, tail := q[0], q[1..];
    if p :| p in paths && q <= p {
      UnderKey(p, q);
      assert p[1..] in Tails(paths, key);
    }
    if t :| t in Tails(paths, key) && tail <= t {
      TailBack(paths, key, t);
      UnderKey([key] + t, q);
    }
  }

  lemma RestsStep(paths: set<seq<string>>, q: seq<string>)
    requires q != []
    ensures Rests(paths, q) == Rests(Tails(paths, q[0]), q[1..])
  {
    var key, tail := q[0], q[1..];
    forall r | r in Rests(paths, q)
      ensures r in Rests(Tails(paths, key), tail)
    {
      var p :| p in paths && q <= p && p[|q|..] == r;
      UnderKey(p, q);
      assert p[1..] in Tails(paths, key);
    }
    forall r | r in Rests(Tails(paths, key), tail)
      ensures r in Rests(paths, q)
    {
      var t :| t in Tails(paths, key) && tail <= t && t[|tail|..] == r;
      TailBack(paths, key, t);
      UnderKey([key] + t, q);
    }
  }

  /** What is found at q afterwards. */
  lemma {:induction false} LookupWithout(v: Value, paths: set<seq<string>>, q: seq<string>)
    requires forall p :: p in paths ==> KeysOnly(p)
    ensures Lookup(Without(v, paths), q).Some? <==>
              Lookup(v, q).Some? && !Removed(paths, q) && !(q != [] && Lookup(v, q) == Some(Null) && LeadsTo(paths, q))
    ensures Lookup(Without(v, paths), q).Some? ==>
              Lookup(Without(v, paths), q).value == Without(Lookup(v, q).value, Rests(paths, q))
    decreases q
  {
    if q == [] {
      assert forall p :: p in paths ==> p[0..] == p;
      assert Rests(paths, q) == paths;
      assert !Removed(paths, q);
    } else {
      RestsStep(paths, q);
      RemovedStep(paths, q);
      LeadsToStep(paths, q);
      var key, tails := q[0], Tails(paths, q[0]);
      if v.Arr? && ParseIndex(key).Some? {
        NoIndexTails(paths, key);
        NothingFrom(q[1..]);
        if Lookup(v, q).Some? {
          WithoutNothing(Lookup(v, q).value);
        }
      } else if v.Obj? && key in v.fields {
        if [] in tails {
          assert Removed(tails, q[1..]);
        } else if v.fields[key].Null? && tails != {} {
          var t :| t in tails;
          assert q[1..] == [] ==> q[1..] <= t;
        } else {
          TailsAreKeys(paths, key);
          LookupWithout(v.fields[key], tails, q[1..]);
        }
      }
    }
  }

  lemma NoIndexTails(paths: set<seq<string>>, key: string)
    requires ParseIndex(key).Some? && forall p :: p in paths ==> KeysOnly(p)
    ensures Tails(paths, key) == {}
  {
    forall p | p in paths && p != []
      ensures p[0] != key
    {
      assert p[0] in p;
    }
  }

  lemma NothingFrom(q: seq<string>)
    ensures !Removed({}, q) && !LeadsTo({}, q) && Rests({}, q) == {}
  {
  }

  lemma TailsAreKeys(paths: set<seq<string>>, key: string)
    requires [] !in Tails(paths, key) && forall p :: p in paths ==> KeysOnly(p)
    ensures forall t :: t in Tails(paths, key) ==> KeysOnly(t)
  {
  }

  /** No excluded path runs through a null, other than one that is excluded itself. */
  ghost predicate NoNullAbove(v: Value, paths: set<seq<string>>) {
    forall q :: q != [] && Lookup(v, q) == Some(Null) && LeadsTo(paths, q) ==> Removed(paths, q)
  }

  /** Exclusion removes exactly the subtrees at the given paths if and only if no path runs through a null. */
  lemma ExcludeExactIff(v: Value, paths: set<seq<string>>)
    requires forall p :: p in paths ==> KeysOnly(p)
    ensures (forall q :: Lookup(Without(v, paths), q).Some? <==> Lookup(v, q).Some? && !Removed(paths, q)) <==>
              NoNullAbove(v, paths)
  {
    hide Without, Lookup, KeysOnly;
    forall q
      ensures Lookup(Without(v, paths), q).Some? <==>
                Lookup(v, q).Some? && !Removed(paths, q) && !(q != [] && Lookup(v, q) == Some(Null) && LeadsTo(paths, q))
    {
      LookupWithout(v, paths, q);
    }
  }

  /** A path below a null takes the null with it. */
  lemma NullRemoved(key: string, token: string)
    requires ParseIndex(key).None? && ParseIndex(token).None?
    ensures var v, paths := Obj(map[key := Null]), {[key, token]};
            Lookup(v, [key]) == Some(Null) && !Removed(paths, [key]) && Lookup(Without(v, paths), [key]).None? && !NoNullAbove(v, paths)
  {
    hide ParseIndex, Without;
    var v, p := Obj(map[key := Null]), [key, token];
    assert [key] <= p && !(p <= [key]);
    assert [key][1..] == [] && Lookup(v, [key]) == Some(Null);
    assert LeadsTo({p}, [key]);
    LookupWithout(v, {p}, [key]);
  }

  /** What lies aside of every excluded path keeps its value. */
  lemma ExcludeKeepsOthers(v: Value, paths: set<seq<string>>, q: seq<string>)
    requires forall p :: p in paths ==> KeysOnly(p)
    requires Lookup(v, q).Some? && !Removed(paths, q) && !LeadsTo(paths, q)
    ensures Lookup(Without(v, paths), q) == Lookup(v, q)
  {
    hide Without, Lookup, KeysOnly;
    LookupWithout(v, paths, q);
    assert Rests(paths, q) == {};
    WithoutNothing(Lookup(v, q).value);
  }

  /** Array indices do shift: excluding "/0" and "/1" removes the first and the third element, and
      excluding "/0" twice is not excluding it once. */
  lemma ExcludeShiftsIndices(items: seq<Value>, zero: string, one: string)
    requires |items| >= 3 && ParseIndex(zero) == Some(0) && ParseIndex(one) == Some(1)
    ensures DeleteAll(Arr(items), [[zero], [one]]) == Arr([items[1]] + items[3..])
    ensures DeleteAll(Arr(items), [[zero], [zero]]) != DeleteAll(Arr(items), [[zero]])
  {
    hide ParseIndex, DeleteAll, Delete;
    DeleteFirst(items, zero);
    DeleteSecond(items[1..], one);
    assert items[1..][0] == items[1] && items[1..][2..] == items[3..];
    DeleteOne(Arr(items), [zero]);
    DeleteTwo(Arr(items), [zero], [one]);
    DeleteTwo(Arr(items), [zero], [zero]);
    DeleteFirst(items[1..], zero);
    assert |items[1..][1..]| < |items[1..]|;
  }

  lemma DeleteFirst(items: seq<Value>, zero: string)
    requires |items| >= 1 && ParseIndex(zero) == Some(0)
    ensures Delete(Arr(items), [zero]) == Arr(items[1..])
  {
    hide ParseIndex, Delete;
    DeleteItem(items, zero);
    assert items[..0] + items[1..] == items[1..];
  }

  lemma DeleteSecond(items: seq<Value>, one: string)
    requires |items| >= 2 && ParseIndex(one) == Some(1)
    ensures Delete(Arr(items), [one]) == Arr([items[0]] + items[2..])
  {
    hide ParseIndex, Delete;
    DeleteItem(items, one);
    assert items[..1] == [items[0]];
  }

  lemma DeleteItem(items: seq<Value>, token: string)
    requires ParseIndex(token).Some? && ParseIndex(token).value < |items|
    ensures var i := ParseIndex(token).value; Delete(Arr(items), [token]) == Arr(items[..i] + items[i + 1..])
  {
    hide ParseIndex;
  }

  lemma DeleteOne(v: Value, p: seq<string>)
    ensures DeleteAll(v, [p]) == Delete(v, p)
  {
    hide Delete;
    assert [p][..0] == [];
  }

  lemma DeleteTwo(v: Value, p: seq<string>, q: seq<string>)
    ensures DeleteAll(v, [p, q]) == Delete(Delete(v, p), q)
  {
    hide Delete;
    DeleteOne(v, p);
    assert [p, q][..1] == [p];
  }

  // ----- select -----

  /** The result after the first n pointers; pointers that are not found are skipped. */
  function SelectAll(v: Value, paths: seq<seq<string>>, n: nat): Option<Value>
    requires n <= |paths|
  {
    if n == 0 then Some(Null)
    else
      var result :- SelectAll(v, paths, n - 1);
      match Lookup(v, paths[n - 1])
      case Some(found) => Set(result, paths[n - 1], found)
      case None => Some(result)
  }

  function Finished(v: Value, result: Value): Value {
    if !result.Null? then result
    else match v
      case Arr(_) => Arr([])
      case Obj(_) => Obj(map[])
      case _ => Null
  }

  function Selected(v: Value, pointers: seq<string>): Option<Value> {
    var sorted :- NormalizedPointers(pointers);
    if "" in sorted then Some(v)
    else
      var paths := AllTokens(sorted);
      var result :- SelectAll(v, paths, |paths|);
      Some(Finished(v, result))
  }

  lemma {:induction false} SelectStops(v: Value, paths: seq<seq<string>>, n: nat, m: nat)
    requires n <= m <= |paths|
    ensures SelectAll(v, paths, n).None? ==> SelectAll(v, paths, m).None?
  {
    if n < m {
      SelectStops(v, paths, n, m - 1);
    }
  }

  /** The root pointer comes first in the sorted list. */
  lemma RootFirst(pointers: seq<string>)
    requires NormalizedPointers(pointers).Some? && "" in NormalizedPointers(pointers).value
    ensures NormalizedPointers(pointers).value[0] == ""
  {
    hide Parse;
    var sorted := NormalizedPointers(pointers).value;
    var i :| 0 <= i < |sorted| && sorted[i] == "";
    if i > 0 {
      SortedKeysOrdered(TrimmedSet(pointers), 0, i);
    }
  }

  method ApplyFilterPointers(v: Value, pointers: seq<string>) returns (r: Option<Value>)
    ensures r == Selected(v, pointers)
  {
    hide Parse, SortedKeys, TrimSpace, NormalizedPointers, Set, Lookup;
    var sorted := NormalizePointers(pointers);
    if sorted.None? {
      return None;
    }
    var ps := sorted.value;
    var result := Null;
    for i := 0 to |ps|
      invariant "" !in ps[..i]
      invariant SelectAll(v, AllTokens(ps), i) == Some(result)
    {
      var tokens := Tokens(ps[i]);
      SelectStops(v, AllTokens(ps), i + 1, |ps|);
      var found := LookupTokens(v, tokens);
      if "" in ps {
        RootFirst(pointers);
      }
      assert i > 0 ==> ps[0] in ps[..i];
      if ps[i] == "" {
        RootIsFound(v, ps[i]);
        return Some(v);
      }
      assert ps[..i + 1] == ps[..i] + [ps[i]];
      if found.Some? {
        var next := Set(result, tokens, found.value);
        if next.None? {
          return None;
        }
        result := next.value;
      }
    }
    assert ps[..|ps|] == ps;
    r := Some(Finished(v, result));
  }

  lemma RootIsFound(v: Value, pointer: string)
    requires pointer == ""
    ensures Lookup(v, Tokens(pointer)) == Some(v)
  {
    hide IsSpace;
  }

  /** p resolves in v, and its numeric tokens step through arrays only. */
  ghost predicate Shaped(v: Value, p: seq<string>)
    decreases p
  {
    p == [] || (Child(v, p[0]).Some? && (v.Obj? ==> ParseIndex(p[0]).None?) && Shaped(Child(v, p[0]).value, p[1..]))
  }

  /** o is a part of v: fields and trailing elements may be missing, and elements may be null instead. */
  ghost predicate Padded(o: Value, v: Value) {
    o == v ||
    (o.Obj? && v.Obj? && forall k :: k in o.fields ==> k in v.fields && Padded(o.fields[k], v.fields[k])) ||
    (o.Arr? && v.Arr? && |o.items| <= |v.items| &&
     forall i :: 0 <= i < |o.items| ==> o.items[i].Null? || Padded(o.items[i], v.items[i]))
  }

  ghost predicate PartOf(o: Value, v: Value) {
    o.Null? || Padded(o, v)
  }

  /** Copying one more found value into a part of v gives a part of v. */
  lemma {:induction false} CopyFits(o: Value, v: Value, p: seq<string>)
    requires PartOf(o, v) && Shaped(v, p) && Lookup(v, p).Some?
    ensures Set(o, p, Lookup(v, p).value).Some? && Padded(Set(o, p, Lookup(v, p).value).value, v)
    decreases p
  {
    if p != [] {
      var child := Child(v, p[0]).value;
      if v.Arr? {
        var items := Grown(if o.Arr? then o.items else [], ParseIndex(p[0]).value);
        CopyFits(items[ParseIndex(p[0]).value], child, p[1..]);
      } else {
        var fields := if o.Obj? then o.fields else map[];
        CopyFits(if p[0] in fields then fields[p[0]] else Null, child, p[1..]);
      }
    }
  }

  /** Copying a found value to where it was changes nothing. */
  lemma {:induction false} CopyInPlace(v: Value, p: seq<string>)
    requires Shaped(v, p) && Lookup(v, p).Some?
    ensures Set(v, p, Lookup(v, p).value) == Some(v)
    decreases p
  {
    if p != [] {
      CopyInPlace(Child(v, p[0]).value, p[1..]);
      if v.Obj? {
        assert v.fields[p[0] := v.fields[p[0]]] == v.fields;
      } else {
        var i := ParseIndex(p[0]).value;
        assert v.items[i := v.items[i]] == v.items;
      }
    }
  }

  /** It keeps the values that were copied before. */
  lemma {:induction false} CopyKeeps(o: Value, v: Value, p: seq<string>, q: seq<string>)
    requires PartOf(o, v) && Shaped(v, p) && Lookup(v, p).Some? && Shaped(v, q)
    requires Lookup(o, q) == Lookup(v, q) && Lookup(v, q).Some?
    requires Set(o, p, Lookup(v, p).value).Some?
    ensures Lookup(Set(o, p, Lookup(v, p).value).value, q) == Lookup(v, q)
    decreases p
  {
    if q == [] {
      CopyInPlace(v, p);
    } else if p != [] {
      if v.Obj? {
        if p[0] == q[0] {
          CopyKeeps(o.fields[p[0]], v.fields[p[0]], p[1..], q[1..]);
        }
      } else {
        var i, j := ParseIndex(p[0]).value, ParseIndex(q[0]).value;
        if i == j {
          CopyKeeps(o.items[i], v.items[i], p[1..], q[1..]);
        }
      }
    }
  }

  ghost predicate AllShaped(v: Value, paths: seq<seq<string>>) {
    forall i :: 0 <= i < |paths| && Lookup(v, paths[i]).Some? ==> Shaped(v, paths[i])
  }

  lemma {:induction false} SelectAllKeeps(v: Value, paths: seq<seq<string>>, n: nat)
    requires n <= |paths| && AllShaped(v, paths)
    ensures SelectAll(v, paths, n).Some? && PartOf(SelectAll(v, paths, n).value, v)
    ensures forall i :: 0 <= i < n && Lookup(v, paths[i]).Some? ==>
              Lookup(SelectAll(v, paths, n).value, paths[i]) == Lookup(v, paths[i])
  {
    hide Lookup, Set, Padded, Shaped;
    if n > 0 {
      SelectAllKeeps(v, paths, n - 1);
      var o, p := SelectAll(v, paths, n - 1).value, paths[n - 1];
      if Lookup(v, p).Some? {
        CopyFits(o, v, p);
        LookupAfterSet(o, p, Lookup(v, p).value);
        forall i | 0 <= i < n - 1 && Lookup(v, paths[i]).Some?
          ensures Lookup(Set(o, p, Lookup(v, p).value).value, paths[i]) == Lookup(v, paths[i])
        {
          CopyKeeps(o, v, p, paths[i]);
        }
      }
    }
  }

  /** Away from the pointer, Set adds nothing but null padding. */
  lemma {:induction false} SetAddsPadding(root: Value, p: seq<string>, value: Value, q: seq<string>)
    requires Set(root, p, value).Some? && Diverge(p, q)
    ensures var r := Lookup(Set(root, p, value).value, q); r.None? || r == Some(Null) || r == Lookup(root, q)
    decreases p
  {
    var index := ParseIndex(p[0]);
    if index.Some? {
      var items := Grown(if root.Arr? then root.items else [], index.value);
      if ParseIndex(q[0]) == index {
        SetAddsPadding(items[index.value], p[1..], value, q[1..]);
        NothingBelowNull(q[1..]);
      } else if ParseIndex(q[0]).Some? {
        NothingBelowNull(q[1..]);
      }
    } else {
      var fields := if root.Obj? then root.fields else map[];
      if p[0] == q[0] {
        SetAddsPadding(if p[0] in fields then fields[p[0]] else Null, p[1..], value, q[1..]);
        NothingBelowNull(q[1..]);
      }
    }
  }

  lemma NothingBelowNull(q: seq<string>)
    ensures Lookup(Null, q) == if q == [] then Some(Null) else None
  {
  }

  lemma {:induction false} SelectAllOnly(v: Value, paths: seq<seq<string>>, n: nat, q: seq<string>)
    requires n <= |paths| && SelectAll(v, paths, n).Some?
    requires forall i :: 0 <= i < n && Lookup(v, paths[i]).Some? ==> Diverge(paths[i], q)
    ensures var r := Lookup(SelectAll(v, paths, n).value, q); r.None? || r == Some(Null)
  {
    hide Lookup, Set, Diverge;
    if n == 0 {
      NothingBelowNull(q);
    } else {
      SelectAllOnly(v, paths, n - 1, q);
      if Lookup(v, paths[n - 1]).Some? {
        SetAddsPadding(SelectAll(v, paths, n - 1).value, paths[n - 1], Lookup(v, paths[n - 1]).value, q);
      }
    }
  }

  lemma RootPointer(pointers: seq<string>)
    requires NormalizedPointers(pointers).Some?
    ensures "" in NormalizedPointers(pointers).value <==> [] in Paths(pointers)
  {
    hide Tokens, SortedKeys, Parse, TrimSpace;
    if p :| p in pointers && Tokens(p) == [] {
      NoTokens(p);
      assert TrimSpace(p) in TrimmedSet(pointers);
    }
    if "" in TrimmedSet(pointers) {
      var p :| p in pointers && TrimSpace(p) == "";
      NoTokens(p);
      assert Tokens(p) in Paths(pointers);
    }
    if NormalizedPointers(pointers).Some? {
      assert forall p :: p in pointers ==> Parse(TrimSpace(p)).Some?;
    }
  }

  lemma NoTokens(pointer: string)
    requires Parse(TrimSpace(pointer)).Some?
    ensures Tokens(pointer) == [] <==> TrimSpace(pointer) == ""
  {
    hide TrimSpace;
    TrimSpaceTrimmed(pointer);
    TrimSpaceFixed(TrimSpace(pointer));
  }

  lemma Finishing(v: Value)
    ensures PartOf(v, v) && PartOf(Finished(v, Null), v)
  {
  }

  /** Selection of pointers that respect the shape of the payload never fails; every selected
      pointer found in the payload resolves to the same value in the result; and the result is a
      part of the payload, padded with null elements. */
  lemma SelectKeeps(v: Value, pointers: seq<string>)
    requires NormalizedPointers(pointers).Some?
    requires forall p :: p in Paths(pointers) && Lookup(v, p).Some? ==> Shaped(v, p)
    ensures Selected(v, pointers).Some? && PartOf(Selected(v, pointers).value, v)
    ensures forall p :: p in Paths(pointers) && Lookup(v, p).Some? ==> Lookup(Selected(v, pointers).value, p) == Lookup(v, p)
  {
    hide NormalizedPointers, Shaped, Lookup, Paths, Tokens, SelectAll, Padded;
    var sorted := NormalizedPointers(pointers).value;
    RootPointer(pointers);
    NormalizedPaths(pointers);
    var paths := AllTokens(sorted);
    Finishing(v);
    if "" !in sorted {
      SelectAllKeeps(v, paths, |paths|);
      forall p | p in Paths(pointers) && Lookup(v, p).Some?
        ensures Lookup(SelectAll(v, paths, |paths|).value, p) == Lookup(v, p) && p != []
      {
        assert p in paths;
        var i :| 0 <= i < |paths| && paths[i] == p;
      }
      forall p | p != []
        ensures Lookup(Null, p).None?
      {
        NothingBelowNull(p);
      }
    }
  }

  /** Whatever was selected, nothing but null is found away from the pointers that resolve. */
  lemma SelectOnly(v: Value, pointers: seq<string>, q: seq<string>)
    requires Selected(v, pointers).Some? && q != []
    requires forall p :: p in Paths(pointers) && Lookup(v, p).Some? ==> Diverge(p, q)
    ensures Lookup(Selected(v, pointers).value, q).None? || Lookup(Selected(v, pointers).value, q) == Some(Null)
  {
    hide NormalizedPointers, Paths, Diverge, Lookup, Tokens, SelectAll;
    var sorted := NormalizedPointers(pointers).value;
    RootPointer(pointers);
    NormalizedPaths(pointers);
    var paths := AllTokens(sorted);
    if "" in sorted {
      RootDoesNotDiverge(v, q);
      assert false;
    } else {
      assert forall i :: 0 <= i < |paths| ==> paths[i] in paths;
      SelectAllOnly(v, paths, |paths|, q);
      NothingInEmpty(v, q);
    }
  }

  lemma NothingInEmpty(v: Value, q: seq<string>)
    requires q != []
    ensures Lookup(Finished(v, Null), q).None?
  {
  }

  lemma RootDoesNotDiverge(v: Value, q: seq<string>)
    ensures Lookup(v, []).Some? && !Diverge([], q)
  {
  }

  /** A numeric object key is taken for an array index: selecting it turns the object into an
      array, and selecting it after its object fails. */
  lemma NumericKeySelected(key: string, other: string, x: Value)
    requires ParseIndex(key).Some? && ParseIndex(other).None?
    ensures var v := Obj(map[key := x, other := x]);
            SelectAll(v, [[key]], 1).Some? && SelectAll(v, [[key]], 1).value.Arr? &&
            SelectAll(v, [[key], [other]], 2).None? && SelectAll(v, [[other], [key]], 2).None?
  {
    var v := Obj(map[key := x, other := x]);
    SelectFirst(v, [[key]], key, x);
    SelectFirst(v, [[key], [other]], key, x);
    SelectFirst(v, [[other], [key]], other, x);
  }

  lemma SelectFirst(v: Value, paths: seq<seq<string>>, key: string, x: Value)
    requires paths != [] && paths[0] == [key] && v.Obj? && key in v.fields && v.fields[key] == x
    ensures SelectAll(v, paths, 1).Some?
    ensures SelectAll(v, paths, 1).value.Arr? <==> ParseIndex(key).Some?
    ensures SelectAll(v, paths, 1).value.Obj? <==> ParseIndex(key).None?
  {
    hide ParseIndex;
    assert [key][1..] == [];
    assert forall y :: Set(y, [key][1..], x) == Some(x);
    assert Set(Null, [key], x).Some?;
    assert Lookup(x, [key][1..]) == Some(x);
    assert Lookup(v, [key]) == Some(x);
    assert SelectAll(v, paths, 0) == Some(Null);
  }

  // ----- exactly when selection gives a part of the payload -----

  /** Array indices are written in the one way that has no leading zeros. */
  predicate Canonical(p: seq<string>) {
    forall t :: t in p && ParseIndex(t).Some? ==> t == Itoa(ParseIndex(t).value)
  }

  /** q names a place at or above the one that p names. */
  predicate AtOrAbove(q: seq<string>, p: seq<string>) {
    |q| <= |p| && forall i :: 0 <= i < |q| ==> SameStep(q[i], p[i])
  }

  /** The place where a pointer that does not respect the shape steps into an object by an index. */
  lemma {:induction false} Misstep(v: Value, p: seq<string>) returns (n: nat)
    requires Lookup(v, p).Some? && !Shaped(v, p)
    ensures n < |p| && Lookup(v, p[..n]).Some? && Lookup(v, p[..n]).value.Obj? && ParseIndex(p[n]).Some?
    decreases p
  {
    hide ParseIndex;
    if v.Obj? && ParseIndex(p[0]).Some? {
      n := 0;
      assert p[..0] == [];
    } else {
      var m := Misstep(Child(v, p[0]).value, p[1..]);
      n := m + 1;
      assert p[..n][1..] == p[1..][..m] && p[..n][0] == p[0];
    }
  }

  /** Set makes an array of whatever an index steps into. */
  lemma {:induction false} SetMakesArray(root: Value, p: seq<string>, value: Value, n: nat)
    requires n < |p| && ParseIndex(p[n]).Some? && Set(root, p, value).Some?
    ensures var r := Lookup(Set(root, p, value).value, p[..n]); r.Some? && r.value.Arr?
    decreases p
  {
    hide ParseIndex;
    if n == 0 {
      assert p[..0] == [];
    } else {
      assert p[..n][1..] == p[1..][..n - 1] && p[..n][0] == p[0];
      var index := ParseIndex(p[0]);
      if index.Some? {
        var items := Grown(if root.Arr? then root.items else [], index.value);
        SetMakesArray(items[index.value], p[1..], value, n - 1);
      } else {
        var fields := if root.Obj? then root.fields else map[];
        SetMakesArray(if p[0] in fields then fields[p[0]] else Null, p[1..], value, n - 1);
      }
    }
  }

  /** An array stays one unless something is set at or above it. */
  lemma {:induction false} ArrayStays(root: Value, q: seq<string>, value: Value, place: seq<string>)
    requires Set(root, q, value).Some? && !AtOrAbove(q, place)
    requires Lookup(root, place).Some? && Lookup(root, place).value.Arr?
    ensures var r := Lookup(Set(root, q, value).value, place); r.Some? && r.value.Arr?
    decreases place
  {
    hide ParseIndex;
    if place != [] {
      if SameStep(q[0], place[0]) {
        assert !AtOrAbove(q[1..], place[1..]) by { AtOrAboveStep(q, place); }
        if root.Arr? {
          ArrayStays(root.items[ParseIndex(q[0]).value], q[1..], value, place[1..]);
        } else {
          ArrayStays(root.fields[q[0]], q[1..], value, place[1..]);
        }
      } else {
        assert Diverge(q, place);
        SetKeepsOthers(root, q, value, place);
      }
    }
  }

  lemma AtOrAboveStep(q: seq<string>, p: seq<string>)
    requires q != [] && p != [] && SameStep(q[0], p[0])
    ensures AtOrAbove(q, p) <==> AtOrAbove(q[1..], p[1..])
  {
    hide SameStep;
    if AtOrAbove(q[1..], p[1..]) {
      forall i | 0 <= i < |q|
        ensures SameStep(q[i], p[i])
      {
        assert i > 0 ==> q[i] == q[1..][i - 1] && p[i] == p[1..][i - 1];
      }
    }
  }

  /** What a part of v holds at a place is null or a part of what v holds there. */
  lemma {:induction false} PaddedAt(o: Value, v: Value, place: seq<string>)
    requires Padded(o, v) && Lookup(o, place).Some? && !Lookup(o, place).value.Null?
    ensures Lookup(v, place).Some? && Padded(Lookup(o, place).value, Lookup(v, place).value)
    decreases place
  {
    hide ParseIndex;
    if place != [] {
      if o.Obj? {
        PaddedAt(o.fields[place[0]], v.fields[place[0]], place[1..]);
      } else {
        var i := ParseIndex(place[0]).value;
        NothingBelowNull(place[1..]);
        PaddedAt(o.items[i], v.items[i], place[1..]);
      }
    }
  }

  /** Later pointers that are not at or above it leave the array that a misstep has made. */
  lemma {:induction false} ArrayRemains(v: Value, paths: seq<seq<string>>, i: nat, m: nat, n: nat)
    requires i < m <= |paths| && n < |paths[i]| && ParseIndex(paths[i][n]).Some? && Lookup(v, paths[i]).Some?
    requires forall j :: i < j < m ==> !AtOrAbove(paths[j], paths[i][..n])
    requires SelectAll(v, paths, m).Some?
    ensures var r := Lookup(SelectAll(v, paths, m).value, paths[i][..n]); r.Some? && r.value.Arr?
    decreases m
  {
    hide Lookup, Set, AtOrAbove, ParseIndex;
    var o := SelectAll(v, paths, m - 1).value;
    if m == i + 1 {
      SetMakesArray(o, paths[i], Lookup(v, paths[i]).value, n);
    } else {
      ArrayRemains(v, paths, i, m - 1, n);
      if Lookup(v, paths[m - 1]).Some? {
        ArrayStays(o, paths[m - 1], Lookup(v, paths[m - 1]).value, paths[i][..n]);
      }
    }
  }

  lemma {:induction false} PrintsAsPrefix(a: seq<string>, b: seq<string>)
    requires a <= b
    ensures Print(a) <= Print(b)
  {
    hide EscapeToken;
    if a != [] {
      assert a[0] == b[0] && a[1..] <= b[1..];
      PrintsAsPrefix(a[1..], b[1..]);
    }
  }

  lemma {:induction false} PrefixIsLess(a: string, b: string)
    requires a <= b
    ensures StringLe(a, b)
  {
    if a != [] {
      PrefixIsLess(a[1..], b[1..]);
    }
  }

  lemma CanonicalSteps(q: seq<string>, p: seq<string>)
    requires Canonical(q) && Canonical(p) && AtOrAbove(q, p)
    ensures q <= p
  {
    hide ParseIndex, Itoa;
    forall i | 0 <= i < |q|
      ensures q[i] == p[i]
    {
      assert q[i] in q && p[i] in p && SameStep(q[i], p[i]);
    }
  }

  /** A pointer to a place above another one comes before it. */
  lemma AboveComesFirst(pointers: seq<string>, i: nat, j: nat, n: nat)
    requires NormalizedPointers(pointers).Some? && i < j < |NormalizedPointers(pointers).value|
    requires n < |Tokens(NormalizedPointers(pointers).value[i])|
    requires Canonical(Tokens(NormalizedPointers(pointers).value[i])) && Canonical(Tokens(NormalizedPointers(pointers).value[j]))
    ensures !AtOrAbove(Tokens(NormalizedPointers(pointers).value[j]), Tokens(NormalizedPointers(pointers).value[i])[..n])
  {
    hide Parse, TrimSpace, Canonical, AtOrAbove;
    var sorted := NormalizedPointers(pointers).value;
    var p, q := Tokens(sorted[i]), Tokens(sorted[j]);
    if AtOrAbove(q, p[..n]) {
      CanonicalFront(p, n);
      CanonicalSteps(q, p[..n]);
      SortedPrints(pointers, i);
      SortedPrints(pointers, j);
      assert q <= p;
      PrintsAsPrefix(q, p);
      PrefixIsLess(sorted[j], sorted[i]);
      SortedKeysOrdered(TrimmedSet(pointers), i, j);
      StringLeAntisymmetric(sorted[i], sorted[j]);
    }
  }

  lemma CanonicalFront(p: seq<string>, n: nat)
    requires Canonical(p) && n <= |p|
    ensures Canonical(p[..n])
  {
  }

  lemma SortedPrints(pointers: seq<string>, i: nat)
    requires NormalizedPointers(pointers).Some? && i < |NormalizedPointers(pointers).value|
    ensures Print(Tokens(NormalizedPointers(pointers).value[i])) == NormalizedPointers(pointers).value[i]
  {
    hide Parse, TrimSpace, Print;
    var sorted := NormalizedPointers(pointers).value;
    assert sorted[i] in sorted;
    var p :| p in pointers && TrimSpace(p) == sorted[i];
    PrintOfParse(sorted[i]);
    TrimSpaceTrimmed(p);
    TrimSpaceFixed(sorted[i]);
  }

  /** A pointer that resolves but does not respect the shape spoils the result. */
  lemma MisstepSpoils(v: Value, pointers: seq<string>, p: seq<string>)
    requires NormalizedPointers(pointers).Some? && forall q :: q in Paths(pointers) ==> Canonical(q)
    requires [] !in Paths(pointers) && p in Paths(pointers) && Lookup(v, p).Some? && !Shaped(v, p)
    ensures Selected(v, pointers).None? || !PartOf(Selected(v, pointers).value, v)
  {
    hide NormalizedPointers, Paths, Tokens, Canonical, AtOrAbove, Shaped, Lookup, Padded, ParseIndex, SelectAll;
    RootPointer(pointers);
    NormalizedPaths(pointers);
    var sorted := NormalizedPointers(pointers).value;
    var paths := AllTokens(sorted);
    var n := Misstep(v, p);
    var i :| 0 <= i < |paths| && paths[i] == p;
    forall j | i < j < |paths|
      ensures !AtOrAbove(paths[j], paths[i][..n])
    {
      assert paths[i] in paths && paths[j] in paths;
      AboveComesFirst(pointers, i, j, n);
    }
    if SelectAll(v, paths, |paths|).Some? {
      ArrayRemains(v, paths, i, |paths|, n);
      ArrayIsNoPart(SelectAll(v, paths, |paths|).value, v, p[..n]);
    }
  }

  lemma ArrayIsNoPart(o: Value, v: Value, place: seq<string>)
    requires Lookup(o, place).Some? && Lookup(o, place).value.Arr?
    requires Lookup(v, place).Some? && Lookup(v, place).value.Obj?
    ensures !PartOf(o, v) && !o.Null?
  {
    NothingBelowNull(place);
    if Padded(o, v) {
      PaddedAt(o, v, place);
    }
  }

  /** With array indices written in one way, selection succeeds with a part of the payload if and
      only if the root is selected or every pointer that resolves respects the shape. */
  lemma SelectIff(v: Value, pointers: seq<string>)
    requires NormalizedPointers(pointers).Some? && forall p :: p in Paths(pointers) ==> Canonical(p)
    ensures Selected(v, pointers).Some? && PartOf(Selected(v, pointers).value, v) <==>
              [] in Paths(pointers) || forall p :: p in Paths(pointers) && Lookup(v, p).Some? ==> Shaped(v, p)
  {
    hide NormalizedPointers, Paths, Canonical, Shaped, Lookup, PartOf, SelectAll, AllTokens;
    if [] in Paths(pointers) {
      RootPointer(pointers);
      Finishing(v);
    } else if p :| p in Paths(pointers) && Lookup(v, p).Some? && !Shaped(v, p) {
      MisstepSpoils(v, pointers, p);
    } else {
      SelectKeeps(v, pointers);
    }
  }

  // ----- exclusion with array indices -----

  /** The rest of the paths that step to the given element. */
  function TailsAt(paths: set<seq<string>>, i: nat): set<seq<string>> {
    set p | p in paths && p != [] && ParseIndex(p[0]) == Some(i) :: p[1..]
  }

  /** The rest of the paths that step to the given field; an index never does. */
  function TailsUnder(paths: set<seq<string>>, key: string): set<seq<string>> {
    if ParseIndex(key).Some? then {} else Tails(paths, key)
  }

  /** The payload without the subtrees at the given paths: elements go where they are, and fields
      as in Without. */
  function Pruned(v: Value, paths: set<seq<string>>): Value
    decreases v, 0
  {
    match v
    case Obj(fields) =>
      Obj(map k | k in fields && !Gone(fields[k], TailsUnder(paths, k)) :: Pruned(fields[k], TailsUnder(paths, k)))
    case Arr(items) => Arr(PrunedItems(v, |items|, paths))
    case _ => v
  }

  function PrunedItems(v: Value, n: nat, paths: set<seq<string>>): seq<Value>
    requires v.Arr? && n <= |v.items|
    decreases v, 0, n
  {
    if n == 0 then []
    else
      PrunedItems(v, n - 1, paths) +
      if [] in TailsAt(paths, n - 1) then [] else [Pruned(v.items[n - 1], TailsAt(paths, n - 1))]
  }

  /** No path deletes, in an array that p passes through, the element that p steps to or one before
      it; below a field that is deleted anything goes. */
  ghost predicate Clear(paths: set<seq<string>>, p: seq<string>)
    decreases p
  {
    p == [] ||
    if ParseIndex(p[0]).Some? then
      (forall i: nat :: i <= ParseIndex(p[0]).value ==> [] !in TailsAt(paths, i)) &&
      Clear(TailsAt(paths, ParseIndex(p[0]).value), p[1..])
    else [] in Tails(paths, p[0]) || Clear(Tails(paths, p[0]), p[1..])
  }

  lemma TailsAtGrow(paths: set<seq<string>>, p: seq<string>, i: nat)
    requires p != []
    ensures TailsAt(paths + {p}, i) == if ParseIndex(p[0]) == Some(i) then TailsAt(paths, i) + {p[1..]} else TailsAt(paths, i)
  {
    hide ParseIndex;
  }

  /** Up to an index below which nothing is deleted, elements stay in their places. */
  lemma {:induction false} PrefixInPlace(v: Value, n: nat, paths: set<seq<string>>)
    requires v.Arr? && n <= |v.items| && forall i: nat :: i < n ==> [] !in TailsAt(paths, i)
    ensures |PrunedItems(v, n, paths)| == n
    ensures forall i :: 0 <= i < n ==> PrunedItems(v, n, paths)[i] == Pruned(v.items[i], TailsAt(paths, i))
  {
    hide TailsAt;
    if n > 0 {
      PrefixInPlace(v, n - 1, paths);
    }
  }

  lemma {:induction false} SameItems(v: Value, n: nat, a: set<seq<string>>, b: set<seq<string>>)
    requires v.Arr? && n <= |v.items| && forall i: nat :: i < n ==> TailsAt(a, i) == TailsAt(b, i)
    ensures PrunedItems(v, n, a) == PrunedItems(v, n, b)
  {
    hide TailsAt;
    if n > 0 {
      SameItems(v, n - 1, a, b);
    }
  }

  /** The elements after one more path that steps to the element b. */
  function Edited(items: seq<Value>, b: nat, p: seq<string>, child: Value): seq<Value>
    requires b < |items|
  {
    if |p| == 1 then items[..b] + items[b + 1..] else items[b := child]
  }

  lemma EditedAppend(items: seq<Value>, more: seq<Value>, b: nat, p: seq<string>, child: Value)
    requires b < |items|
    ensures Edited(items + more, b, p, child) == Edited(items, b, p, child) + more
  {
    if |p| == 1 {
      assert (items + more)[..b] == items[..b];
      assert (items + more)[b + 1..] == items[b + 1..] + more;
      assert items[..b] + (items[b + 1..] + more) == items[..b] + items[b + 1..] + more;
    } else {
      assert (items + more)[b := child] == items[b := child] + more;
    }
  }

  lemma LastItemEdited(v: Value, paths: set<seq<string>>, p: seq<string>, b: nat)
    requires v.Arr? && p != [] && ParseIndex(p[0]) == Some(b) && b < |v.items|
    requires forall i: nat :: i <= b ==> [] !in TailsAt(paths, i)
    ensures var items := PrunedItems(v, b + 1, paths);
            b < |items| && items[b] == Pruned(v.items[b], TailsAt(paths, b)) &&
            PrunedItems(v, b + 1, paths + {p}) == Edited(items, b, p, Pruned(v.items[b], TailsAt(paths, b) + {p[1..]}))
  {
    hide ParseIndex, TailsAt, Pruned;
    var q := paths + {p};
    forall i: nat
      ensures TailsAt(q, i) == if i == b then TailsAt(paths, i) + {p[1..]} else TailsAt(paths, i)
    {
      TailsAtGrow(paths, p, i);
    }
    PrefixInPlace(v, b, paths);
    SameItems(v, b, paths, q);
    var before := PrunedItems(v, b, paths);
    var items := before + [Pruned(v.items[b], TailsAt(paths, b))];
    assert items[..b] == before && items[b + 1..] == [] && before + [] == before;
    assert |p| == 1 <==> p[1..] == [];
  }

  /** One more path changes the element that it steps to and no other one. */
  lemma {:induction false} OneMoreItem(v: Value, n: nat, paths: set<seq<string>>, p: seq<string>)
    requires v.Arr? && p != [] && ParseIndex(p[0]).Some? && ParseIndex(p[0]).value < n <= |v.items|
    requires forall i: nat :: i <= ParseIndex(p[0]).value ==> [] !in TailsAt(paths, i)
    ensures var b, items := ParseIndex(p[0]).value, PrunedItems(v, n, paths);
            b < |items| && items[b] == Pruned(v.items[b], TailsAt(paths, b)) &&
            PrunedItems(v, n, paths + {p}) == Edited(items, b, p, Pruned(v.items[b], TailsAt(paths, b) + {p[1..]}))
  {
    hide ParseIndex, TailsAt, Pruned, Edited;
    var b := ParseIndex(p[0]).value;
    if n == b + 1 {
      LastItemEdited(v, paths, p, b);
    } else {
      OneMoreItem(v, n - 1, paths, p);
      TailsAtGrow(paths, p, n - 1);
      var more := if [] in TailsAt(paths, n - 1) then [] else [Pruned(v.items[n - 1], TailsAt(paths, n - 1))];
      EditedAppend(PrunedItems(v, n - 1, paths), more, b, p, Pruned(v.items[b], TailsAt(paths, b) + {p[1..]}));
    }
  }

  /** Deleting one more path that is clear of the earlier ones. */
  lemma {:induction false} DeletePruned(v: Value, paths: set<seq<string>>, p: seq<string>)
    requires p != [] && Clear(paths, p)
    ensures Delete(Pruned(v, paths), p) == Pruned(v, paths + {p})
    decreases p
  {
    match v
    case Arr(items) => DeletePrunedItem(v, paths, p);
    case Obj(fields) => DeletePrunedField(v, paths, p);
    case _ =>
  }

  lemma DeleteAtIndex(items: seq<Value>, p: seq<string>)
    requires p != [] && ParseIndex(p[0]).Some?
    ensures var b := ParseIndex(p[0]).value;
            Delete(Arr(items), p) ==
            if b >= |items| then Arr(items)
            else if |p| == 1 then Arr(items[..b] + items[b + 1..])
            else Arr(items[b := Delete(items[b], p[1..])])
  {
    hide ParseIndex;
  }

  lemma {:induction false} PrunedNoLonger(v: Value, n: nat, paths: set<seq<string>>)
    requires v.Arr? && n <= |v.items|
    ensures |PrunedItems(v, n, paths)| <= n
  {
    hide TailsAt, Pruned;
    if n > 0 {
      PrunedNoLonger(v, n - 1, paths);
    }
  }

  lemma DeletePrunedItem(v: Value, paths: set<seq<string>>, p: seq<string>)
    requires v.Arr? && p != [] && Clear(paths, p)
    ensures Delete(Pruned(v, paths), p) == Pruned(v, paths + {p})
    decreases p, 0
  {
    hide ParseIndex, TailsAt, Delete;
    var n := |v.items|;
    var items := PrunedItems(v, n, paths);
    forall i: nat
      ensures TailsAt(paths + {p}, i) == if ParseIndex(p[0]) == Some(i) then TailsAt(paths, i) + {p[1..]} else TailsAt(paths, i)
    {
      TailsAtGrow(paths, p, i);
    }
    PrunedNoLonger(v, n, paths);
    if ParseIndex(p[0]).None? {
      SameItems(v, n, paths, paths + {p});
      DeleteFromOther(Arr(items), p);
    } else {
      var b := ParseIndex(p[0]).value;
      DeleteAtIndex(items, p);
      if b >= n {
        SameItems(v, n, paths, paths + {p});
      } else {
        OneMoreItem(v, n, paths, p);
        if |p| > 1 {
          DeletePruned(v.items[b], TailsAt(paths, b), p[1..]);
        }
      }
    }
  }

  lemma DeleteFromOther(v: Value, p: seq<string>)
    requires p != [] && (if ParseIndex(p[0]).Some? then !v.Arr? else !v.Obj?)
    ensures Delete(v, p) == v
  {
    hide ParseIndex;
  }

  lemma TailsUnderGrow(paths: set<seq<string>>, p: seq<string>, key: string)
    requires p != []
    ensures TailsUnder(paths + {p}, key) ==
            if p[0] == key && ParseIndex(key).None? then TailsUnder(paths, key) + {p[1..]} else TailsUnder(paths, key)
  {
    hide ParseIndex, Tails;
    TailsGrow(paths, p, key);
  }

  lemma DeletePrunedField(v: Value, paths: set<seq<string>>, p: seq<string>)
    requires v.Obj? && p != [] && Clear(paths, p)
    ensures Delete(Pruned(v, paths), p) == Pruned(v, paths + {p})
    decreases p, 0
  {
    hide ParseIndex, TailsUnder, Delete, Pruned, Clear;
    var key := p[0];
    var w, w' := Pruned(v, paths), Pruned(v, paths + {p});
    if ParseIndex(key).None? {
      ClearStep(paths, p);
    }
    forall k
      ensures TailsUnder(paths + {p}, k) ==
              if p[0] == k && ParseIndex(k).None? then TailsUnder(paths, k) + {p[1..]} else TailsUnder(paths, k)
      ensures w.Obj? && w'.Obj? && (k in w.fields <==> k in v.fields && !Gone(v.fields[k], TailsUnder(paths, k)))
      ensures k in w'.fields <==> k in v.fields && !Gone(v.fields[k], TailsUnder(paths + {p}, k))
      ensures k in w.fields ==> w.fields[k] == Pruned(v.fields[k], TailsUnder(paths, k))
      ensures k in w'.fields ==> w'.fields[k] == Pruned(v.fields[k], TailsUnder(paths + {p}, k))
    {
      TailsUnderGrow(paths, p, k);
      PrunedField(v, paths, k);
      PrunedField(v, paths + {p}, k);
    }
    if ParseIndex(key).Some? {
      DeleteFromOther(w, p);
      assert w.fields == w'.fields;
    } else {
      DeleteAtKey(w.fields, p);
      if p[1..] != [] && key in v.fields && [] !in TailsUnder(paths, key) {
        DeletePruned(v.fields[key], TailsUnder(paths, key), p[1..]);
        PrunedNull(v.fields[key], TailsUnder(paths + {p}, key));
      }
      assert |p| == 1 <==> p[1..] == [];
      assert Delete(w, p).fields == w'.fields;
    }
  }

  lemma ClearStep(paths: set<seq<string>>, p: seq<string>)
    requires p != [] && Clear(paths, p) && ParseIndex(p[0]).None?
    ensures [] in TailsUnder(paths, p[0]) || Clear(TailsUnder(paths, p[0]), p[1..])
  {
    hide ParseIndex;
  }

  lemma PrunedField(v: Value, paths: set<seq<string>>, k: string)
    requires v.Obj?
    ensures var w := Pruned(v, paths);
            w.Obj? && (k in w.fields <==> k in v.fields && !Gone(v.fields[k], TailsUnder(paths, k))) &&
            (k in w.fields ==> w.fields[k] == Pruned(v.fields[k], TailsUnder(paths, k)))
  {
    hide TailsUnder, Gone;
  }

  lemma PrunedNull(v: Value, paths: set<seq<string>>)
    ensures Pruned(v, paths).Null? <==> v.Null?
  {
    hide TailsUnder, Gone, PrunedItems;
  }

  /** Each path is clear of the ones before it. */
  ghost predicate ClearInOrder(paths: seq<seq<string>>) {
    forall i :: 0 <= i < |paths| ==> paths[i] != [] && Clear(Earlier(paths, i), paths[i])
  }

  function Earlier(paths: seq<seq<string>>, i: nat): set<seq<string>>
    requires i <= |paths|
  {
    set p | p in paths[..i]
  }

  lemma {:induction false} PrunedNothing(v: Value)
    ensures Pruned(v, {}) == v
    decreases v, 0
  {
    hide ParseIndex;
    match v
    case Obj(fields) =>
      forall k | k in fields
        ensures TailsUnder({}, k) == {} && Pruned(fields[k], {}) == fields[k]
      {
        PrunedNothing(fields[k]);
      }
    case Arr(items) =>
      forall i: nat | i < |items|
        ensures TailsAt({}, i) == {} && Pruned(items[i], {}) == items[i]
      {
        PrunedNothing(items[i]);
      }
      PrefixInPlace(v, |items|, {});
    case _ =>
  }

  /** Deletions, array indices included, remove exactly the set of their paths if each path is
      clear of the ones before it. */
  lemma {:induction false} DeleteAllIsPruned(v: Value, paths: seq<seq<string>>)
    requires ClearInOrder(paths)
    ensures DeleteAll(v, paths) == Pruned(v, set p | p in paths)
  {
    hide Clear, Pruned, Delete, ClearInOrder;
    if paths == [] {
      PrunedNothing(v);
      assert (set p | p in paths) == {};
    } else {
      var n := |paths| - 1;
      var front := paths[..n];
      var before := set p | p in front;
      LastIsClear(paths);
      DeleteAllIsPruned(v, front);
      DeletePruned(v, before, paths[n]);
      assert paths == front + [paths[n]];
      assert (set p | p in paths) == before + {paths[n]};
    }
  }

  lemma LastIsClear(paths: seq<seq<string>>)
    requires paths != [] && ClearInOrder(paths)
    ensures var n := |paths| - 1;
            ClearInOrder(paths[..n]) && paths[n] != [] && Clear((set p | p in paths[..n]), paths[n])
  {
    hide Clear;
    var n := |paths| - 1;
    forall i | 0 <= i < n
      ensures Earlier(paths[..n], i) == Earlier(paths, i)
    {
      assert paths[..n][..i] == paths[..i];
    }
    assert Earlier(paths, n) == set p | p in paths[..n];
  }

  /** So does exclusion, in the sorted order of its pointers. */
  lemma ExcludeIsPruned(v: Value, pointers: seq<string>)
    requires NormalizedPointers(pointers).Some? && ClearInOrder(AllTokens(NormalizedPointers(pointers).value))
    ensures Excluded(v, pointers) == Some(Pruned(v, Paths(pointers)))
  {
    hide NormalizedPointers, Pruned, Tokens, Paths, DeleteAll, Clear;
    var sorted := NormalizedPointers(pointers).value;
    NormalizedPaths(pointers);
    var paths := AllTokens(sorted);
    DeleteAllIsPruned(v, paths);
    assert (set p | p in paths) == Paths(pointers);
    RootPointer(pointers);
  }

  // ----- the root, and nothing found -----

  /** A blank pointer among well-formed ones names the whole payload: excluding leaves null, selecting
      keeps everything. */
  lemma RootPointerTakesAll(v: Value, pointers: seq<string>, blank: string)
    requires blank in pointers && TrimSpace(blank) == "" && forall p :: p in pointers ==> Parse(TrimSpace(p)).Some?
    ensures Excluded(v, pointers) == Some(Null) && Selected(v, pointers) == Some(v)
  {
    hide Parse, TrimSpace, SortedKeys;
    assert "" in TrimmedSet(pointers);
  }

  lemma {:induction false} SelectsNothing(v: Value, paths: seq<seq<string>>, n: nat)
    requires n <= |paths| && forall i :: 0 <= i < |paths| ==> Lookup(v, paths[i]).None?
    ensures SelectAll(v, paths, n) == Some(Null)
  {
    if n > 0 {
      SelectsNothing(v, paths, n - 1);
    }
  }

  /** Where no pointer leads anywhere, selecting gives an empty container of the same kind, or null. */
  lemma NothingSelected(v: Value, pointers: seq<string>)
    requires forall p :: p in pointers ==> Parse(TrimSpace(p)).Some? && Lookup(v, Parse(TrimSpace(p)).value).None?
    ensures Selected(v, pointers) == Some(if v.Arr? then Arr([]) else if v.Obj? then Obj(map[]) else Null)
  {
    hide Parse, TrimSpace, SortedKeys, SelectAll, Lookup;
    var sorted := NormalizedPointers(pointers).value;
    var paths := AllTokens(sorted);
    forall i | 0 <= i < |paths|
      ensures Lookup(v, paths[i]).None? && sorted[i] != ""
    {
      assert sorted[i] in sorted;
      var p :| p in pointers && TrimSpace(p) == sorted[i];
      EmptyPointerFound(v, sorted[i]);
    }
    SelectsNothing(v, paths, |paths|);
  }

  lemma EmptyPointerFound(v: Value, pointer: string)
    ensures pointer == "" ==> Parse(pointer) == Some([]) && Lookup(v, []) == Some(v)
  {
  }
}

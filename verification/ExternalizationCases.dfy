/** What extraction and expansion do to every place of a payload, said about the
    payload alone: which places an entry names, which of them are replaced, and what
    the artifacts hold. */
module ExternalizationCases {
  import opened Payload
  import opened Text
  import opened Externalization
  import opened Numerals
  import JsonPointer

  // ----- the places that a path names -----

  /** q is a place of v that the path names, reached through the wildcard indices w. */
  ghost predicate Instance(v: Value, path: seq<string>, q: seq<string>, w: seq<nat>)
    decreases |path|
  {
    if path == [] then q == [] && w == []
    else if q == [] then false
    else match v
      case Obj(fields) => q[0] == path[0] && q[0] in fields && Instance(fields[q[0]], path[1..], q[1..], w)
      case Arr(items) =>
        exists i :: 0 <= i < |items| && q[0] == Itoa(i) &&
          (if path[0] == "*" then w != [] && w[0] == i && Instance(items[i], path[1..], q[1..], w[1..])
           else ParseArrayIndex(path[0]) == Some(i) && Instance(items[i], path[1..], q[1..], w))
      case _ => false
  }

  /** The tokens that name the array element i: its decimal numerals. */
  lemma IndexTokenIff(token: string, i: nat)
    ensures ParseArrayIndex(token) == Some(i) <==> i <= MAX_INT && exists sign, zeros :: Numeral(token, sign, zeros, i)
  {
    hide Numeral, Atoi;
    AtoiIff(token, i);
  }

  /** m, found below concrete and wild, is a place that the path names and the value there. */
  ghost predicate IsMatch(m: Match, v: Value, path: seq<string>, concrete: seq<string>, wild: seq<nat>) {
    concrete <= m.path && wild <= m.wildcards &&
    Instance(v, path, m.path[|concrete|..], m.wildcards[|wild|..]) &&
    At(v, m.path[|concrete|..]) == Some(m.value)
  }

  lemma FieldMatch(m: Match, v: Value, path: seq<string>, concrete: seq<string>, wild: seq<nat>)
    requires v.Obj? && path != [] && path[0] in v.fields
    ensures IsMatch(m, v, path, concrete, wild) <==>
              IsMatch(m, v.fields[path[0]], path[1..], concrete + [path[0]], wild)
  {
    var longer := concrete + [path[0]];
    if concrete <= m.path && |m.path| > |concrete| {
      var q := m.path[|concrete|..];
      assert q[1..] == m.path[|longer|..] && q == [q[0]] + q[1..];
      AtField(v, path[0], q[1..]);
      assert longer <= m.path <==> q[0] == path[0];
    }
  }

  /** One array step: the index i, which is a wildcard index if the path says "*". */
  lemma ItemMatch(m: Match, v: Value, i: nat, path: seq<string>, concrete: seq<string>, wild: seq<nat>)
    requires v.Arr? && i < |v.items| <= MAX_INT && path != []
    requires path[0] != "*" ==> ParseArrayIndex(path[0]) == Some(i)
    ensures IsMatch(m, v.items[i], path[1..], concrete + [Itoa(i)], if path[0] == "*" then wild + [i] else wild) <==>
              IsMatch(m, v, path, concrete, wild) && m.path[|concrete|] == Itoa(i)
  {
    hide Itoa, ParseArrayIndex, At;
    var longer := concrete + [Itoa(i)];
    if concrete <= m.path && |m.path| > |concrete| && wild <= m.wildcards && m.path[|concrete|] == Itoa(i) {
      var q, w := m.path[|concrete|..], m.wildcards[|wild|..];
      assert q[1..] == m.path[|longer|..] && q == [q[0]] + q[1..];
      AtItem(v, i, q[1..]);
      assert longer <= m.path;
      forall j: nat | Itoa(j) == Itoa(i) ensures j == i { ItoaInjective(i, j); }
      if path[0] == "*" && w != [] && w[0] == i {
        assert w[1..] == m.wildcards[|wild + [i]|..];
        assert wild + [i] <= m.wildcards;
      }
    }
  }

  /** The matches are the places that the path names, each with its value and indices. */
  lemma {:induction false} CollectIsExact(v: Value, path: seq<string>, concrete: seq<string>, wild: seq<nat>, m: Match)
    requires Representable(v) && CollectMatches(v, path, concrete, wild).Some?
    ensures m in CollectMatches(v, path, concrete, wild).value <==> IsMatch(m, v, path, concrete, wild)
    decreases |path|, 1, 0
  {
    hide Itoa, ParseArrayIndex, At;
    if path == [] {
      EmptyPathMatch(m, v, concrete, wild);
    } else if v.Obj? {
      if path[0] in v.fields {
        CollectIsExact(v.fields[path[0]], path[1..], concrete + [path[0]], wild, m);
        FieldMatch(m, v, path, concrete, wild);
      }
    } else if path[0] == "*" {
      ItemsAreExact(v, 0, path, concrete, wild, m);
      if IsMatch(m, v, path, concrete, wild) {
        assert ItemFrom(m, v, 0, concrete);
      }
    } else {
      var index := ParseArrayIndex(path[0]).value;
      if index < |v.items| {
        CollectIsExact(v.items[index], path[1..], concrete + [Itoa(index)], wild, m);
        ItemMatch(m, v, index, path, concrete, wild);
      }
    }
  }

  lemma EmptyPathMatch(m: Match, v: Value, concrete: seq<string>, wild: seq<nat>)
    ensures IsMatch(m, v, [], concrete, wild) <==> m == Match(concrete, wild, v)
  {
    if m == Match(concrete, wild, v) {
      assert m.path[|concrete|..] == [] && m.wildcards[|wild|..] == [];
    }
  }

  /** m stands below an array element whose index is i or later. */
  ghost predicate ItemFrom(m: Match, v: Value, i: nat, concrete: seq<string>)
    requires v.Arr?
  {
    |m.path| > |concrete| && exists j :: i <= j < |v.items| && m.path[|concrete|] == Itoa(j)
  }

  lemma {:induction false} ItemsAreExact(v: Value, i: nat, path: seq<string>, concrete: seq<string>, wild: seq<nat>, m: Match)
    requires v.Arr? && Representable(v) && i <= |v.items| && path != [] && path[0] == "*"
    requires CollectItems(v.items, i, path[1..], concrete, wild).Some?
    ensures m in CollectItems(v.items, i, path[1..], concrete, wild).value <==>
              IsMatch(m, v, path, concrete, wild) && ItemFrom(m, v, i, concrete)
    decreases |path|, 0, |v.items| - i
  {
    hide Itoa, At, ParseArrayIndex, Instance;
    if i < |v.items| {
      CollectIsExact(v.items[i], path[1..], concrete + [Itoa(i)], wild + [i], m);
      ItemMatch(m, v, i, path, concrete, wild);
      ItemsAreExact(v, i + 1, path, concrete, wild, m);
      if |m.path| > |concrete| {
        assert ItemFrom(m, v, i, concrete) <==> ItemFrom(m, v, i + 1, concrete) || m.path[|concrete|] == Itoa(i);
      }
    }
  }

  // ----- when a path cannot be followed -----

  /** x cannot be entered by the token: not a container, or an array and no index. */
  ghost predicate Stuck(x: Value, token: string) {
    !x.Obj? && !(x.Arr? && (token == "*" || ParseArrayIndex(token).Some?))
  }

  /** The first k tokens of the path lead to a place q that the next one cannot enter. */
  ghost predicate BlockedAt(v: Value, path: seq<string>, k: nat, q: seq<string>, w: seq<nat>) {
    k < |path| && Instance(v, path[..k], q, w) && At(v, q).Some? && Stuck(At(v, q).value, path[k])
  }

  ghost predicate Blocked(v: Value, path: seq<string>) {
    exists k, q, w :: BlockedAt(v, path, k, q, w)
  }

  lemma {:induction false} BlockedFails(v: Value, path: seq<string>, concrete: seq<string>, wild: seq<nat>,
                                        k: nat, q: seq<string>, w: seq<nat>)
    requires Representable(v) && BlockedAt(v, path, k, q, w)
    ensures CollectMatches(v, path, concrete, wild).None?
    decreases k
  {
    hide Itoa, ParseArrayIndex;
    if k > 0 {
      assert path[..k][0] == path[0] && path[..k][1..] == path[1..][..k - 1];
      assert q == [q[0]] + q[1..];
      if v.Obj? {
        AtField(v, q[0], q[1..]);
        BlockedFails(v.fields[q[0]], path[1..], concrete + [path[0]], wild, k - 1, q[1..], w);
      } else {
        var i :| 0 <= i < |v.items| && q[0] == Itoa(i) &&
          (if path[0] == "*" then w != [] && w[0] == i && Instance(v.items[i], path[1..][..k - 1], q[1..], w[1..])
           else ParseArrayIndex(path[0]) == Some(i) && Instance(v.items[i], path[1..][..k - 1], q[1..], w));
        AtItem(v, i, q[1..]);
        if path[0] == "*" {
          BlockedFails(v.items[i], path[1..], concrete + [Itoa(i)], wild + [i], k - 1, q[1..], w[1..]);
          ItemFails(v.items, 0, i, path[1..], concrete, wild);
        } else {
          BlockedFails(v.items[i], path[1..], concrete + [Itoa(i)], wild, k - 1, q[1..], w);
        }
      }
    }
  }

  lemma {:induction false} ItemFails(items: seq<Value>, i: nat, j: nat, rest: seq<string>, concrete: seq<string>, wild: seq<nat>)
    requires i <= j < |items| && CollectMatches(items[j], rest, concrete + [Itoa(j)], wild + [j]).None?
    ensures CollectItems(items, i, rest, concrete, wild).None?
    decreases j - i
  {
    if i < j {
      ItemFails(items, i + 1, j, rest, concrete, wild);
    }
  }

  lemma {:induction false} FailingItem(items: seq<Value>, i: nat, rest: seq<string>, concrete: seq<string>, wild: seq<nat>)
    returns (j: nat)
    requires i <= |items| && CollectItems(items, i, rest, concrete, wild).None?
    ensures i <= j < |items| && CollectMatches(items[j], rest, concrete + [Itoa(j)], wild + [j]).None?
    decreases |items| - i
  {
    if CollectMatches(items[i], rest, concrete + [Itoa(i)], wild + [i]).None? {
      j := i;
    } else {
      j := FailingItem(items, i + 1, rest, concrete, wild);
    }
  }

  lemma {:induction false} FailureBlocked(v: Value, path: seq<string>, concrete: seq<string>, wild: seq<nat>)
    returns (k: nat, q: seq<string>, w: seq<nat>)
    requires Representable(v) && CollectMatches(v, path, concrete, wild).None?
    ensures BlockedAt(v, path, k, q, w)
    decreases |path|
  {
    hide Itoa, ParseArrayIndex;
    if Stuck(v, path[0]) {
      k, q, w := 0, [], [];
    } else {
      var token: string;
      if v.Obj? {
        k, q, w := FailureBlocked(v.fields[path[0]], path[1..], concrete + [path[0]], wild);
        token := path[0];
        AtField(v, token, q);
      } else {
        var i: nat;
        if path[0] == "*" {
          i := FailingItem(v.items, 0, path[1..], concrete, wild);
          k, q, w := FailureBlocked(v.items[i], path[1..], concrete + [Itoa(i)], wild + [i]);
          assert ([i] + w)[1..] == w;
          w := [i] + w;
        } else {
          i := ParseArrayIndex(path[0]).value;
          k, q, w := FailureBlocked(v.items[i], path[1..], concrete + [Itoa(i)], wild);
        }
        token := Itoa(i);
        AtItem(v, i, q);
      }
      assert path[..k + 1][1..] == path[1..][..k];
      assert ([token] + q)[1..] == q;
      k, q := k + 1, [token] + q;
    }
  }

  lemma CollectFailsIff(v: Value, path: seq<string>, concrete: seq<string>, wild: seq<nat>)
    requires Representable(v)
    ensures CollectMatches(v, path, concrete, wild).None? <==> Blocked(v, path)
  {
    hide Instance;
    if CollectMatches(v, path, concrete, wild).None? {
      var k, q, w := FailureBlocked(v, path, concrete, wild);
    } else if Blocked(v, path) {
      var k, q, w :| BlockedAt(v, path, k, q, w);
      BlockedFails(v, path, concrete, wild, k, q, w);
    }
  }

  // ----- the places that the entries name -----

  /** A place named by the entry with this index, through these wildcard indices. */
  datatype Place = Place(entry: nat, path: seq<string>, wildcards: seq<nat>)

  ghost predicate IsPlace(v: Value, entries: seq<Entry>, p: Place) {
    p.entry < |entries| && Named(v, entries[p.entry].path, p)
  }

  /** The empty pointer names nothing. */
  ghost predicate Named(v: Value, pointer: string, p: Place) {
    var tokens := JsonPointer.Parse(pointer);
    tokens.Some? && tokens.value != [] && Instance(v, tokens.value, p.path, p.wildcards)
  }

  function FileOf(entries: seq<Entry>, p: Place): string
    requires p.entry < |entries|
  {
    ResolveArtifactFile(entries[p.entry].file, p.wildcards)
  }

  function PlaceholderOf(entries: seq<Entry>, p: Place, render: Renderer): string
    requires p.entry < |entries|
  {
    render(entries[p.entry].template, FileOf(entries, p))
  }

  ghost predicate Usable(v: Value, entries: seq<Entry>) {
    forall k :: 0 <= k < |entries| ==>
      JsonPointer.Parse(entries[k].path).Some? && !Blocked(v, JsonPointer.Parse(entries[k].path).value)
  }

  /** Different places have different path keys and different artifact files. */
  ghost predicate NoClash(v: Value, entries: seq<Entry>) {
    forall p, p' :: IsPlace(v, entries, p) && IsPlace(v, entries, p') && p != p' ==>
      PathKey(p.path) != PathKey(p'.path) && FileOf(entries, p) != FileOf(entries, p')
  }

  /** The target at a place. */
  ghost predicate TargetAt(t: Target, v: Value, entries: seq<Entry>, render: Renderer, p: Place) {
    IsPlace(v, entries, p) && t.path == p.path && At(v, p.path) == Some(t.value) &&
    t.file == FileOf(entries, p) && t.placeholder == PlaceholderOf(entries, p, render)
  }

  lemma NamedExactly(v: Value, pointer: string, m: Match, k: nat)
    requires Representable(v) && ResolvePathMatches(v, pointer).Some?
    ensures m in ResolvePathMatches(v, pointer).value <==>
              Named(v, pointer, Place(k, m.path, m.wildcards)) && At(v, m.path) == Some(m.value)
  {
    hide JsonPointer.Parse, Instance, At;
    var tokens := JsonPointer.Parse(pointer).value;
    if tokens != [] {
      CollectIsExact(v, tokens, [], [], m);
      assert m.path[0..] == m.path && m.wildcards[0..] == m.wildcards;
    }
  }

  lemma UnresolvedIff(v: Value, pointer: string)
    requires Representable(v)
    ensures ResolvePathMatches(v, pointer).Some? <==>
              JsonPointer.Parse(pointer).Some? && !Blocked(v, JsonPointer.Parse(pointer).value)
  {
    hide JsonPointer.Parse, Instance, At;
    var tokens := JsonPointer.Parse(pointer);
    if tokens.Some? {
      CollectFailsIff(v, tokens.value, [], []);
    }
  }

  lemma {:induction false} LocatedIffUsable(v: Value, entries: seq<Entry>, render: Renderer)
    requires Representable(v)
    ensures LocateTargets(v, entries, render).Some? <==> Usable(v, entries)
  {
    hide JsonPointer.Parse, Blocked, ResolvePathMatches;
    if entries != [] {
      var n := |entries| - 1;
      LocatedIffUsable(v, entries[..n], render);
      UnresolvedIff(v, entries[n].path);
    }
  }

  /** The places behind the targets, in their order. */
  ghost function Places(v: Value, entries: seq<Entry>): (ps: seq<Place>)
    ensures forall p :: p in ps ==> p.entry < |entries|
  {
    if entries == [] then []
    else
      var n := |entries| - 1;
      Places(v, entries[..n]) + PlacesOf(ResolvePathMatches(v, entries[n].path), n)
  }

  ghost function PlacesOf(matches: Option<seq<Match>>, k: nat): (ps: seq<Place>)
    ensures forall p :: p in ps ==> p.entry == k
  {
    var found := if matches.None? then [] else matches.value;
    seq(|found|, i requires 0 <= i < |found| => Place(k, found[i].path, found[i].wildcards))
  }

  /** The targets stand at the places, one for one. */
  ghost predicate Parallel(ts: seq<Target>, v: Value, entries: seq<Entry>, render: Renderer, ps: seq<Place>) {
    |ts| == |ps| && forall i :: 0 <= i < |ps| ==> TargetAt(ts[i], v, entries, render, ps[i])
  }

  lemma EntryTargets(v: Value, entries: seq<Entry>, render: Renderer, k: nat)
    requires Representable(v) && k < |entries| && ResolvePathMatches(v, entries[k].path).Some?
    ensures var ms := ResolvePathMatches(v, entries[k].path);
            Parallel(TargetsOf(ms.value, entries[k], render), v, entries, render, PlacesOf(ms, k))
  {
    hide JsonPointer.Parse, Instance, At, ResolvePathMatches, ResolveArtifactFile;
    var ms := ResolvePathMatches(v, entries[k].path).value;
    forall i | 0 <= i < |ms|
      ensures TargetAt(TargetsOf(ms, entries[k], render)[i], v, entries, render, PlacesOf(Some(ms), k)[i])
    {
      NamedExactly(v, entries[k].path, ms[i], k);
    }
  }

  lemma ParallelLonger(ts: seq<Target>, v: Value, entries: seq<Entry>, render: Renderer, ps: seq<Place>, n: nat)
    requires n <= |entries| && Parallel(ts, v, entries[..n], render, ps)
    ensures Parallel(ts, v, entries, render, ps)
  {
    hide Named, ResolveArtifactFile;
  }

  lemma ParallelNothing(v: Value, entries: seq<Entry>, render: Renderer)
    ensures Parallel([], v, entries, render, [])
  {
  }

  lemma ParallelAppend(a: seq<Target>, b: seq<Target>, v: Value, entries: seq<Entry>, render: Renderer,
                       ps: seq<Place>, qs: seq<Place>)
    requires Parallel(a, v, entries, render, ps) && Parallel(b, v, entries, render, qs)
    ensures Parallel(a + b, v, entries, render, ps + qs)
  {
    hide TargetAt;
  }

  lemma {:induction false} TargetsAtPlaces(v: Value, entries: seq<Entry>, render: Renderer)
    requires Representable(v) && LocateTargets(v, entries, render).Some?
    ensures Parallel(LocateTargets(v, entries, render).value, v, entries, render, Places(v, entries))
  {
    hide ResolvePathMatches, Parallel, PlacesOf, TargetsOf;
    if entries == [] {
      ParallelNothing(v, entries, render);
    } else {
      var n := |entries| - 1;
      var before := LocateTargets(v, entries[..n], render).value;
      var ms := ResolvePathMatches(v, entries[n].path);
      TargetsAtPlaces(v, entries[..n], render);
      ParallelLonger(before, v, entries, render, Places(v, entries[..n]), n);
      EntryTargets(v, entries, render, n);
      ParallelAppend(before, TargetsOf(ms.value, entries[n], render), v, entries, render,
                     Places(v, entries[..n]), PlacesOf(ms, n));
    }
  }

  /** Every place that the entries name is among them, once. */
  lemma {:induction false} PlacesComplete(v: Value, entries: seq<Entry>, render: Renderer)
    requires Representable(v) && LocateTargets(v, entries, render).Some?
    ensures forall p :: IsPlace(v, entries, p) ==> p in Places(v, entries)
    ensures forall i, j :: 0 <= i < j < |Places(v, entries)| ==> Places(v, entries)[i] != Places(v, entries)[j]
  {
    hide ResolvePathMatches, Named;
    if entries != [] {
      var n := |entries| - 1;
      var ms := ResolvePathMatches(v, entries[n].path);
      PlacesComplete(v, entries[..n], render);
      forall p | IsPlace(v, entries, p)
        ensures p in Places(v, entries)
      {
        if p.entry == n {
          NamedPlaceFound(v, entries[n].path, p);
        } else {
          assert IsPlace(v, entries[..n], p);
        }
      }
      EntryPlacesApart(v, entries[n].path, n);
    }
  }

  lemma NamedPlaceFound(v: Value, pointer: string, p: Place)
    requires Representable(v) && ResolvePathMatches(v, pointer).Some? && Named(v, pointer, p)
    ensures p in PlacesOf(ResolvePathMatches(v, pointer), p.entry)
  {
    hide JsonPointer.Parse, ResolvePathMatches;
    InstanceStands(v, JsonPointer.Parse(pointer).value, p.path, p.wildcards);
    var m := Match(p.path, p.wildcards, At(v, p.path).value);
    NamedExactly(v, pointer, m, p.entry);
    var ms := ResolvePathMatches(v, pointer);
    var i :| 0 <= i < |ms.value| && ms.value[i] == m;
    assert PlacesOf(ms, p.entry)[i] == p;
  }

  lemma {:induction false} InstanceStands(v: Value, path: seq<string>, q: seq<string>, w: seq<nat>)
    requires Representable(v) && Instance(v, path, q, w)
    ensures At(v, q).Some? && |q| == |path|
    decreases |path|
  {
    hide Itoa, ParseArrayIndex;
    if path != [] {
      assert q == [q[0]] + q[1..];
      if v.Obj? {
        InstanceStands(v.fields[q[0]], path[1..], q[1..], w);
        AtField(v, q[0], q[1..]);
      } else {
        var i :| 0 <= i < |v.items| && q[0] == Itoa(i) &&
          (if path[0] == "*" then w != [] && w[0] == i && Instance(v.items[i], path[1..], q[1..], w[1..])
           else ParseArrayIndex(path[0]) == Some(i) && Instance(v.items[i], path[1..], q[1..], w));
        InstanceStands(v.items[i], path[1..], q[1..], if path[0] == "*" then w[1..] else w);
        AtItem(v, i, q[1..]);
      }
    }
  }

  lemma EntryPlacesApart(v: Value, pointer: string, k: nat)
    ensures var ps := PlacesOf(ResolvePathMatches(v, pointer), k);
            forall i, j :: 0 <= i < j < |ps| ==> ps[i] != ps[j]
  {
    hide JsonPointer.Parse, CollectMatches;
    var tokens := JsonPointer.Parse(pointer);
    if tokens.Some? && tokens.value != [] && CollectMatches(v, tokens.value, [], []).Some? {
      CollectApart(v, tokens.value, [], []);
    }
  }

  lemma TargetsApart(ts: seq<Target>, v: Value, entries: seq<Entry>, render: Renderer, ps: seq<Place>, i: nat, j: nat)
    requires Parallel(ts, v, entries, render, ps) && i < |ps| && j < |ps|
    ensures ps[i].entry < |entries| && ps[j].entry < |entries|
    ensures PathKeys(ts)[i] != PathKeys(ts)[j] <==> PathKey(ps[i].path) != PathKey(ps[j].path)
    ensures Files(ts)[i] != Files(ts)[j] <==> FileOf(entries, ps[i]) != FileOf(entries, ps[j])
  {
    hide Named, PathKey, ResolveArtifactFile, At;
    assert TargetAt(ts[i], v, entries, render, ps[i]) && TargetAt(ts[j], v, entries, render, ps[j]);
  }

  lemma DistinctDoNotClash(v: Value, entries: seq<Entry>, ts: seq<Target>, render: Renderer, ps: seq<Place>, p: Place, p': Place)
    requires Parallel(ts, v, entries, render, ps) && Distinct(ts) && p in ps && p' in ps && p != p'
    ensures p.entry < |entries| && p'.entry < |entries|
    ensures PathKey(p.path) != PathKey(p'.path) && FileOf(entries, p) != FileOf(entries, p')
  {
    hide TargetAt, PathKey, FileOf;
    var i :| 0 <= i < |ps| && ps[i] == p;
    var j :| 0 <= j < |ps| && ps[j] == p';
    TargetsApart(ts, v, entries, render, ps, i, j);
    if i < j {
      assert PathKeys(ts)[i] != PathKeys(ts)[j] && Files(ts)[i] != Files(ts)[j];
    } else {
      assert PathKeys(ts)[j] != PathKeys(ts)[i] && Files(ts)[j] != Files(ts)[i];
    }
  }

  /** The seen-sets reject exactly the entries that give one key or one file to two places. */
  lemma DistinctIffNoClash(v: Value, entries: seq<Entry>, render: Renderer)
    requires Representable(v) && LocateTargets(v, entries, render).Some?
    ensures Distinct(LocateTargets(v, entries, render).value) <==> NoClash(v, entries)
  {
    hide LocateTargets, Places, Named, PathKey, FileOf, At, PathKeys, Files;
    TargetsAtPlaces(v, entries, render);
    PlacesComplete(v, entries, render);
    var ts, ps := LocateTargets(v, entries, render).value, Places(v, entries);
    if Distinct(ts) {
      forall p, p' | IsPlace(v, entries, p) && IsPlace(v, entries, p') && p != p'
        ensures PathKey(p.path) != PathKey(p'.path) && FileOf(entries, p) != FileOf(entries, p')
      {
        DistinctDoNotClash(v, entries, ts, render, ps, p, p');
      }
    }
    if NoClash(v, entries) {
      forall i, j | 0 <= i < j < |ts|
        ensures PathKeys(ts)[i] != PathKeys(ts)[j] && Files(ts)[i] != Files(ts)[j]
      {
        assert TargetAt(ts[i], v, entries, render, ps[i]) && TargetAt(ts[j], v, entries, render, ps[j]);
        assert IsPlace(v, entries, ps[i]) && IsPlace(v, entries, ps[j]) && ps[i] != ps[j];
        TargetsApart(ts, v, entries, render, ps, i, j);
      }
    }
  }

  /** Keys tell paths apart whose tokens have no NUL character, and not always those whose tokens have. */
  lemma PathKeysApart(p: seq<string>, q: seq<string>)
    requires p != [] && q != [] && forall t :: t in p || t in q ==> '\0' !in t
    ensures PathKey(p) == PathKey(q) <==> p == q
  {
    hide Join;
    SplitOfJoin(p, '\0');
    SplitOfJoin(q, '\0');
  }

  lemma PathKeyShared(a: string, b: string)
    ensures PathKey([a + ['\0'] + b]) == PathKey([a, b]) && [a + ['\0'] + b] != [a, b]
  {
    assert [a, b][1..] == [b];
    assert Join([b], '\0') == b;
    assert Join([a, b], '\0') == a + ['\0'] + b;
  }

  // ----- extraction -----

  /** The targets of usable entries: one at each place, at distinct paths. */
  ghost predicate TargetsStand(ts: seq<Target>, v: Value, entries: seq<Entry>, render: Renderer) {
    Distinct(ts) &&
    (forall t :: t in ts ==> t.path != [] && exists p :: TargetAt(t, v, entries, render, p)) &&
    (forall p :: IsPlace(v, entries, p) ==> exists t :: t in ts && TargetAt(t, v, entries, render, p))
  }

  lemma ParallelStand(ts: seq<Target>, v: Value, entries: seq<Entry>, render: Renderer, ps: seq<Place>)
    requires Parallel(ts, v, entries, render, ps) && Distinct(ts)
    requires forall t :: t in ts ==> t.path != []
    requires forall p :: IsPlace(v, entries, p) ==> p in ps
    ensures TargetsStand(ts, v, entries, render)
  {
    hide IsPlace, TargetAt, Distinct;
    forall t | t in ts
      ensures exists p :: TargetAt(t, v, entries, render, p)
    {
      var i :| 0 <= i < |ts| && ts[i] == t;
      assert TargetAt(t, v, entries, render, ps[i]);
    }
    forall p | IsPlace(v, entries, p)
      ensures exists t :: t in ts && TargetAt(t, v, entries, render, p)
    {
      var i :| 0 <= i < |ps| && ps[i] == p;
      assert ts[i] in ts && TargetAt(ts[i], v, entries, render, p);
    }
  }

  lemma TargetsIff(v: Value, entries: seq<Entry>, render: Renderer)
    requires Representable(v)
    ensures Targets(v, entries, render).Some? <==> Usable(v, entries) && NoClash(v, entries)
    ensures Targets(v, entries, render).Some? ==> TargetsStand(Targets(v, entries, render).value, v, entries, render)
  {
    hide LocateTargets, Places, IsPlace, At, NoClash, Distinct, Usable, Parallel, TargetsStand;
    LocatedIffUsable(v, entries, render);
    if LocateTargets(v, entries, render).Some? {
      DistinctIffNoClash(v, entries, render);
      TargetsAtPlaces(v, entries, render);
      PlacesComplete(v, entries, render);
      TargetsLocated(v, entries, render);
      if Targets(v, entries, render).Some? {
        ParallelStand(LocateTargets(v, entries, render).value, v, entries, render, Places(v, entries));
      }
    }
  }

  /** Extraction succeeds exactly when every entry can be followed, no two places share a
      key or a file, and every place holds a string. */
  lemma ExtractSucceedsIff(v: Value, entries: seq<Entry>, render: Renderer)
    requires Representable(v)
    ensures ExtractSpec(v, entries, render).Some? <==>
              Usable(v, entries) && NoClash(v, entries) &&
              forall p :: IsPlace(v, entries, p) ==> StringAt(v, p.path)
  {
    hide Targets, Named, PathKey, ResolveArtifactFile, At, Distinct, Blocked;
    TargetsIff(v, entries, render);
    if entries != [] && Targets(v, entries, render).Some? {
      var ts := Targets(v, entries, render).value;
      if ReplaceTargets(v, ts).Some? {
        ReplaceNeedsStrings(v, ts);
        forall p | IsPlace(v, entries, p)
          ensures StringAt(v, p.path)
        {
          var t :| t in ts && TargetAt(t, v, entries, render, p);
        }
      }
      if forall p :: IsPlace(v, entries, p) ==> StringAt(v, p.path) {
        StringsReplaced(v, entries, render);
      }
    }
  }

  lemma StringsReplaced(v: Value, entries: seq<Entry>, render: Renderer)
    requires Representable(v) && Targets(v, entries, render).Some?
    requires forall p :: IsPlace(v, entries, p) ==> StringAt(v, p.path)
    ensures var ts := Targets(v, entries, render).value;
            StringPaths(v, PathsOf(ts)) && (forall i :: 0 <= i < |ts| ==> ts[i].value.Str?) &&
            ReplaceTargets(v, ts) == Fill(v, PathsOf(ts), PlaceholdersOf(ts)) && ReplaceTargets(v, ts).Some?
  {
    hide Targets, Named, PathKey, ResolveArtifactFile, At, Distinct;
    TargetsIff(v, entries, render);
    var ts := Targets(v, entries, render).value;
    forall t | t in ts
      ensures t.path != [] && At(v, t.path) == Some(t.value) && t.value.Str?
    {
      var p :| TargetAt(t, v, entries, render, p);
    }
    TargetPathsDistinct(v, ts);
    ReplaceIsFill(v, ts);
    FillWrites(v, PathsOf(ts), PlaceholdersOf(ts));
  }

  /** What one place holds after extraction, and the artifact that keeps its text. */
  ghost predicate Extracts(v: Value, entries: seq<Entry>, render: Renderer, e: Extracted, p: Place)
    requires p.entry < |entries|
  {
    StringAt(v, p.path) &&
    At(e.payload, p.path) == Some(Str(PlaceholderOf(entries, p, render))) &&
    Artifact(FileOf(entries, p), At(v, p.path).value.s) in e.artifacts
  }

  lemma PlaceEntry(v: Value, entries: seq<Entry>, p: Place)
    requires IsPlace(v, entries, p)
    ensures p.entry < |entries|
  {
  }

  lemma PlaceExtracted(v: Value, entries: seq<Entry>, render: Renderer, e: Extracted, p: Place)
    requires Representable(v) && ExtractSpec(v, entries, render) == Some(e) && IsPlace(v, entries, p)
    ensures Extracts(v, entries, render, e, p)
  {
    hide Targets, IsPlace, ResolveArtifactFile, At, Usable, NoClash, SameShape, Distinct, Fill, ReplaceTargets;
    ExtractSucceedsIff(v, entries, render);
    TargetsIff(v, entries, render);
    StringsReplaced(v, entries, render);
    var ts := Targets(v, entries, render).value;
    FillWrites(v, PathsOf(ts), PlaceholdersOf(ts));
    assert p.entry < |entries| by { PlaceEntry(v, entries, p); }
    var t :| t in ts && TargetAt(t, v, entries, render, p);
    var i :| 0 <= i < |ts| && ts[i] == t;
    assert PathsOf(ts)[i] == p.path && PlaceholdersOf(ts)[i] == t.placeholder;
    assert ArtifactsOf(ts)[i] == Artifact(t.file, t.value.s);
  }

  lemma OtherTextKept(v: Value, entries: seq<Entry>, render: Renderer, e: Extracted, q: seq<string>)
    requires Representable(v) && ExtractSpec(v, entries, render) == Some(e) && StringAt(v, q)
    requires forall p :: IsPlace(v, entries, p) ==> p.path != q
    ensures At(e.payload, q) == At(v, q)
  {
    hide Targets, IsPlace, Usable, NoClash, SameShape, TargetsStand, TargetAt;
    if entries != [] {
      ExtractSucceedsIff(v, entries, render);
      TargetsIff(v, entries, render);
      StringsReplaced(v, entries, render);
      var ts := Targets(v, entries, render).value;
      FillWrites(v, PathsOf(ts), PlaceholdersOf(ts));
      PathNotNamed(v, entries, render, ts, q);
    }
  }

  lemma ArtifactsBelong(v: Value, entries: seq<Entry>, render: Renderer, e: Extracted)
    requires Representable(v) && ExtractSpec(v, entries, render) == Some(e)
    ensures forall a :: a in e.artifacts ==> exists p :: ArtifactFrom(v, entries, a, p)
    ensures forall i, j :: 0 <= i < j < |e.artifacts| ==> e.artifacts[i].file != e.artifacts[j].file
  {
    hide Targets, Named, ResolveArtifactFile, At, Usable, NoClash, SameShape;
    if entries != [] {
      ExtractSucceedsIff(v, entries, render);
      TargetsIff(v, entries, render);
      StringsReplaced(v, entries, render);
      var ts := Targets(v, entries, render).value;
      forall a | a in e.artifacts
        ensures exists p :: ArtifactFrom(v, entries, a, p)
      {
        var i :| 0 <= i < |ts| && ArtifactsOf(ts)[i] == a;
        assert ts[i] in ts;
        var p :| TargetAt(ts[i], v, entries, render, p);
        assert ArtifactFrom(v, entries, a, p);
      }
      forall i, j | 0 <= i < j < |e.artifacts|
        ensures e.artifacts[i].file != e.artifacts[j].file
      {
        assert Files(ts)[i] != Files(ts)[j];
      }
    }
  }

  /** The artifact holds the text at the place, in the file of the place. */
  ghost predicate ArtifactFrom(v: Value, entries: seq<Entry>, a: Artifact, p: Place) {
    IsPlace(v, entries, p) && a.file == FileOf(entries, p) && At(v, p.path) == Some(Str(a.content))
  }

  /** After extraction every place holds its placeholder and has an artifact with the old
      text; there are no other artifacts, and no other text has changed. */
  lemma ExtractIsExact(v: Value, entries: seq<Entry>, render: Renderer)
    requires Representable(v) && ExtractSpec(v, entries, render).Some?
    ensures var e := ExtractSpec(v, entries, render).value;
            SameShape(e.payload, v) &&
            (forall p :: IsPlace(v, entries, p) ==> Extracts(v, entries, render, e, p)) &&
            (forall q :: StringAt(v, q) && (forall p :: IsPlace(v, entries, p) ==> p.path != q) ==>
               At(e.payload, q) == At(v, q)) &&
            (forall a :: a in e.artifacts ==> exists p :: ArtifactFrom(v, entries, a, p)) &&
            (forall i, j :: 0 <= i < j < |e.artifacts| ==> e.artifacts[i].file != e.artifacts[j].file)
  {
    hide ExtractSpec, Named, Extracts, ArtifactFrom, At, SameShape;
    var e := ExtractSpec(v, entries, render).value;
    ExtractKeepsShape(v, entries, render);
    forall p | IsPlace(v, entries, p)
      ensures Extracts(v, entries, render, e, p)
    {
      PlaceExtracted(v, entries, render, e, p);
    }
    forall q | StringAt(v, q) && forall p :: IsPlace(v, entries, p) ==> p.path != q
      ensures At(e.payload, q) == At(v, q)
    {
      OtherTextKept(v, entries, render, e, q);
    }
    ArtifactsBelong(v, entries, render, e);
  }

  lemma PathNotNamed(v: Value, entries: seq<Entry>, render: Renderer, ts: seq<Target>, q: seq<string>)
    requires TargetsStand(ts, v, entries, render)
    requires forall p :: IsPlace(v, entries, p) ==> p.path != q
    ensures q !in PathsOf(ts)
  {
    hide Named, ResolveArtifactFile, At, Distinct;
    forall i | 0 <= i < |ts|
      ensures PathsOf(ts)[i] != q
    {
      assert ts[i] in ts;
      var p :| TargetAt(ts[i], v, entries, render, p);
    }
  }

  // ----- expansion -----

  /** The targets whose place holds their placeholder. */
  ghost function Waiting(ts: seq<Target>): (r: seq<Target>)
    ensures forall t :: t in r <==> t in ts && t.value == Str(t.placeholder)
  {
    if ts == [] then []
    else if ts[0].value == Str(ts[0].placeholder) then [ts[0]] + Waiting(ts[1..])
    else Waiting(ts[1..])
  }

  lemma {:induction false} RestoreWaiting(v: Value, ts: seq<Target>, files: map<string, string>)
    ensures RestoreTargets(v, ts, files) == RestoreTargets(v, Waiting(ts), files)
    decreases ts
  {
    if ts != [] {
      if ts[0].value != Str(ts[0].placeholder) {
        RestoreWaiting(v, ts[1..], files);
      } else {
        assert Waiting(ts)[1..] == Waiting(ts[1..]);
        var next := Assign(v, ts[0].path, Str(if ts[0].file in files then files[ts[0].file] else ""));
        if next.Some? {
          RestoreWaiting(next.value, ts[1..], files);
        }
      }
    }
  }

  lemma {:induction false} WaitingDistinct(ts: seq<Target>)
    requires forall i, j :: 0 <= i < j < |ts| ==> ts[i].path != ts[j].path
    ensures forall i, j :: 0 <= i < j < |Waiting(ts)| ==> Waiting(ts)[i].path != Waiting(ts)[j].path
  {
    if ts != [] {
      WaitingDistinct(ts[1..]);
      assert forall t :: t in Waiting(ts[1..]) ==> t in ts[1..];
      assert forall t :: t in ts[1..] ==> t.path != ts[0].path;
    }
  }

  lemma {:induction false} RestoreMissing(v: Value, ts: seq<Target>, files: map<string, string>, t: Target)
    requires t in ts && t.value == Str(t.placeholder) && t.file !in files
    ensures RestoreTargets(v, ts, files).None?
    decreases ts
  {
    if ts[0] != t {
      if ts[0].value != Str(ts[0].placeholder) {
        RestoreMissing(v, ts[1..], files, t);
      } else if ts[0].file in files {
        var next := Assign(v, ts[0].path, Str(files[ts[0].file]));
        if next.Some? {
          RestoreMissing(next.value, ts[1..], files, t);
        }
      }
    }
  }

  ghost function ContentsOf(ts: seq<Target>, files: map<string, string>): (r: seq<string>)
    requires forall t :: t in ts ==> t.file in files
    ensures |r| == |ts|
  {
    seq(|ts|, i requires 0 <= i < |ts| => assert ts[i] in ts; files[ts[i].file])
  }

  /** The place holds its placeholder. */
  ghost predicate Awaits(v: Value, entries: seq<Entry>, render: Renderer, p: Place) {
    IsPlace(v, entries, p) && At(v, p.path) == Some(Str(PlaceholderOf(entries, p, render)))
  }

  /** Every awaited file is there. */
  ghost predicate FilesThere(v: Value, entries: seq<Entry>, files: map<string, string>, render: Renderer) {
    forall p :: Awaits(v, entries, render, p) ==> FileOf(entries, p) in files
  }

  lemma WaitingAwaits(v: Value, entries: seq<Entry>, render: Renderer, ts: seq<Target>)
    requires TargetsStand(ts, v, entries, render)
    ensures forall t :: t in Waiting(ts) ==> exists p :: Awaits(v, entries, render, p) && TargetAt(t, v, entries, render, p)
    ensures forall p :: Awaits(v, entries, render, p) ==> exists t :: t in Waiting(ts) && TargetAt(t, v, entries, render, p)
  {
    hide Named, ResolveArtifactFile, At, Distinct;
    forall t | t in Waiting(ts)
      ensures exists p :: Awaits(v, entries, render, p) && TargetAt(t, v, entries, render, p)
    {
      var p :| TargetAt(t, v, entries, render, p);
      assert Awaits(v, entries, render, p);
    }
    forall p | Awaits(v, entries, render, p)
      ensures exists t :: t in Waiting(ts) && TargetAt(t, v, entries, render, p)
    {
      var t :| t in ts && TargetAt(t, v, entries, render, p);
      assert t in Waiting(ts);
    }
  }

  lemma WaitingPaths(v: Value, entries: seq<Entry>, render: Renderer, ts: seq<Target>)
    requires TargetsStand(ts, v, entries, render)
    ensures StringPaths(v, PathsOf(Waiting(ts)))
  {
    hide IsPlace, At, PathKey;
    var ws := Waiting(ts);
    forall i, j | 0 <= i < j < |ts|
      ensures ts[i].path != ts[j].path
    {
      assert PathKeys(ts)[i] != PathKeys(ts)[j];
    }
    WaitingDistinct(ts);
    forall i | 0 <= i < |ws|
      ensures ws[i].path != [] && StringAt(v, ws[i].path)
    {
      assert ws[i] in ts;
      var p :| TargetAt(ws[i], v, entries, render, p);
    }
  }

  /** The payload after expansion. */
  ghost predicate Expands(v: Value, entries: seq<Entry>, files: map<string, string>, render: Renderer, r: Value) {
    SameShape(r, v) &&
    (forall p :: Awaits(v, entries, render, p) ==> FileOf(entries, p) in files && At(r, p.path) == Some(Str(files[FileOf(entries, p)]))) &&
    (forall q :: StringAt(v, q) && (forall p :: Awaits(v, entries, render, p) ==> p.path != q) ==> At(r, q) == At(v, q))
  }

  lemma WaitingFilled(v: Value, entries: seq<Entry>, files: map<string, string>, render: Renderer, ts: seq<Target>)
    requires TargetsStand(ts, v, entries, render) && forall t :: t in Waiting(ts) ==> t.file in files
    ensures RestoreTargets(v, ts, files).Some?
    ensures var r, ws := RestoreTargets(v, ts, files).value, Waiting(ts);
            SameShape(r, v) &&
            (forall t :: t in ws ==> At(r, t.path) == Some(Str(files[t.file]))) &&
            (forall q :: StringAt(v, q) && q !in PathsOf(ws) ==> At(r, q) == At(v, q))
  {
    hide TargetsStand, At, SameShape, RestoreTargets, Fill;
    var ws := Waiting(ts);
    WaitingPaths(v, entries, render, ts);
    var texts := ContentsOf(ws, files);
    forall i | 0 <= i < |ws|
      ensures ws[i].value == Str(ws[i].placeholder) && ws[i].file in files && files[ws[i].file] == texts[i]
    {
      assert ws[i] in ws;
    }
    RestoreIsFill(v, ws, files, texts);
    RestoreWaiting(v, ts, files);
    FillWrites(v, PathsOf(ws), texts);
    var r := RestoreTargets(v, ts, files).value;
    forall t | t in ws
      ensures At(r, t.path) == Some(Str(files[t.file]))
    {
      var i :| 0 <= i < |ws| && ws[i] == t;
      assert PathsOf(ws)[i] == t.path;
    }
  }

  lemma RestoreIsExact(v: Value, entries: seq<Entry>, files: map<string, string>, render: Renderer, ts: seq<Target>)
    requires TargetsStand(ts, v, entries, render) && FilesThere(v, entries, files, render)
    ensures RestoreTargets(v, ts, files).Some? && Expands(v, entries, files, render, RestoreTargets(v, ts, files).value)
  {
    hide Named, At, TargetsStand, ResolveArtifactFile, SameShape, Waiting, RestoreTargets;
    var ws := Waiting(ts);
    WaitingAwaits(v, entries, render, ts);
    forall t | t in ws
      ensures t.file in files
    {
      var p :| Awaits(v, entries, render, p) && TargetAt(t, v, entries, render, p);
    }
    WaitingFilled(v, entries, files, render, ts);
    var r := RestoreTargets(v, ts, files).value;
    forall p | Awaits(v, entries, render, p)
      ensures At(r, p.path) == Some(Str(files[FileOf(entries, p)]))
    {
      var t :| t in ws && TargetAt(t, v, entries, render, p);
    }
    forall q | StringAt(v, q) && forall p :: Awaits(v, entries, render, p) ==> p.path != q
      ensures At(r, q) == At(v, q)
    {
      forall i | 0 <= i < |ws|
        ensures PathsOf(ws)[i] != q
      {
        assert ws[i] in ws;
        var p :| Awaits(v, entries, render, p) && TargetAt(ws[i], v, entries, render, p);
      }
    }
  }

  /** Expansion fails on entries that cannot be followed or clash and on a missing file;
      otherwise the awaiting places get the text of their files and no other text changes. */
  lemma ExpandIsExact(v: Value, entries: seq<Entry>, files: map<string, string>, render: Renderer)
    requires Representable(v)
    ensures var r := ExpandSpec(v, entries, files, render);
            (r.Some? <==> Usable(v, entries) && NoClash(v, entries) && FilesThere(v, entries, files, render)) &&
            (r.Some? ==> Expands(v, entries, files, render, r.value))
  {
    hide FilesThere, Targets, TargetsStand, Usable, NoClash, Expands, RestoreTargets;
    TargetsIff(v, entries, render);
    if entries == [] {
      NothingAwaits(v, files, render);
    } else if Targets(v, entries, render).Some? {
      var ts := Targets(v, entries, render).value;
      if FilesThere(v, entries, files, render) {
        RestoreIsExact(v, entries, files, render, ts);
      } else {
        MissingFileFails(v, entries, files, render, ts);
      }
    }
  }

  lemma MissingFileFails(v: Value, entries: seq<Entry>, files: map<string, string>, render: Renderer, ts: seq<Target>)
    requires TargetsStand(ts, v, entries, render) && !FilesThere(v, entries, files, render)
    ensures RestoreTargets(v, ts, files).None?
  {
    hide Named, At, TargetsStand, ResolveArtifactFile, RestoreTargets;
    var p :| Awaits(v, entries, render, p) && FileOf(entries, p) !in files;
    WaitingAwaits(v, entries, render, ts);
    var t :| t in Waiting(ts) && TargetAt(t, v, entries, render, p);
    RestoreMissing(v, ts, files, t);
  }

  lemma NothingAwaits(v: Value, files: map<string, string>, render: Renderer)
    ensures Targets(v, [], render) == Some([])
    ensures FilesThere(v, [], files, render) && Expands(v, [], files, render, v)
  {
    SameShapeRefl(v);
  }

  // ----- file names -----

  lemma {:induction false} LastIndexOfSplit(front: string, c: char, back: string)
    requires c !in back
    ensures LastIndexOf(front + [c] + back, c) == Some(|front|)
  {
    var s := front + [c] + back;
    if back != [] {
      assert s[..|s| - 1] == front + [c] + back[..|back| - 1];
      LastIndexOfSplit(front, c, back[..|back| - 1]);
    }
  }

  lemma {:induction false} LastIndexOfNone(s: string, c: char)
    requires c !in s
    ensures LastIndexOf(s, c) == None
  {
    if s != [] {
      LastIndexOfNone(s[..|s| - 1], c);
    }
  }

  /** A directory prefix: empty, or ending in a slash. */
  ghost predicate IsDir(dir: string) {
    dir == "" || dir[|dir| - 1] == '/'
  }

  /** An extension: empty, or one dot and what follows it. */
  ghost predicate IsExt(ext: string) {
    '/' !in ext && (ext == "" || (ext[0] == '.' && '.' !in ext[1..]))
  }

  /** What stands before the extension; without one, the name has no dot after its first character. */
  ghost predicate IsStem(stem: string, ext: string) {
    stem != "" && '/' !in stem && (ext == "" ==> '.' !in stem[1..])
  }

  lemma SplitFileText(dir: string, name: string)
    requires IsDir(dir) && '/' !in name
    ensures SplitFile(dir + name) == (dir, name)
  {
    var base := dir + name;
    if dir == "" {
      assert base == name;
      LastIndexOfNone(base, '/');
    } else {
      assert base == dir[..|dir| - 1] + ['/'] + name;
      LastIndexOfSplit(dir[..|dir| - 1], '/', name);
      assert base[..|dir|] == dir && base[|dir|..] == name;
    }
  }

  lemma SplitExtText(stem: string, ext: string)
    requires IsExt(ext) && IsStem(stem, ext)
    ensures SplitExt(stem + ext) == (stem, ext)
  {
    var name := stem + ext;
    if ext != "" {
      assert name == stem + ['.'] + ext[1..];
      LastIndexOfSplit(stem, '.', ext[1..]);
      assert name[..|stem|] == stem && name[|stem|..] == ext;
    } else {
      assert name == stem;
      if stem[0] == '.' {
        assert stem == [] + ['.'] + stem[1..];
        LastIndexOfSplit([], '.', stem[1..]);
      } else {
        LastIndexOfNone(stem, '.');
      }
    }
  }

  /** The wildcard indices stand between the stem and the extension of the file. */
  lemma ArtifactFileText(dir: string, stem: string, ext: string, wild: seq<nat>)
    requires IsDir(dir) && IsExt(ext) && IsStem(stem, ext)
    ensures ResolveArtifactFile(dir + (stem + ext), []) == dir + (stem + ext)
    ensures wild != [] ==>
              ResolveArtifactFile(dir + (stem + ext), wild) == dir + stem + ("-" + Join(Decimals(wild), '-')) + ext
  {
    hide Join, Decimals, IndexSuffix, SplitFile, SplitExt;
    SplitFileText(dir, stem + ext);
    SplitExtText(stem, ext);
    if wild != [] {
      SuffixIsJoin(wild);
    }
  }
}

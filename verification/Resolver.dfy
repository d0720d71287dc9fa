/** The memoizing resolver with in-flight cycle detection behind resource() calls
    (managedservice/list_jq_resource_resolver.go), used by one caller at a time. */
module Resolver {
  import opened Payload

  /** What a resolver does next: it asks for the value of another path, or it is done. */
  datatype Action = Ask(path: string) | Answer(value: Option<Value>)

  /** What the resolver does for a logical path, given the values that it has got so far: each
      request may depend on the answers before it. Unknown paths are errors, and so is every path
      that does not normalize. The resolver ends by itself: it makes at most limit requests. */
  datatype Graph = Graph(
    paths: set<string>,
    limit: nat,
    decide: (string, seq<Value>) -> Action,
    normalize: string -> Option<string>)

  function Decision(g: Graph, path: string, answers: seq<Value>): (d: Action)
    ensures d.Ask? ==> |answers| < g.limit
  {
    var d := g.decide(path, answers);
    if d.Ask? && |answers| >= g.limit then Answer(None) else d
  }

  // ----- the meaning of a path, without cache and without cycle detection -----

  /** The value of a normalized path, if it is found by nesting at most n requests. */
  function ValueOf(g: Graph, path: string, n: nat): Option<Value>
    decreases n, 0
  {
    if n == 0 || path !in g.paths then None else RunFrom(g, path, [], n - 1)
  }

  /** How the resolver goes on after the given answers. */
  function RunFrom(g: Graph, path: string, answers: seq<Value>, n: nat): Option<Value>
    decreases n, 1 + if |answers| < g.limit then g.limit - |answers| else 0
  {
    match Decision(g, path, answers)
    case Answer(value) => value
    case Ask(raw) =>
      var next :- g.normalize(raw);
      var v :- ValueOf(g, next, n);
      RunFrom(g, path, answers + [v], n)
  }

  ghost predicate Denotes(g: Graph, path: string, v: Value) {
    exists n: nat :: ValueOf(g, path, n) == Some(v)
  }

  ghost predicate Meaningless(g: Graph, path: string) {
    forall n: nat :: ValueOf(g, path, n).None?
  }

  lemma {:induction false} DeeperValue(g: Graph, path: string, m: nat, n: nat)
    requires m <= n && ValueOf(g, path, m).Some?
    ensures ValueOf(g, path, n) == ValueOf(g, path, m)
    decreases m, 0
  {
    DeeperRun(g, path, [], m - 1, n - 1);
  }

  lemma {:induction false} DeeperRun(g: Graph, path: string, answers: seq<Value>, m: nat, n: nat)
    requires m <= n && RunFrom(g, path, answers, m).Some?
    ensures RunFrom(g, path, answers, n) == RunFrom(g, path, answers, m)
    decreases m, 1 + if |answers| < g.limit then g.limit - |answers| else 0
  {
    match Decision(g, path, answers)
    case Answer(_) =>
    case Ask(raw) =>
      var next := g.normalize(raw).value;
      DeeperValue(g, next, m, n);
      DeeperRun(g, path, answers + [ValueOf(g, next, m).value], m, n);
  }

  lemma SameValue(g: Graph, path: string, m: nat, n: nat)
    requires ValueOf(g, path, m).Some? && ValueOf(g, path, n).Some?
    ensures ValueOf(g, path, m) == ValueOf(g, path, n)
  {
    if m <= n {
      DeeperValue(g, path, m, n);
    } else {
      DeeperValue(g, path, n, m);
    }
  }

  lemma DenotationUnique(g: Graph, path: string, v: Value, w: Value)
    requires Denotes(g, path, v) && Denotes(g, path, w)
    ensures v == w
  {
    var m: nat :| ValueOf(g, path, m) == Some(v);
    var n: nat :| ValueOf(g, path, n) == Some(w);
    SameValue(g, path, m, n);
  }

  // ----- the requests of a path -----

  /** The resolver for the path asks for b after the given answers. */
  predicate AsksFor(g: Graph, path: string, answers: seq<Value>, b: string) {
    var d := Decision(g, path, answers);
    d.Ask? && g.normalize(d.path) == Some(b)
  }

  /** The answers are what the resolver gets to its first requests, nesting at most n more. */
  ghost predicate Gets(g: Graph, path: string, answers: seq<Value>, n: nat)
    decreases |answers|
  {
    answers == [] ||
    var last := |answers| - 1;
    Gets(g, path, answers[..last], n) &&
    exists b :: AsksFor(g, path, answers[..last], b) && ValueOf(g, b, n) == Some(answers[last])
  }

  lemma {:induction false} GetsDeeper(g: Graph, path: string, answers: seq<Value>, m: nat, n: nat)
    requires m <= n && Gets(g, path, answers, m)
    ensures Gets(g, path, answers, n)
    decreases |answers|
  {
    if answers != [] {
      var last := |answers| - 1;
      GetsDeeper(g, path, answers[..last], m, n);
      var b :| AsksFor(g, path, answers[..last], b) && ValueOf(g, b, m) == Some(answers[last]);
      DeeperValue(g, b, m, n);
    }
  }

  lemma GetsNext(g: Graph, path: string, answers: seq<Value>, m: nat, b: string, v: Value) returns (n: nat)
    requires Gets(g, path, answers, m) && AsksFor(g, path, answers, b) && Denotes(g, b, v)
    ensures Gets(g, path, answers + [v], n)
  {
    var d: nat :| ValueOf(g, b, d) == Some(v);
    n := if d > m then d else m;
    DeeperValue(g, b, d, n);
    GetsDeeper(g, path, answers, m, n);
    assert (answers + [v])[..|answers|] == answers;
  }

  /** A run passes through the answers that it gets, */
  lemma {:induction false} RunGets(g: Graph, path: string, answers: seq<Value>, n: nat)
    requires Gets(g, path, answers, n)
    ensures RunFrom(g, path, [], n) == RunFrom(g, path, answers, n)
    decreases |answers|
  {
    if answers != [] {
      var last := |answers| - 1;
      RunGets(g, path, answers[..last], n);
      assert answers == answers[..last] + [answers[last]];
    }
  }

  /** and a run that succeeds, through those that any run gets. */
  lemma {:induction false} RunPasses(g: Graph, path: string, answers: seq<Value>, m: nat, n: nat)
    requires Gets(g, path, answers, m) && RunFrom(g, path, [], n).Some?
    ensures RunFrom(g, path, [], n) == RunFrom(g, path, answers, n)
    decreases |answers|
  {
    if answers != [] {
      var last := |answers| - 1;
      RunPasses(g, path, answers[..last], m, n);
      var b :| AsksFor(g, path, answers[..last], b) && ValueOf(g, b, m) == Some(answers[last]);
      assert ValueOf(g, b, n).Some?;
      SameValue(g, b, m, n);
      assert answers == answers[..last] + [answers[last]];
    }
  }

  // ----- cycles -----

  /** Resolving a requests b directly. */
  ghost predicate Requests(g: Graph, a: string, b: string) {
    a in g.paths && exists answers, n: nat :: Gets(g, a, answers, n) && AsksFor(g, a, answers, b)
  }

  /** Resolving a leads to b through at most k + 1 requests. */
  ghost predicate LeadsIn(g: Graph, a: string, b: string, k: nat)
    decreases k
  {
    Requests(g, a, b) || (k > 0 && exists c :: LeadsIn(g, a, c, k - 1) && Requests(g, c, b))
  }

  ghost predicate Leads(g: Graph, a: string, b: string) {
    exists k: nat :: LeadsIn(g, a, b, k)
  }

  lemma LeadsNext(g: Graph, a: string, b: string, c: string)
    requires Leads(g, a, b) && Requests(g, b, c)
    ensures Leads(g, a, c)
  {
    var k: nat :| LeadsIn(g, a, b, k);
    assert LeadsIn(g, a, c, k + 1);
  }

  lemma LeadsDirectly(g: Graph, a: string, b: string)
    requires Requests(g, a, b)
    ensures Leads(g, a, b)
  {
    assert LeadsIn(g, a, b, 0);
  }

  lemma RequestedIsShallower(g: Graph, a: string, b: string, n: nat)
    requires ValueOf(g, a, n).Some? && Requests(g, a, b)
    ensures n > 0 && ValueOf(g, b, n - 1).Some?
  {
    var answers, m: nat :| Gets(g, a, answers, m) && AsksFor(g, a, answers, b);
    RunPasses(g, a, answers, m, n - 1);
  }

  lemma {:induction false} LedToIsShallower(g: Graph, a: string, b: string, k: nat, n: nat) returns (m: nat)
    requires ValueOf(g, a, n).Some? && LeadsIn(g, a, b, k)
    ensures m < n && ValueOf(g, b, m).Some?
    decreases k
  {
    if Requests(g, a, b) {
      RequestedIsShallower(g, a, b, n);
      m := n - 1;
    } else {
      var c :| LeadsIn(g, a, c, k - 1) && Requests(g, c, b);
      m := LedToIsShallower(g, a, c, k - 1, n);
      RequestedIsShallower(g, c, b, m);
      m := m - 1;
    }
  }

  lemma {:induction false} CycleHasNoValue(g: Graph, path: string, n: nat)
    requires Leads(g, path, path)
    ensures ValueOf(g, path, n).None?
  {
    if ValueOf(g, path, n).Some? {
      var k: nat :| LeadsIn(g, path, path, k);
      var m := LedToIsShallower(g, path, path, k, n);
      CycleHasNoValue(g, path, m);
    }
  }

  /** A path on a cycle means nothing. */
  lemma CycleIsMeaningless(g: Graph, path: string)
    requires Leads(g, path, path)
    ensures Meaningless(g, path)
  {
    forall n: nat ensures ValueOf(g, path, n).None? { CycleHasNoValue(g, path, n); }
  }

  lemma {:induction false} LeadsTransIn(g: Graph, a: string, b: string, c: string, k: nat)
    requires Leads(g, a, b) && LeadsIn(g, b, c, k)
    ensures Leads(g, a, c)
    decreases k
  {
    if Requests(g, b, c) {
      LeadsNext(g, a, b, c);
    } else {
      var d :| LeadsIn(g, b, d, k - 1) && Requests(g, d, c);
      LeadsTransIn(g, a, b, d, k - 1);
      LeadsNext(g, a, d, c);
    }
  }

  /** The resolver fails by itself after the given answers, or asks for a path that does not normalize. */
  predicate FailsAfter(g: Graph, path: string, answers: seq<Value>) {
    var d := Decision(g, path, answers);
    if d.Ask? then g.normalize(d.path).None? else d.value.None?
  }

  /** The node is unknown, or fails by itself after answers that it gets. */
  ghost predicate Broken(g: Graph, path: string) {
    path !in g.paths || exists answers, n: nat :: Gets(g, path, answers, n) && FailsAfter(g, path, answers)
  }

  ghost predicate ReachesTrouble(g: Graph, path: string, c: string) {
    (c == path || Leads(g, path, c)) && (Leads(g, c, c) || Broken(g, c))
  }

  lemma BrokenIsMeaningless(g: Graph, path: string)
    requires Broken(g, path)
    ensures Meaningless(g, path)
  {
    if path in g.paths {
      var answers, m: nat :| Gets(g, path, answers, m) && FailsAfter(g, path, answers);
      forall n: nat
        ensures ValueOf(g, path, n).None?
      {
        if ValueOf(g, path, n).Some? {
          RunPasses(g, path, answers, m, n - 1);
        }
      }
    }
  }

  lemma TroubleSpreads(g: Graph, path: string, c: string)
    requires Leads(g, path, c) && Meaningless(g, c)
    ensures Meaningless(g, path)
  {
    forall n: nat
      ensures ValueOf(g, path, n).None?
    {
      if ValueOf(g, path, n).Some? {
        var k: nat :| LeadsIn(g, path, c, k);
        var m := LedToIsShallower(g, path, c, k, n);
      }
    }
  }

  lemma AnswerIsValue(g: Graph, path: string, answers: seq<Value>, n: nat)
    requires path in g.paths && Gets(g, path, answers, n) && Decision(g, path, answers).Answer?
    ensures ValueOf(g, path, n + 1) == Decision(g, path, answers).value
  {
    RunGets(g, path, answers, n);
  }

  /** A node that has no meaning although it does not fail by itself asks for one that has none. */
  lemma {:induction false} MeaninglessRequest(g: Graph, path: string, answers: seq<Value>, n: nat) returns (b: string)
    requires Meaningless(g, path) && !Broken(g, path) && Gets(g, path, answers, n)
    ensures Requests(g, path, b) && Meaningless(g, b)
    decreases if |answers| < g.limit then g.limit - |answers| else 0
  {
    assert !FailsAfter(g, path, answers);
    match Decision(g, path, answers)
    case Answer(value) =>
      AnswerIsValue(g, path, answers, n);
      assert false;
    case Ask(raw) =>
      b := g.normalize(raw).value;
      assert AsksFor(g, path, answers, b);
      if !Meaningless(g, b) {
        var d: nat :| ValueOf(g, b, d).Some?;
        var v := ValueOf(g, b, d).value;
        assert Denotes(g, b, v);
        var m := GetsNext(g, path, answers, n, b, v);
        b := MeaninglessRequest(g, path, answers + [v], m);
      }
  }

  lemma {:induction false} FindTrouble(g: Graph, path: string, above: set<string>) returns (c: string)
    requires Meaningless(g, path) && forall a :: a in above ==> Leads(g, a, path)
    ensures ReachesTrouble(g, path, c)
    decreases g.paths - above
  {
    c := path;
    if path !in above && !Broken(g, path) {
      var d := MeaninglessRequest(g, path, [], 0);
      LeadsDirectly(g, path, d);
      forall a | a in above + {path}
        ensures Leads(g, a, d)
      {
        if a != path {
          LeadsNext(g, a, path, d);
        }
      }
      c := FindTrouble(g, d, above + {path});
      if c != d {
        var k: nat :| LeadsIn(g, d, c, k);
        LeadsTransIn(g, path, d, c, k);
      }
    }
  }

  /** A path has no meaning exactly when it leads to a cycle or to a failing node. */
  lemma MeaninglessIffTrouble(g: Graph, path: string)
    ensures Meaningless(g, path) <==> exists c :: ReachesTrouble(g, path, c)
  {
    if Meaningless(g, path) {
      var c := FindTrouble(g, path, {});
    }
    if exists c :: ReachesTrouble(g, path, c) {
      var c :| ReachesTrouble(g, path, c);
      if Leads(g, c, c) {
        CycleIsMeaningless(g, c);
      } else {
        BrokenIsMeaningless(g, c);
      }
      if c != path {
        TroubleSpreads(g, path, c);
      }
    }
  }

  // ----- the resolver state -----

  class ListJQResolver {
    const g: Graph
    var cache: map<string, Value>
    var inFlight: set<string>
    ghost var completed: seq<string>

    constructor (graph: Graph)
      ensures g == graph && cache == map[] && inFlight == {} && completed == [] && Valid()
    {
      g, cache, inFlight, completed := graph, map[], {}, [];
    }

    /** Cached values are meanings, nothing cached is in flight, and each cached path was
        completed once. */
    ghost predicate Valid()
      reads this
    {
      (forall p :: p in cache ==> Denotes(g, p, cache[p])) &&
      cache.Keys !! inFlight &&
      (forall p :: p in completed <==> p in cache) &&
      (forall i, j :: 0 <= i < j < |completed| ==> completed[i] != completed[j])
    }

    /** The cache only grows, and the in-flight set is as it was. */
    twostate predicate Grown()
      reads this
    {
      inFlight == old(inFlight) && old(completed) <= completed &&
      forall p :: p in old(cache) ==> p in cache && cache[p] == old(cache[p])
    }

    method ResolveListJQResource(logicalPath: string) returns (r: Option<Value>)
      requires Valid()
      requires g.normalize(logicalPath).Some? ==>
                 forall a :: a in inFlight ==> Leads(g, a, g.normalize(logicalPath).value)
      modifies this
      ensures Valid() && Grown()
      ensures r.Some? ==> g.normalize(logicalPath).Some? && Denotes(g, g.normalize(logicalPath).value, r.value)
      ensures r.None? ==> g.normalize(logicalPath).Some? ==> Meaningless(g, g.normalize(logicalPath).value)
      decreases g.paths - inFlight, 1, 0
    {
      var normalized := g.normalize(logicalPath);
      if normalized.None? {
        return None;
      }
      var path := normalized.value;
      if path in cache {
        return Some(cache[path]);
      }
      if path in inFlight {
        CycleIsMeaningless(g, path);
        return None;
      }
      inFlight := inFlight + {path};
      var value := CallResolver(path);
      if value.Some? {
        cache := cache[path := value.value];
        completed := completed + [path];
      }
      inFlight := inFlight - {path};
      return value;
    }

    /** The resolver itself, which asks back for the paths that it needs. */
    method CallResolver(path: string) returns (r: Option<Value>)
      requires Valid() && path in inFlight
      requires forall a :: a in inFlight && a != path ==> Leads(g, a, path)
      modifies this
      ensures Valid() && Grown()
      ensures r.Some? ==> Denotes(g, path, r.value)
      ensures r.None? ==> Meaningless(g, path)
      decreases g.paths - inFlight, if path in g.paths then 2 else 0, 0
    {
      if path !in g.paths {
        return None;
      }
      var answers: seq<Value> := [];
      ghost var depth: nat := 0;
      while true
        invariant Valid() && Grown()
        invariant Gets(g, path, answers, depth)
        decreases if |answers| < g.limit then g.limit - |answers| else 0
      {
        match Decision(g, path, answers) {
          case Answer(value) =>
            AnswerIsValue(g, path, answers, depth);
            if value.None? {
              BrokenAfter(g, path, answers, depth);
            }
            return value;
          case Ask(raw) =>
            ghost var next := g.normalize(raw);
            if next.Some? {
              RequestsAfter(g, path, answers, depth, next.value);
              forall a | a in inFlight
                ensures Leads(g, a, next.value)
              {
                LeadsThrough(g, a, path, next.value);
              }
            }
            var v := ResolveListJQResource(raw);
            if v.None? {
              if next.Some? {
                TroubleSpreads(g, path, next.value);
              } else {
                BrokenAfter(g, path, answers, depth);
              }
              return None;
            }
            depth := GetsNext(g, path, answers, depth, next.value, v.value);
            answers := answers + [v.value];
        }
      }
    }
  }

  lemma BrokenAfter(g: Graph, path: string, answers: seq<Value>, n: nat)
    requires Gets(g, path, answers, n) && FailsAfter(g, path, answers)
    ensures Meaningless(g, path)
  {
    BrokenIsMeaningless(g, path);
  }

  lemma RequestsAfter(g: Graph, path: string, answers: seq<Value>, n: nat, b: string)
    requires path in g.paths && Gets(g, path, answers, n) && AsksFor(g, path, answers, b)
    ensures Requests(g, path, b) && Leads(g, path, b)
  {
    LeadsDirectly(g, path, b);
  }

  lemma LeadsThrough(g: Graph, a: string, path: string, b: string)
    requires Requests(g, path, b) && (a == path || Leads(g, a, path))
    ensures Leads(g, a, b)
  {
    if a == path {
      LeadsDirectly(g, path, b);
    } else {
      LeadsNext(g, a, path, b);
    }
  }

  /** A fresh resolver answers every request with the meaning of the path, and with an error
      exactly when there is none; it leaves nothing in flight. */
  method ResolveOnce(g: Graph, logicalPath: string) returns (r: Option<Value>)
    ensures r.Some? <==> g.normalize(logicalPath).Some? && exists v :: Denotes(g, g.normalize(logicalPath).value, v)
    ensures r.Some? ==> Denotes(g, g.normalize(logicalPath).value, r.value)
  {
    var resolver := new ListJQResolver(g);
    r := resolver.ResolveListJQResource(logicalPath);
  }
}

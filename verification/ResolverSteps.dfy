/** The same resolver shared by concurrent callers: its four mutex-guarded operations are
    atomic steps that callers interleave (managedservice/list_jq_resource_resolver.go). */
module ResolverSteps {
  import opened Payload

  /** Where a caller is: before the cache check, after a miss, inside the resolver, back from
      it with a value or an error, after storing the value, or finished. */
  datatype Stage =
    | Checking
    | Missed
    | Inside
    | Returned(value: Value)
    | Failed
    | Stored(value: Value)
    | Done(result: Option<Value>)

  /** A caller that was made by a resolver knows the caller whose resolver that was. */
  datatype Caller = Caller(path: string, stage: Stage, parent: Option<nat>)

  /** The shared state, the callers, who marked each path in flight, and the values that the
      resolver has returned. */
  datatype State = State(
    cache: map<string, Value>,
    inFlight: set<string>,
    callers: map<nat, Caller>,
    marker: map<string, nat>,
    returned: set<(string, Value)>)

  datatype Step =
    | Call(id: nat, path: string, parent: Option<nat>)
    | Check(id: nat)
    | Mark(id: nat)
    | Return(id: nat, value: Value)
    | Fail(id: nat)
    | Store(id: nat)
    | Unmark(id: nat)

  const INITIAL := State(map[], {}, map[], map[], {})

  function At(s: State, id: nat, stage: Stage): State
    requires id in s.callers
  {
    s.(callers := s.callers[id := s.callers[id].(stage := stage)])
  }

  predicate Enabled(s: State, step: Step) {
    if step.Call? then step.id !in s.callers
    else
      step.id in s.callers &&
      match step
      case Check(id) => s.callers[id].stage.Checking?
      case Mark(id) => s.callers[id].stage.Missed?
      case Return(id, _) => s.callers[id].stage.Inside?
      case Fail(id) => s.callers[id].stage.Inside?
      case Store(id) => s.callers[id].stage.Returned?
      case Unmark(id) => s.callers[id].stage.Stored? || s.callers[id].stage.Failed?
      case Call(_, _, _) => false
  }

  function Next(s: State, step: Step): State
    requires Enabled(s, step)
  {
    match step
    case Call(id, path, parent) => s.(callers := s.callers[id := Caller(path, Checking, parent)])
    case Check(id) =>
      var path := s.callers[id].path;
      if path in s.cache then At(s, id, Done(Some(s.cache[path]))) else At(s, id, Missed)
    case Mark(id) =>
      var path := s.callers[id].path;
      if path in s.inFlight then At(s, id, Done(None))
      else At(s.(inFlight := s.inFlight + {path}, marker := s.marker[path := id]), id, Inside)
    case Return(id, value) =>
      At(s.(returned := s.returned + {(s.callers[id].path, value)}), id, Returned(value))
    case Fail(id) => At(s, id, Failed)
    case Store(id) =>
      var value := s.callers[id].stage.value;
      At(s.(cache := s.cache[s.callers[id].path := value]), id, Stored(value))
    case Unmark(id) =>
      var stage := s.callers[id].stage;
      At(s.(inFlight := s.inFlight - {s.callers[id].path}), id, Done(if stage.Stored? then Some(stage.value) else None))
  }

  /** Between its mark and its unmark. */
  predicate Holds(c: Caller) {
    c.stage.Inside? || c.stage.Returned? || c.stage.Failed? || c.stage.Stored?
  }

  /** Callers that hold a path marked it themselves, and marked paths are held by their marker. */
  ghost predicate Marks(s: State) {
    (forall id :: id in s.callers && Holds(s.callers[id]) ==>
       s.callers[id].path in s.inFlight && s.callers[id].path in s.marker && s.marker[s.callers[id].path] == id) &&
    (forall p :: p in s.inFlight ==>
       p in s.marker && s.marker[p] in s.callers && s.callers[s.marker[p]].path == p && Holds(s.callers[s.marker[p]]))
  }

  /** The value that a caller has from the resolver or was given. */
  function Answer(c: Caller): Option<Value> {
    match c.stage
    case Returned(v) => Some(v)
    case Stored(v) => Some(v)
    case Done(r) => r
    case _ => None
  }

  /** Every value in the cache or with a caller came from the resolver for that path. */
  ghost predicate Sourced(s: State) {
    (forall p :: p in s.cache ==> (p, s.cache[p]) in s.returned) &&
    (forall id :: id in s.callers && Answer(s.callers[id]).Some? ==>
       (s.callers[id].path, Answer(s.callers[id]).value) in s.returned)
  }

  lemma StepKeepsMarks(s: State, step: Step)
    requires Marks(s) && Enabled(s, step)
    ensures Marks(Next(s, step))
  {
    var s' := Next(s, step);
    forall id | id in s'.callers && Holds(s'.callers[id])
      ensures s'.callers[id].path in s'.inFlight && s'.callers[id].path in s'.marker && s'.marker[s'.callers[id].path] == id
    {
    }
    forall p | p in s'.inFlight
      ensures p in s'.marker && s'.marker[p] in s'.callers && s'.callers[s'.marker[p]].path == p && Holds(s'.callers[s'.marker[p]])
    {
    }
  }

  lemma StepKeepsSourced(s: State, step: Step)
    requires Sourced(s) && Enabled(s, step)
    ensures Sourced(Next(s, step))
  {
    var s' := Next(s, step);
    forall id | id in s'.callers && Answer(s'.callers[id]).Some?
      ensures (s'.callers[id].path, Answer(s'.callers[id]).value) in s'.returned
    {
    }
  }

  /** The state after a list of steps, if each is enabled where it happens. */
  function After(steps: seq<Step>): Option<State> {
    if steps == [] then Some(INITIAL)
    else
      var before :- After(steps[..|steps| - 1]);
      if Enabled(before, steps[|steps| - 1]) then Some(Next(before, steps[|steps| - 1])) else None
  }

  /** The steps are a run from the initial state that ends in s. */
  predicate Runs(steps: seq<Step>, s: State) {
    After(steps) == Some(s)
  }

  lemma {:induction false} RunsKeepInvariants(steps: seq<Step>, s: State)
    requires Runs(steps, s)
    ensures Marks(s) && Sourced(s)
    decreases |steps|
  {
    if steps != [] {
      var last := |steps| - 1;
      var before := After(steps[..last]).value;
      RunsKeepInvariants(steps[..last], before);
      StepKeepsMarks(before, steps[last]);
      StepKeepsSourced(before, steps[last]);
    }
  }

  /** In every run at most one caller is between mark and unmark for a path, so at most one is
      inside the resolver for it. */
  lemma AtMostOneInside(steps: seq<Step>, s: State, a: nat, b: nat)
    requires Runs(steps, s) && a in s.callers && b in s.callers
    requires s.callers[a].path == s.callers[b].path && Holds(s.callers[a]) && Holds(s.callers[b])
    ensures a == b
  {
    RunsKeepInvariants(steps, s);
  }

  /** In every run, a path leaves the in-flight set only by a step of the caller that put it
      there. */
  lemma OnlyMarkerUnmarks(steps: seq<Step>, s: State, step: Step, p: string)
    requires Runs(steps, s) && Enabled(s, step)
    requires p in s.inFlight && p !in Next(s, step).inFlight
    ensures step.Unmark? && p in s.marker && s.marker[p] == step.id && s.callers[step.id].path == p
  {
    RunsKeepInvariants(steps, s);
  }

  /** In every run, what the cache holds and what callers are given for a path was returned by
      the resolver for that path. */
  lemma AnswersComeFromResolver(steps: seq<Step>, s: State)
    requires Runs(steps, s)
    ensures forall p :: p in s.cache ==> (p, s.cache[p]) in s.returned
    ensures forall id :: id in s.callers && Answer(s.callers[id]).Some? ==>
              (s.callers[id].path, Answer(s.callers[id]).value) in s.returned
  {
    RunsKeepInvariants(steps, s);
  }

  lemma AfterNext(steps: seq<Step>, step: Step)
    requires After(steps).Some? && Enabled(After(steps).value, step)
    ensures After(steps + [step]) == Some(Next(After(steps).value, step))
  {
    assert (steps + [step])[..|steps|] == steps;
  }

  /** Two things that hold for one caller at a time fail for two: a caller can be told of a
      cyclic dependency although the other one merely got there first. */
  lemma SpuriousCycle(path: string)
    ensures exists steps, s :: Runs(steps, s) && s.callers.Keys == {0, 1} &&
              s.callers[0] == Caller(path, Inside, None) && s.callers[1] == Caller(path, Done(None), None)
  {
    var steps := [Call(0, path, None)];
    AfterNext([], Call(0, path, None));
    assert [] + [Call(0, path, None)] == steps;
    AfterNext(steps, Check(0));
    steps := steps + [Check(0)];
    AfterNext(steps, Mark(0));
    steps := steps + [Mark(0)];
    AfterNext(steps, Call(1, path, None));
    steps := steps + [Call(1, path, None)];
    AfterNext(steps, Check(1));
    steps := steps + [Check(1)];
    AfterNext(steps, Mark(1));
    steps := steps + [Mark(1)];
    assert Runs(steps, After(steps).value);
  }

  /** And a path can be resolved twice: both callers miss the cache before either stores. */
  lemma ResolvedTwice(path: string)
    ensures exists steps, s :: Runs(steps, s) && s.callers.Keys == {0, 1} &&
              s.callers[0] == Caller(path, Done(Some(Int(0))), None) && s.callers[1] == Caller(path, Returned(Int(1)), None)
  {
    var steps := [Call(0, path, None)];
    AfterNext([], Call(0, path, None));
    assert [] + [Call(0, path, None)] == steps;
    AfterNext(steps, Call(1, path, None));
    steps := steps + [Call(1, path, None)];
    AfterNext(steps, Check(0));
    steps := steps + [Check(0)];
    AfterNext(steps, Check(1));
    steps := steps + [Check(1)];
    AfterNext(steps, Mark(0));
    steps := steps + [Mark(0)];
    AfterNext(steps, Return(0, Int(0)));
    steps := steps + [Return(0, Int(0))];
    AfterNext(steps, Store(0));
    steps := steps + [Store(0)];
    AfterNext(steps, Unmark(0));
    steps := steps + [Unmark(0)];
    AfterNext(steps, Mark(1));
    steps := steps + [Mark(1)];
    AfterNext(steps, Return(1, Int(1)));
    steps := steps + [Return(1, Int(1))];
    assert Runs(steps, After(steps).value);
  }

  // ----- exactly when they happen -----

  /** In every run, a caller is told of a cyclic dependency exactly when another caller is between
      mark and unmark for the path. */
  lemma MarkRefusedIff(steps: seq<Step>, s: State, id: nat)
    requires Runs(steps, s) && Enabled(s, Mark(id))
    ensures Next(s, Mark(id)).callers[id].stage == Done(None) <==>
              exists other :: other in s.callers && other != id && s.callers[other].path == s.callers[id].path && Holds(s.callers[other])
  {
    RunsKeepInvariants(steps, s);
    var path := s.callers[id].path;
    if path in s.inFlight {
      assert s.callers[s.marker[path]].path == path && Holds(s.callers[s.marker[path]]);
    }
  }

  lemma {:induction false} RunsKeepKept(steps: seq<Step>, s: State)
    requires Runs(steps, s)
    ensures Kept(s)
    decreases |steps|
  {
    hide Kept, Next;
    if steps == [] {
      assert Kept(s) by { NothingReturned(s); }
    } else {
      var last := |steps| - 1;
      var before := After(steps[..last]).value;
      RunsKeepKept(steps[..last], before);
      StepKeepsKept(before, steps[last]);
    }
  }

  lemma NothingReturned(s: State)
    requires s == INITIAL
    ensures Kept(s)
  {
  }

  /** In every run, a caller that is let into the resolver makes it resolve the path again exactly
      when the path is in the cache by then: the caller has missed the cache before it was stored. */
  lemma ResolvedAgainIff(steps: seq<Step>, s: State, id: nat)
    requires Runs(steps, s) && Enabled(s, Mark(id)) && Next(s, Mark(id)).callers[id].stage.Inside?
    ensures (exists v :: (s.callers[id].path, v) in s.returned) <==> s.callers[id].path in s.cache
  {
    RunsKeepInvariants(steps, s);
    RunsKeepKept(steps, s);
    var path := s.callers[id].path;
    if v :| (path, v) in s.returned {
      assert path !in s.inFlight;
      forall other | other in s.callers && s.callers[other].path == path
        ensures !s.callers[other].stage.Returned?
      {
        assert Holds(s.callers[other]) ==> path in s.inFlight;
      }
      assert !Storing(s, path);
    }
    if path in s.cache {
      assert (path, s.cache[path]) in s.returned;
    }
  }

  // ----- genuine and spurious refusals -----

  /** Requests are made inside a resolver, and a resolver ends when its requests have. */
  ghost predicate NestedStep(s: State, step: Step) {
    match step
    case Call(_, _, parent) => parent.Some? ==> parent.value in s.callers && s.callers[parent.value].stage.Inside?
    case Return(id, _) => ChildrenDone(s, id)
    case Fail(id) => ChildrenDone(s, id)
    case _ => true
  }

  ghost predicate ChildrenDone(s: State, id: nat) {
    forall c :: c in s.callers && s.callers[c].parent == Some(id) ==> s.callers[c].stage.Done?
  }

  ghost predicate Nested(steps: seq<Step>) {
    forall i :: 0 <= i < |steps| && After(steps[..i]).Some? ==> NestedStep(After(steps[..i]).value, steps[i])
  }

  /** Whoever has made a caller that is still at work is inside its resolver. */
  ghost predicate Waiting(s: State) {
    forall id :: id in s.callers && Busy(s.callers[id]) && s.callers[id].parent.Some? ==>
      s.callers[id].parent.value in s.callers && s.callers[s.callers[id].parent.value].stage.Inside?
  }

  lemma StepKeepsWaiting(s: State, step: Step)
    requires Waiting(s) && Enabled(s, step) && NestedStep(s, step)
    ensures Waiting(Next(s, step))
  {
    var s' := Next(s, step);
    forall id | id in s'.callers && Busy(s'.callers[id]) && s'.callers[id].parent.Some?
      ensures s'.callers[id].parent.value in s'.callers && s'.callers[s'.callers[id].parent.value].stage.Inside?
    {
      var parent := s'.callers[id].parent.value;
      assert id in s.callers ==> Busy(s.callers[id]) && s.callers[id].parent == Some(parent);
    }
  }

  lemma {:induction false} RunsKeepWaiting(steps: seq<Step>, s: State)
    requires Runs(steps, s) && Nested(steps)
    ensures Waiting(s)
    decreases |steps|
  {
    hide Next, NestedStep, Waiting;
    if steps == [] {
      assert Waiting(s) by { NobodyWaits(s); }
    } else {
      var last := |steps| - 1;
      var before := After(steps[..last]).value;
      forall i | 0 <= i < last
        ensures steps[..last][..i] == steps[..i]
      {
      }
      RunsKeepWaiting(steps[..last], before);
      StepKeepsWaiting(before, steps[last]);
    }
  }

  lemma NobodyWaits(s: State)
    requires s == INITIAL
    ensures Waiting(s)
  {
  }

  /** a has made the caller, or has made one that has, within k steps. */
  ghost predicate AncestorIn(s: State, a: nat, id: nat, k: nat)
    decreases k
  {
    id in s.callers && s.callers[id].parent.Some? &&
    (s.callers[id].parent.value == a || (k > 0 && AncestorIn(s, a, s.callers[id].parent.value, k - 1)))
  }

  ghost predicate Ancestor(s: State, a: nat, id: nat) {
    exists k: nat :: AncestorIn(s, a, id, k)
  }

  lemma {:induction false} AncestorsInside(s: State, a: nat, id: nat, k: nat)
    requires Waiting(s) && id in s.callers && Busy(s.callers[id]) && AncestorIn(s, a, id, k)
    ensures a in s.callers && s.callers[a].stage.Inside?
    decreases k
  {
    var parent := s.callers[id].parent.value;
    if parent != a {
      AncestorsInside(s, a, parent, k - 1);
    }
  }

  /** In every nested run, a refusal is for a cycle, that is, the path was asked for on the way to
      this caller, exactly when the caller that holds the path is an ancestor. */
  lemma RefusalGenuineIff(steps: seq<Step>, s: State, id: nat)
    requires Runs(steps, s) && Nested(steps) && Enabled(s, Mark(id)) && s.callers[id].path in s.inFlight
    ensures s.callers[id].path in s.marker
    ensures (exists a :: Ancestor(s, a, id) && a in s.callers && s.callers[a].path == s.callers[id].path) <==>
              Ancestor(s, s.marker[s.callers[id].path], id)
  {
    RunsKeepInvariants(steps, s);
    RunsKeepWaiting(steps, s);
    var path := s.callers[id].path;
    if a :| Ancestor(s, a, id) && a in s.callers && s.callers[a].path == path {
      var k: nat :| AncestorIn(s, a, id, k);
      AncestorsInside(s, a, id, k);
      assert Holds(s.callers[a]);
    }
  }

  // ----- when neither happens -----

  /** All callers of the path have finished. */
  ghost predicate Idle(s: State, path: string) {
    forall id :: id in s.callers && s.callers[id].path == path ==> s.callers[id].stage.Done?
  }

  /** Each call of a path comes when the earlier callers of that path have finished. */
  ghost predicate OneAtATime(steps: seq<Step>) {
    forall i :: 0 <= i < |steps| && steps[i].Call? && After(steps[..i]).Some? ==> Idle(After(steps[..i]).value, steps[i].path)
  }

  /** At most one caller of a path is at work. */
  ghost predicate Single(s: State) {
    forall a, b :: a in s.callers && b in s.callers && s.callers[a].path == s.callers[b].path && Busy(s.callers[a]) && Busy(s.callers[b])
      ==> a == b
  }

  predicate Busy(c: Caller) {
    !c.stage.Done?
  }

  /** What the resolver has returned is cached or about to be. */
  ghost predicate Kept(s: State) {
    forall p, v :: (p, v) in s.returned ==> p in s.cache || Storing(s, p)
  }

  ghost predicate Storing(s: State, p: string) {
    exists id :: id in s.callers && s.callers[id].path == p && s.callers[id].stage.Returned?
  }

  /** Nothing was returned for the path of a caller that may still enter the resolver. */
  ghost predicate Fresh(s: State) {
    forall id, v :: id in s.callers && (s.callers[id].stage.Missed? || s.callers[id].stage.Inside?) ==>
      (s.callers[id].path, v) !in s.returned
  }

  ghost predicate Orderly(s: State) {
    Single(s) && Kept(s) && Fresh(s)
  }

  lemma StepKeepsSingle(s: State, step: Step)
    requires Single(s) && Enabled(s, step) && (step.Call? ==> Idle(s, step.path))
    ensures Single(Next(s, step))
  {
  }

  lemma StepKeepsKept(s: State, step: Step)
    requires Kept(s) && Enabled(s, step)
    ensures Kept(Next(s, step))
  {
    var s' := Next(s, step);
    var id := step.id;
    forall p, v | (p, v) in s'.returned
      ensures p in s'.cache || Storing(s', p)
    {
      if step.Return? && (p, v) == (s.callers[id].path, step.value) {
        assert s'.callers[id].stage.Returned?;
      } else if p !in s'.cache {
        var other :| other in s.callers && s.callers[other].path == p && s.callers[other].stage.Returned?;
        assert s'.callers[other] == s.callers[other];
      }
    }
  }

  /** A caller that misses the cache is the first one that gets to the resolver. */
  lemma MissIsFirst(s: State, id: nat, v: Value)
    requires Single(s) && Kept(s) && Enabled(s, Check(id)) && s.callers[id].path !in s.cache
    ensures (s.callers[id].path, v) !in s.returned
  {
    forall other | other in s.callers && s.callers[other].path == s.callers[id].path
      ensures !s.callers[other].stage.Returned?
    {
      assert Busy(s.callers[id]);
      assert Busy(s.callers[other]) ==> other == id;
    }
    assert !Storing(s, s.callers[id].path);
  }

  lemma StepKeepsFresh(s: State, step: Step)
    requires Orderly(s) && Enabled(s, step)
    ensures Fresh(Next(s, step))
  {
    hide Kept;
    var s' := Next(s, step);
    forall other, v | other in s'.callers && (s'.callers[other].stage.Missed? || s'.callers[other].stage.Inside?)
      ensures (s'.callers[other].path, v) !in s'.returned
    {
      if step.Check? && other == step.id {
        MissIsFirst(s, other, v);
      } else if step.Return? {
        assert Busy(s.callers[other]) && Busy(s.callers[step.id]);
      }
    }
  }

  lemma StepKeepsOrder(s: State, step: Step)
    requires Orderly(s) && Enabled(s, step) && (step.Call? ==> Idle(s, step.path))
    ensures Orderly(Next(s, step))
  {
    hide Single, Kept, Fresh, Next;
    StepKeepsSingle(s, step);
    StepKeepsKept(s, step);
    StepKeepsFresh(s, step);
  }

  lemma PrefixOneAtATime(steps: seq<Step>, n: nat)
    requires n <= |steps| && OneAtATime(steps)
    ensures OneAtATime(steps[..n])
  {
    forall i | 0 <= i < n
      ensures steps[..n][..i] == steps[..i]
    {
    }
  }

  lemma {:induction false} RunsKeepOrder(steps: seq<Step>, s: State)
    requires Runs(steps, s) && OneAtATime(steps)
    ensures Orderly(s)
    decreases |steps|
  {
    if steps != [] {
      var last := |steps| - 1;
      var before := After(steps[..last]).value;
      PrefixOneAtATime(steps, last);
      RunsKeepOrder(steps[..last], before);
      StepKeepsOrder(before, steps[last]);
    }
  }

  /** If callers of the same path come one at a time, none is refused, */
  lemma OneAtATimeNotRefused(steps: seq<Step>, s: State, id: nat)
    requires Runs(steps, s) && OneAtATime(steps) && Enabled(s, Mark(id))
    ensures Next(s, Mark(id)).callers[id].stage.Inside?
  {
    RunsKeepOrder(steps, s);
    MarkRefusedIff(steps, s, id);
  }

  lemma {:induction false} PrefixRuns(steps: seq<Step>, n: nat)
    requires n <= |steps| && After(steps).Some?
    ensures After(steps[..n]).Some? && After(steps[..n]).value.returned <= After(steps).value.returned
    decreases |steps|
  {
    if n == |steps| {
      assert steps[..n] == steps;
    } else {
      var last := |steps| - 1;
      PrefixRuns(steps[..last], n);
      assert steps[..last][..n] == steps[..n];
    }
  }

  /** The path for which the i-th step is taken. */
  function PathAt(steps: seq<Step>, i: nat): string
    requires i < |steps| && !steps[i].Call? && After(steps[..i]).Some? && Enabled(After(steps[..i]).value, steps[i])
  {
    After(steps[..i]).value.callers[steps[i].id].path
  }

  lemma StepEnabled(steps: seq<Step>, i: nat)
    requires i < |steps| && After(steps).Some?
    ensures After(steps[..i]).Some? && Enabled(After(steps[..i]).value, steps[i])
    ensures After(steps[..i + 1]) == Some(Next(After(steps[..i]).value, steps[i]))
  {
    PrefixRuns(steps, i);
    PrefixRuns(steps, i + 1);
    assert steps[..i + 1][..i] == steps[..i];
  }

  /** and the resolver returns a value for the path at most once. */
  lemma OneAtATimeResolvedOnce(steps: seq<Step>, i: nat, j: nat)
    requires i < j < |steps| && After(steps).Some? && OneAtATime(steps) && steps[i].Return? && steps[j].Return?
    ensures After(steps[..i]).Some? && Enabled(After(steps[..i]).value, steps[i])
    ensures After(steps[..j]).Some? && Enabled(After(steps[..j]).value, steps[j])
    ensures PathAt(steps, i) != PathAt(steps, j)
  {
    hide Next;
    StepEnabled(steps, i);
    StepEnabled(steps, j);
    var s := After(steps[..j]).value;
    PrefixOneAtATime(steps, j);
    RunsKeepOrder(steps[..j], s);
    assert steps[..j][..i + 1] == steps[..i + 1];
    PrefixRuns(steps[..j], i + 1);
    ReturnIsRecorded(After(steps[..i]).value, steps[i]);
  }

  lemma ReturnIsRecorded(s: State, step: Step)
    requires Enabled(s, step) && step.Return?
    ensures (s.callers[step.id].path, step.value) in Next(s, step).returned
  {
  }
}

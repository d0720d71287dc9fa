/** Applying a desired state to a managed service (internal/orchestrator/commands.go,
    remote_read.go, remote_mutation.go). */
module Apply {
  import opened Payload
  import opened Text
  import Diff

  /** A resource ready to be sent: its identity and its resolved payload. */
  datatype Resource = Resource(alias: string, remoteId: string, payload: Value)

  datatype Candidate = Candidate(alias: string, remoteId: string)

  /** What the metadata of a resource contributes: the identifier that a payload carries
      (resolvedRemoteIDFromPayload), whether a direct read is checked against the listing, the
      identifier of the object that the fallbacks of a read find among the objects, and the
      compare transforms, which may fail. */
  datatype Metadata = Metadata(
    idOf: Value -> Option<string>,
    checksListing: bool,
    finds: map<string, Value> -> Option<string>,
    transform: Value -> Option<Value>)

  datatype Policy = Policy(force: bool, skip: bool)

  datatype Call =
    | GetCall(id: string)
    | ListCall
    | SearchCall
    | CreateCall(id: string, payload: Value)
    | UpdateCall(id: string, payload: Value)

  /** What the environment does to one call: nothing, a fault, a fallback that finds a value of
      its own, or other clients rewriting the objects first. */
  datatype Event =
    | Calm
    | Fails(fault: Fault)
    | Rescued(value: Value)
    | Rewritten(objects: map<string, Value>)

  /** The service: the objects by remote identifier, what it lists, what it answers to a
      payload it has stored (null for nothing), the events still to come and the calls so far. */
  datatype ServerState = ServerState(
    objects: map<string, Value>,
    listing: seq<Candidate>,
    echo: Value -> Value,
    events: seq<Event>,
    log: seq<Call>)
  {
    function Event(): Event {
      if events == [] then Calm else events[0]
    }

    /** The state in which a call takes effect. */
    function After(call: Call): ServerState {
      this.(events := if events == [] then [] else events[1..], log := log + [call],
            objects := if Event().Rewritten? then Event().objects else objects)
    }
  }

  function GetStep(s: ServerState, id: string): (ServerState, Result<Value>) {
    var s' := s.After(GetCall(id));
    match s.Event()
    case Fails(fault) => (s', Err(fault))
    case _ => (s', if id in s'.objects then Ok(s'.objects[id]) else Err(NotFound))
  }

  /** The identifier of an object that the fallbacks find. */
  function Found(objects: map<string, Value>, md: Metadata): Option<string> {
    var id := md.finds(objects);
    if id.Some? && id.value in objects then id else None
  }

  /** The fallbacks of a read, after the direct one has failed. */
  function SearchStep(s: ServerState, md: Metadata, fault: Fault): (ServerState, Result<Value>) {
    var s' := s.After(SearchCall);
    match s.Event()
    case Fails(other) => (s', Err(if other.NotFound? then fault else other))
    case Rescued(value) => (s', Ok(value))
    case _ => (s', if Found(s'.objects, md).Some? then Ok(s'.objects[Found(s'.objects, md).value]) else Err(fault))
  }

  /** The faults of a direct read after which the fallbacks are tried. */
  predicate Fallible(fault: Fault) {
    fault.NotFound? || fault.Validation?
  }

  function ListStep(s: ServerState): (ServerState, Result<seq<Candidate>>) {
    var s' := s.After(ListCall);
    (s', if s.Event().Fails? then Err(s.Event().fault) else Ok(s'.listing))
  }

  function CreateStep(s: ServerState, r: Resource): (ServerState, Result<Value>) {
    var s' := s.After(CreateCall(r.remoteId, r.payload));
    if s.Event().Fails? then (s', Err(s.Event().fault))
    else if r.remoteId in s'.objects then (s', Err(Conflict))
    else (s'.(objects := s'.objects[r.remoteId := r.payload]), Ok(s.echo(r.payload)))
  }

  function UpdateStep(s: ServerState, r: Resource): (ServerState, Result<Value>) {
    var s' := s.After(UpdateCall(r.remoteId, r.payload));
    if s.Event().Fails? then (s', Err(s.Event().fault))
    else if r.remoteId !in s'.objects then (s', Err(NotFound))
    else (s'.(objects := s'.objects[r.remoteId := r.payload]), Ok(s.echo(r.payload)))
  }

  predicate SameIdentity(r: Resource, c: Candidate) {
    c.alias == r.alias || (TrimSpace(r.remoteId) != "" && c.remoteId == r.remoteId)
  }

  function MatchCount(r: Resource, listing: seq<Candidate>): nat {
    if listing == [] then 0
    else MatchCount(r, listing[..|listing| - 1]) + if SameIdentity(r, listing[|listing| - 1]) then 1 else 0
  }

  lemma {:induction false} MatchCountPrefix(r: Resource, listing: seq<Candidate>, n: nat)
    requires n <= |listing|
    ensures MatchCount(r, listing[..n]) <= MatchCount(r, listing)
  {
    if n < |listing| {
      MatchCountPrefix(r, listing[..|listing| - 1], n);
      assert listing[..|listing| - 1][..n] == listing[..n];
    } else {
      assert listing[..n] == listing;
    }
  }

  /** The guard after a direct read; a listing fault other than a conflict is ignored. */
  function CheckListing(s: ServerState, r: Resource, md: Metadata): (ServerState, Option<Fault>) {
    if !md.checksListing then (s, None)
    else
      var (s', listed) := ListStep(s);
      match listed
      case Err(fault) => (s', if fault.Conflict? then Some(Conflict) else None)
      case Ok(candidates) => (s', if MatchCount(r, candidates) > 1 then Some(Conflict) else None)
  }

  function Fetch(s: ServerState, r: Resource, md: Metadata): (ServerState, Result<Value>) {
    var (s', got) := GetStep(s, r.remoteId);
    if got.Ok? then
      var (s'', ambiguous) := CheckListing(s', r, md);
      (s'', if ambiguous.Some? then Err(ambiguous.value) else got)
    else if Fallible(got.fault) then SearchStep(s', md, got.fault)
    else (s', got)
  }

  /** The resource that a successful mutation returns. */
  function Returned(r: Resource, reply: Value): Resource {
    if reply.Null? then r else r.(payload := reply)
  }

  function CreateRemote(s: ServerState, r: Resource): (ServerState, Result<Resource>) {
    var (s', reply) := CreateStep(s, r);
    (s', match reply case Ok(v) => Ok(Returned(r, v)) case Err(fault) => Err(fault))
  }

  function UpdateRemote(s: ServerState, r: Resource): (ServerState, Result<Resource>) {
    var (s', reply) := UpdateStep(s, r);
    (s', match reply case Ok(v) => Ok(Returned(r, v)) case Err(fault) => Err(fault))
  }

  /** Both sides as they are compared. */
  function Compared(md: Metadata, local: Value, remote: Value): Option<(Value, Value)> {
    var l :- md.transform(local);
    var r :- md.transform(remote);
    Some((l, r))
  }

  /** What to do once the remote value is known. */
  function Reconcile(s: ServerState, r: Resource, remote: Value, md: Metadata, force: bool): (ServerState, Result<Resource>) {
    match Compared(md, r.payload, remote)
    case None => (s, Err(Validation))
    case Some((l, rem)) =>
      var target := if md.idOf(remote).Some? then r.(remoteId := md.idOf(remote).value) else r;
      if l == rem && !force then (s, Ok(target.(payload := remote)))
      else UpdateRemote(s, target)
  }

  function ApplySpec(s: ServerState, r: Resource, md: Metadata, policy: Policy): (ServerState, Result<Resource>) {
    if policy.skip then (s, Ok(r))
    else
      var (s', fetched) := Fetch(s, r, md);
      match fetched
      case Ok(remote) => Reconcile(s', r, remote, md, policy.force)
      case Err(NotFound) =>
        var (s'', created) := CreateRemote(s', r);
        if created == Err(Conflict) then UpdateRemote(s'', r) else (s'', created)
      case Err(fault) => (s', Err(fault))
  }

  /** The entries of a diff document; a missing remote object compares as null. */
  ghost function DiffSpec(s: ServerState, r: Resource, md: Metadata): Result<seq<Diff.DiffEntry>> {
    var fetched := Fetch(s, r, md).1;
    if fetched.Err? && !fetched.fault.NotFound? then Err(fetched.fault)
    else
      match Compared(md, r.payload, if fetched.Ok? then fetched.value else Null)
      case None => Err(Validation)
      case Some((l, rem)) => Ok(Diff.Reports([], Diff.Edits(l, rem)))
  }

  // ----- the orchestrator against a server object -----

  class Server {
    var state: ServerState

    constructor (initial: ServerState)
      ensures state == initial
    {
      state := initial;
    }

    method Get(id: string) returns (r: Result<Value>)
      modifies this
      ensures (state, r) == GetStep(old(state), id)
    {
      var next := GetStep(state, id);
      state := next.0;
      return next.1;
    }

    method List() returns (r: Result<seq<Candidate>>)
      modifies this
      ensures (state, r) == ListStep(old(state))
    {
      var next := ListStep(state);
      state := next.0;
      return next.1;
    }

    method Search(md: Metadata, fault: Fault) returns (r: Result<Value>)
      modifies this
      ensures (state, r) == SearchStep(old(state), md, fault)
    {
      var next := SearchStep(state, md, fault);
      state := next.0;
      return next.1;
    }

    method Create(res: Resource) returns (r: Result<Value>)
      modifies this
      ensures (state, r) == CreateStep(old(state), res)
    {
      var next := CreateStep(state, res);
      state := next.0;
      return next.1;
    }

    method Update(res: Resource) returns (r: Result<Value>)
      modifies this
      ensures (state, r) == UpdateStep(old(state), res)
    {
      var next := UpdateStep(state, res);
      state := next.0;
      return next.1;
    }
  }

  method DetectAmbiguity(server: Server, r: Resource, md: Metadata) returns (fault: Option<Fault>)
    modifies server
    ensures (server.state, fault) == CheckListing(old(server.state), r, md)
  {
    if !md.checksListing {
      return None;
    }
    var listed := server.List();
    if listed.Err? {
      return if listed.fault.Conflict? then Some(Conflict) else None;
    }
    var matchCount := 0;
    for i := 0 to |listed.value|
      invariant matchCount == MatchCount(r, listed.value[..i]) <= 1
    {
      assert listed.value[..i + 1][..i] == listed.value[..i];
      if !SameIdentity(r, listed.value[i]) {
        continue;
      }
      matchCount := matchCount + 1;
      if matchCount > 1 {
        MatchCountPrefix(r, listed.value, i + 1);
        return Some(Conflict);
      }
    }
    assert listed.value[..|listed.value|] == listed.value;
    return None;
  }

  method FetchRemoteValue(server: Server, r: Resource, md: Metadata) returns (v: Result<Value>)
    modifies server
    ensures (server.state, v) == Fetch(old(server.state), r, md)
  {
    var got := server.Get(r.remoteId);
    if got.Ok? {
      var fault := DetectAmbiguity(server, r, md);
      return if fault.Some? then Err(fault.value) else got;
    }
    if !Fallible(got.fault) {
      return got;
    }
    v := server.Search(md, got.fault);
  }

  datatype Mutation = CreateOperation | UpdateOperation

  method ExecuteRemoteMutation(server: Server, res: Resource, operation: Mutation) returns (r: Result<Resource>)
    modifies server
    ensures (server.state, r) ==
            if operation.CreateOperation? then CreateRemote(old(server.state), res) else UpdateRemote(old(server.state), res)
  {
    var reply: Result<Value>;
    match operation {
      case CreateOperation => reply := server.Create(res);
      case UpdateOperation => reply := server.Update(res);
    }
    if reply.Err? {
      return Err(reply.fault);
    }
    var payload := res.payload;
    if !reply.value.Null? {
      payload := reply.value;
    }
    return Ok(res.(payload := payload));
  }

  method ApplyDesiredState(server: Server, res: Resource, md: Metadata, policy: Policy) returns (r: Result<Resource>)
    modifies server
    ensures (server.state, r) == ApplySpec(old(server.state), res, md, policy)
  {
    if policy.skip {
      return Ok(res);
    }
    var fetched := FetchRemoteValue(server, res, md);
    if fetched.Err? {
      if !fetched.fault.NotFound? {
        return Err(fetched.fault);
      }
      r := ExecuteRemoteMutation(server, res, CreateOperation);
      if r.Err? && r.fault.Conflict? {
        r := ExecuteRemoteMutation(server, res, UpdateOperation);
      }
      return;
    }
    var compared := Compared(md, res.payload, fetched.value);
    if compared.None? {
      return Err(Validation);
    }
    var target := res;
    if md.idOf(fetched.value).Some? {
      target := target.(remoteId := md.idOf(fetched.value).value);
    }
    if compared.value.0 == compared.value.1 && !policy.force {
      return Ok(target.(payload := fetched.value));
    }
    r := ExecuteRemoteMutation(server, target, UpdateOperation);
  }

  // ----- what every run does -----

  predicate IsMutation(c: Call) {
    c.CreateCall? || c.UpdateCall?
  }

  function Mutations(calls: seq<Call>): seq<Call> {
    if calls == [] then []
    else Mutations(calls[..|calls| - 1]) + if IsMutation(calls[|calls| - 1]) then [calls[|calls| - 1]] else []
  }

  /** The mutations that s' has seen since s. */
  function NewMutations(s: ServerState, s': ServerState): seq<Call>
    requires s.log <= s'.log
  {
    Mutations(s'.log[|s.log|..])
  }

  lemma MutationsNext(log: seq<Call>, from: nat, c: Call)
    requires from <= |log|
    ensures Mutations((log + [c])[from..]) == Mutations(log[from..]) + if IsMutation(c) then [c] else []
  {
    var calls := (log + [c])[from..];
    assert calls[..|calls| - 1] == log[from..];
  }

  lemma FetchLog(s: ServerState, r: Resource, md: Metadata)
    ensures var log, one := Fetch(s, r, md).0.log, s.log + [GetCall(r.remoteId)];
            log == one || log == one + [ListCall] || log == one + [SearchCall]
  {
    hide MatchCount, Found;
  }

  lemma FetchMutatesNothing(s: ServerState, r: Resource, md: Metadata)
    ensures s.log <= Fetch(s, r, md).0.log && NewMutations(s, Fetch(s, r, md).0) == []
  {
    hide Fetch, Mutations;
    FetchLog(s, r, md);
    var n, one := |s.log|, s.log + [GetCall(r.remoteId)];
    assert s.log[n..] == [];
    NoCallsNoMutations();
    MutationsNext(s.log, n, GetCall(r.remoteId));
    MutationsNext(one, n, ListCall);
    MutationsNext(one, n, SearchCall);
  }

  lemma NoCallsNoMutations()
    ensures Mutations([]) == []
  {
  }

  lemma ReconcileMutations(s: ServerState, n: nat, r: Resource, remote: Value, md: Metadata, force: bool)
    requires n <= |s.log| && Mutations(s.log[n..]) == []
    ensures var s' := Reconcile(s, r, remote, md, force).0;
            s.log <= s'.log && |Mutations(s'.log[n..])| <= 1
  {
    var target := if md.idOf(remote).Some? then r.(remoteId := md.idOf(remote).value) else r;
    MutationsNext(s.log, n, UpdateCall(target.remoteId, target.payload));
  }

  lemma CreateMutations(s: ServerState, n: nat, r: Resource)
    requires n <= |s.log| && Mutations(s.log[n..]) == []
    ensures var s1 := CreateRemote(s, r).0;
            var s2 := UpdateRemote(s1, r).0;
            s.log <= s1.log <= s2.log && |Mutations(s1.log[n..])| == 1 &&
            Mutations(s2.log[n..]) == [CreateCall(r.remoteId, r.payload), UpdateCall(r.remoteId, r.payload)]
  {
    var create, update := CreateCall(r.remoteId, r.payload), UpdateCall(r.remoteId, r.payload);
    var s1 := CreateRemote(s, r).0;
    assert s1.log == s.log + [create];
    assert UpdateRemote(s1, r).0.log == s1.log + [update];
    hide CreateRemote, UpdateRemote, Mutations;
    MutationsNext(s.log, n, create);
    MutationsNext(s1.log, n, update);
  }

  /** In every run, whatever the environment does: no mutation if the conflict checker
      skips; otherwise none, one, or a Create answered by a conflict and then an Update. */
  lemma MutationsOfApply(s: ServerState, r: Resource, md: Metadata, policy: Policy)
    ensures var s' := ApplySpec(s, r, md, policy).0;
            s.log <= s'.log &&
            (policy.skip ==> s' == s) &&
            (var issued := NewMutations(s, s');
             |issued| <= 1 ||
             (issued == [CreateCall(r.remoteId, r.payload), UpdateCall(r.remoteId, r.payload)] &&
              CreateRemote(Fetch(s, r, md).0, r).1 == Err(Conflict)))
  {
    var n := |s.log|;
    assert Mutations(s.log[n..]) == [];
    FetchMutatesNothing(s, r, md);
    var (s1, fetched) := Fetch(s, r, md);
    hide Fetch, Reconcile, CreateRemote, UpdateRemote, Mutations;
    if fetched.Ok? {
      ReconcileMutations(s1, n, r, fetched.value, md, policy.force);
    } else {
      CreateMutations(s1, n, r);
    }
  }

  // ----- convergence -----

  /** Nothing but faults happens: only this client changes objects. */
  ghost predicate Alone(s: ServerState) {
    forall e :: e in s.events ==> e.Calm? || e.Fails?
  }

  /** Where a read finds the object of the resource. */
  function Place(objects: map<string, Value>, r: Resource, md: Metadata): Option<string> {
    if r.remoteId in objects then Some(r.remoteId) else Found(objects, md)
  }

  /** The identifier that an update of the object is sent to. */
  function Target(r: Resource, remote: Value, md: Metadata): string {
    if md.idOf(remote).Some? then md.idOf(remote).value else r.remoteId
  }

  predicate Compares(r: Resource, remote: Value, md: Metadata) {
    remote == r.payload || (md.transform(r.payload).Some? && md.transform(r.payload) == md.transform(remote))
  }

  /** The object that a read finds compares equal to the desired payload. */
  ghost predicate InSync(s: ServerState, r: Resource, md: Metadata) {
    Place(s.objects, r, md).Some? && Compares(r, s.objects[Place(s.objects, r, md).value], md)
  }

  /** Objects are found and updated under one identifier: the payload stored under the identifier
      of the resource carries that identifier or none; and if the fallbacks find another object,
      then there is none under the identifier, the other one carries its own identifier, and with
      the desired payload it is found again. */
  ghost predicate StoredUnderOwnId(s: ServerState, r: Resource, md: Metadata) {
    (r.remoteId in s.objects ==> Target(r, s.objects[r.remoteId], md) == r.remoteId) &&
    (Found(s.objects, md).Some? && Found(s.objects, md).value != r.remoteId ==>
       var id := Found(s.objects, md).value;
       r.remoteId !in s.objects && Target(r, s.objects[id], md) == id && Found(s.objects[id := r.payload], md) == Some(id))
  }

  lemma EventsAlone(s: ServerState)
    requires Alone(s)
    ensures s.Event().Calm? || s.Event().Fails?
    ensures forall call :: Alone(s.After(call)) && s.After(call).objects == s.objects && s.After(call).listing == s.listing
  {
    if s.events != [] {
      assert s.events[0] in s.events;
    }
  }

  /** What a read returns is stored under the identifier of the resource or where the fallbacks look. */
  lemma FetchAlone(s: ServerState, r: Resource, md: Metadata)
    requires Alone(s)
    ensures var (s', v) := Fetch(s, r, md);
            Alone(s') && s'.objects == s.objects && s'.listing == s.listing &&
            (v.Ok? ==> (r.remoteId in s.objects && v.value == s.objects[r.remoteId]) ||
                       (Found(s.objects, md).Some? && v.value == s.objects[Found(s.objects, md).value]))
  {
    hide Alone;
    EventsAlone(s);
    var s1 := s.After(GetCall(r.remoteId));
    EventsAlone(s1);
  }

  lemma MutationsAlone(s: ServerState, r: Resource)
    requires Alone(s)
    ensures var (s', out) := CreateRemote(s, r);
            Alone(s') && (out.Ok? ==> s'.objects == s.objects[r.remoteId := r.payload]) &&
            (out.Err? ==> s'.objects == s.objects)
    ensures var (s', out) := UpdateRemote(s, r);
            Alone(s') && (out.Ok? ==> r.remoteId in s.objects && s'.objects == s.objects[r.remoteId := r.payload]) &&
            (out.Err? ==> s'.objects == s.objects)
  {
    hide Alone;
    EventsAlone(s);
    assert Alone(s.After(CreateCall(r.remoteId, r.payload))) && Alone(s.After(UpdateCall(r.remoteId, r.payload)));
    SameEvents(s.After(CreateCall(r.remoteId, r.payload)), CreateRemote(s, r).0);
    SameEvents(s.After(UpdateCall(r.remoteId, r.payload)), UpdateRemote(s, r).0);
  }

  lemma SameEvents(a: ServerState, b: ServerState)
    requires Alone(a) && a.events == b.events
    ensures Alone(b)
  {
  }

  /** A successful Apply that is not skipped leaves the object in sync. */
  lemma ApplySyncs(s: ServerState, r: Resource, md: Metadata, policy: Policy)
    requires Alone(s) && StoredUnderOwnId(s, r, md) && !policy.skip
    requires ApplySpec(s, r, md, policy).1.Ok?
    ensures InSync(ApplySpec(s, r, md, policy).0, r, md)
  {
    hide Fetch, CreateRemote, UpdateRemote, Alone;
    FetchAlone(s, r, md);
    var (s1, fetched) := Fetch(s, r, md);
    MutationsAlone(s1, r);
    MutationsAlone(CreateRemote(s1, r).0, r);
    if fetched.Ok? {
      var target := r.(remoteId := Target(r, fetched.value, md));
      MutationsAlone(s1, target);
      assert target == if md.idOf(fetched.value).Some? then r.(remoteId := md.idOf(fetched.value).value) else r;
    }
  }

  /** A read of the object is not refused as ambiguous. */
  predicate Unambiguous(s: ServerState, r: Resource, md: Metadata) {
    r.remoteId in s.objects && md.checksListing ==> MatchCount(r, s.listing) <= 1
  }

  /** A read in a quiet environment. */
  lemma FetchQuiet(s: ServerState, r: Resource, md: Metadata)
    requires s.events == []
    ensures var (s', v) := Fetch(s, r, md);
            s'.objects == s.objects && s'.listing == s.listing && s'.events == [] &&
            var place := Place(s.objects, r, md);
            v == if place.None? then Err(NotFound)
                 else if !Unambiguous(s, r, md) then Err(Conflict)
                 else Ok(s.objects[place.value])
  {
    hide MatchCount;
  }

  /** An object in sync is left alone by an unforced Apply; the run succeeds and the diff is
      empty whenever the listing names the resource at most once and the transforms accept
      its payload, and otherwise reports an error. */
  lemma InSyncIsStable(s: ServerState, r: Resource, md: Metadata)
    requires InSync(s, r, md) && s.events == []
    ensures var (s', out) := ApplySpec(s, r, md, Policy(false, false));
            s'.objects == s.objects && s.log <= s'.log && NewMutations(s, s') == [] &&
            (out.Ok? <==> Unambiguous(s, r, md) && md.transform(r.payload).Some?)
    ensures Unambiguous(s, r, md) && md.transform(r.payload).Some? ==> DiffSpec(s, r, md) == Ok([])
  {
    hide Fetch, Mutations, UpdateRemote, CreateRemote, Unambiguous;
    FetchMutatesNothing(s, r, md);
    FetchQuiet(s, r, md);
    if md.transform(r.payload).Some? {
      var t := md.transform(r.payload).value;
      assert Diff.Edits(t, t) == [];
      assert Diff.Reports([], []) == [];
    }
  }

  /** Apply converges: after any successful Apply that was not skipped, a second, unforced
      one issues no mutation, and where it succeeds there is nothing left to diff. */
  lemma ApplyConverges(s: ServerState, r: Resource, md: Metadata, policy: Policy)
    requires Alone(s) && StoredUnderOwnId(s, r, md) && !policy.skip
    requires ApplySpec(s, r, md, policy).1.Ok?
    ensures var s1 := ApplySpec(s, r, md, policy).0.(events := []);
            var (s2, again) := ApplySpec(s1, r, md, Policy(false, false));
            s1.log <= s2.log && NewMutations(s1, s2) == [] && s2.objects == s1.objects &&
            (again.Ok? <==> Unambiguous(s1, r, md) && md.transform(r.payload).Some?) &&
            (again.Ok? ==> DiffSpec(s1, r, md) == Ok([]))
  {
    ApplySyncs(s, r, md, policy);
    hide ApplySpec, DiffSpec, Mutations;
    InSyncIsStable(ApplySpec(s, r, md, policy).0.(events := []), r, md);
  }

  // ----- exactly when it converges -----

  /** There is nothing to update, or what the next read finds is what was updated, or it compares
      equal already. */
  ghost predicate Settles(s: ServerState, r: Resource, md: Metadata, force: bool) {
    var place := Place(s.objects, r, md);
    place.None? || (InSync(s, r, md) && !force) ||
    var target := Target(r, s.objects[place.value], md);
    var next := Place(s.objects[target := r.payload], r, md);
    next.Some? && (next.value == target || (next.value in s.objects && Compares(r, s.objects[next.value], md)))
  }

  /** In a quiet environment, a successful Apply leaves the object in sync exactly then. */
  lemma ApplySyncsIff(s: ServerState, r: Resource, md: Metadata, policy: Policy)
    requires s.events == [] && !policy.skip && ApplySpec(s, r, md, policy).1.Ok?
    ensures InSync(ApplySpec(s, r, md, policy).0, r, md) <==> Settles(s, r, md, policy.force)
  {
    hide Fetch, CreateRemote, UpdateRemote, Unambiguous;
    FetchQuiet(s, r, md);
    var (s1, fetched) := Fetch(s, r, md);
    MutationsAlone(s1, r);
    MutationsAlone(CreateRemote(s1, r).0, r);
    if fetched.Ok? {
      var target := r.(remoteId := Target(r, fetched.value, md));
      MutationsAlone(s1, target);
      assert target == if md.idOf(fetched.value).Some? then r.(remoteId := md.idOf(fetched.value).value) else r;
    }
  }

  /** For an object that is read directly: it is stored under its own identifier or was in sync. */
  lemma DirectSettlesIff(s: ServerState, r: Resource, md: Metadata, force: bool)
    requires r.remoteId in s.objects
    ensures Settles(s, r, md, force) <==> Target(r, s.objects[r.remoteId], md) == r.remoteId || InSync(s, r, md)
  {
  }

  /** What is out of sync is updated by every Apply that succeeds. */
  lemma OutOfSyncIsUpdated(s: ServerState, r: Resource, md: Metadata)
    requires s.events == [] && Place(s.objects, r, md).Some? && !InSync(s, r, md) && Unambiguous(s, r, md)
    requires Compared(md, r.payload, s.objects[Place(s.objects, r, md).value]).Some?
    ensures var s' := ApplySpec(s, r, md, Policy(false, false)).0;
            var target := Target(r, s.objects[Place(s.objects, r, md).value], md);
            s.log <= s'.log && NewMutations(s, s') == [UpdateCall(target, r.payload)]
  {
    hide Fetch, Mutations, UpdateRemote, CreateRemote, Unambiguous;
    FetchQuiet(s, r, md);
    FetchMutatesNothing(s, r, md);
    var (s1, fetched) := Fetch(s, r, md);
    var target := r.(remoteId := Target(r, fetched.value, md));
    UpdateIsLogged(s1, target);
    MutationsNext(s1.log, |s.log|, UpdateCall(target.remoteId, target.payload));
    assert target == if md.idOf(fetched.value).Some? then r.(remoteId := md.idOf(fetched.value).value) else r;
    assert ApplySpec(s, r, md, Policy(false, false)).0 == UpdateRemote(s1, target).0;
  }

  lemma UpdateIsLogged(s: ServerState, r: Resource)
    ensures UpdateRemote(s, r).0.log == s.log + [UpdateCall(r.remoteId, r.payload)]
  {
  }

  /** An Apply in a quiet environment that succeeds without a mutation has found its object in sync. */
  lemma SilentIffInSync(s: ServerState, r: Resource, md: Metadata)
    requires s.events == []
    ensures var (s', out) := ApplySpec(s, r, md, Policy(false, false));
            s.log <= s'.log &&
            (out.Ok? && NewMutations(s, s') == [] <==> InSync(s, r, md) && Unambiguous(s, r, md) && md.transform(r.payload).Some?)
  {
    hide Fetch, Mutations, UpdateRemote, CreateRemote, Unambiguous;
    MutationsOfApply(s, r, md, Policy(false, false));
    if InSync(s, r, md) {
      InSyncIsStable(s, r, md);
    } else {
      FetchQuiet(s, r, md);
      FetchMutatesNothing(s, r, md);
      var (s1, fetched) := Fetch(s, r, md);
      if fetched.Ok? {
        if Compared(md, r.payload, fetched.value).Some? {
          OutOfSyncIsUpdated(s, r, md);
        }
      } else if fetched.fault.NotFound? {
        CreateMutations(s1, |s.log|, r);
      }
    }
  }

  /** Apply converges exactly when it settles: the second, unforced Apply succeeds without a mutation
      if and only if the first has settled, the read is unambiguous and the transforms accept the
      payload. */
  lemma ApplyConvergesIff(s: ServerState, r: Resource, md: Metadata, policy: Policy)
    requires s.events == [] && !policy.skip && ApplySpec(s, r, md, policy).1.Ok?
    ensures var s1 := ApplySpec(s, r, md, policy).0;
            var (s2, again) := ApplySpec(s1, r, md, Policy(false, false));
            s1.log <= s2.log &&
            (again.Ok? && NewMutations(s1, s2) == [] <==>
             Settles(s, r, md, policy.force) && Unambiguous(s1, r, md) && md.transform(r.payload).Some?)
  {
    ApplySyncsIff(s, r, md, policy);
    ApplyStaysQuiet(s, r, md, policy);
    hide ApplySpec, Settles, Unambiguous, Mutations, InSync;
    SilentIffInSync(ApplySpec(s, r, md, policy).0, r, md);
  }

  lemma ApplyStaysQuiet(s: ServerState, r: Resource, md: Metadata, policy: Policy)
    requires s.events == []
    ensures ApplySpec(s, r, md, policy).0.events == []
  {
    hide Fetch;
    FetchQuiet(s, r, md);
  }

  /** For an object that is read directly, no mutation is issued at all exactly when the object is
      stored under its own identifier or was in sync before. */
  lemma DirectConvergesIff(s: ServerState, r: Resource, md: Metadata, policy: Policy)
    requires s.events == [] && !policy.skip && ApplySpec(s, r, md, policy).1.Ok? && r.remoteId in s.objects
    ensures var s1 := ApplySpec(s, r, md, policy).0;
            var s2 := ApplySpec(s1, r, md, Policy(false, false)).0;
            s1.log <= s2.log &&
            (NewMutations(s1, s2) == [] <==> Target(r, s.objects[r.remoteId], md) == r.remoteId || InSync(s, r, md))
  {
    ApplySyncsIff(s, r, md, policy);
    DirectSettlesIff(s, r, md, policy.force);
    ApplyStaysQuiet(s, r, md, policy);
    var s1 := ApplySpec(s, r, md, policy).0;
    MutationsOfApply(s1, r, md, Policy(false, false));
    if InSync(s1, r, md) {
      InSyncIsStable(s1, r, md);
    } else {
      DirectRead(s, r, md, policy);
      OutOfSyncIsUpdated(s1, r, md);
    }
  }

  /** The next read is direct again, and compares what the first one compared. */
  lemma DirectRead(s: ServerState, r: Resource, md: Metadata, policy: Policy)
    requires s.events == [] && !policy.skip && ApplySpec(s, r, md, policy).1.Ok? && r.remoteId in s.objects
    requires !InSync(ApplySpec(s, r, md, policy).0, r, md)
    ensures var s1 := ApplySpec(s, r, md, policy).0;
            r.remoteId in s1.objects && s1.objects[r.remoteId] == s.objects[r.remoteId] && Unambiguous(s1, r, md) &&
            Compared(md, r.payload, s1.objects[r.remoteId]).Some? && s1.events == []
  {
    hide Fetch, CreateRemote, UpdateRemote;
    FetchQuiet(s, r, md);
    ApplyStaysQuiet(s, r, md, policy);
    var (s1, fetched) := Fetch(s, r, md);
    var target := r.(remoteId := Target(r, fetched.value, md));
    MutationsAlone(s1, target);
    UpdateListing(s1, target);
    assert target == if md.idOf(fetched.value).Some? then r.(remoteId := md.idOf(fetched.value).value) else r;
  }

  lemma UpdateListing(s: ServerState, r: Resource)
    ensures UpdateRemote(s, r).0.listing == s.listing
  {
  }

  // ----- the diff and the decision to update -----

  /** With a remote value to compare, Apply is silent exactly when both sides are equal, and the diff
      is empty exactly when they agree up to integers against floats. */
  lemma SilenceAndDiff(s: ServerState, r: Resource, md: Metadata)
    requires s.events == [] && Fetch(s, r, md).1.Ok? && Compared(md, r.payload, Fetch(s, r, md).1.value).Some?
    ensures var (l, remote) := Compared(md, r.payload, Fetch(s, r, md).1.value).value;
            var s' := ApplySpec(s, r, md, Policy(false, false)).0;
            s.log <= s'.log && (NewMutations(s, s') == [] <==> l == remote) && (DiffSpec(s, r, md) == Ok([]) <==> Diff.Agree(l, remote))
  {
    hide Fetch, Mutations, UpdateRemote, CreateRemote, Diff.Edits, Diff.Agree;
    FetchMutatesNothing(s, r, md);
    var (s1, fetched) := Fetch(s, r, md);
    var (l, remote) := Compared(md, r.payload, fetched.value).value;
    Diff.EditsEmptyIffAgree(l, remote);
    var target := if md.idOf(fetched.value).Some? then r.(remoteId := md.idOf(fetched.value).value) else r;
    UpdateIsLogged(s1, target);
    MutationsNext(s1.log, |s.log|, UpdateCall(target.remoteId, target.payload));
    assert |Diff.Reports([], Diff.Edits(l, remote))| == |Diff.Edits(l, remote)|;
  }

  /** So an update may follow an empty diff: the integer 1 against the float 1.0. */
  lemma NumbersDiffer(id: string)
    ensures var md := Metadata(_ => None, false, _ => None, v => Some(v));
            var s := ServerState(map[id := Float(1.0)], [], _ => Null, [], []);
            var r := Resource(id, id, Int(1));
            var s' := ApplySpec(s, r, md, Policy(false, false)).0;
            DiffSpec(s, r, md) == Ok([]) && s.log <= s'.log && NewMutations(s, s') != []
  {
    var md := Metadata(_ => None, false, _ => None, v => Some(v));
    var s := ServerState(map[id := Float(1.0)], [], _ => Null, [], []);
    var r := Resource(id, id, Int(1));
    Diff.IntAgainstFloat(1, 1.0);
    Diff.EditsEmptyIffAgree(Int(1), Float(1.0));
    FetchQuiet(s, r, md);
    hide Fetch, ApplySpec, DiffSpec, Mutations;
    SilenceAndDiff(s, r, md);
  }

  // ----- objects stored under a foreign identifier -----

  /** The state after n unforced runs of Apply. */
  function Applied(s: ServerState, r: Resource, md: Metadata, n: nat): ServerState {
    if n == 0 then s else ApplySpec(Applied(s, r, md, n - 1), r, md, Policy(false, false)).0
  }

  /** The object under the identifier of the resource names another object, and is out of sync. */
  ghost predicate Foreign(s: ServerState, r: Resource, md: Metadata) {
    s.events == [] && r.remoteId in s.objects && Unambiguous(s, r, md) && !InSync(s, r, md) &&
    Compared(md, r.payload, s.objects[r.remoteId]).Some? &&
    var target := Target(r, s.objects[r.remoteId], md); target != r.remoteId && target in s.objects
  }

  lemma ForeignStays(s: ServerState, r: Resource, md: Metadata)
    requires Foreign(s, r, md)
    ensures var (s', out) := ApplySpec(s, r, md, Policy(false, false));
            out.Ok? && Foreign(s', r, md) && s'.objects[r.remoteId] == s.objects[r.remoteId] &&
            s.log <= s'.log && NewMutations(s, s') == [UpdateCall(Target(r, s.objects[r.remoteId], md), r.payload)]
  {
    OutOfSyncIsUpdated(s, r, md);
    hide Fetch, Mutations;
    FetchQuiet(s, r, md);
  }

  /** Such an object is never brought into sync: every Apply succeeds and updates the other object. */
  lemma {:induction false} ForeignIdDiverges(s: ServerState, r: Resource, md: Metadata, n: nat)
    requires Foreign(s, r, md)
    ensures var sn := Applied(s, r, md, n);
            var (next, out) := ApplySpec(sn, r, md, Policy(false, false));
            Foreign(sn, r, md) && sn.objects[r.remoteId] == s.objects[r.remoteId] && out.Ok? &&
            sn.log <= next.log && NewMutations(sn, next) == [UpdateCall(Target(r, s.objects[r.remoteId], md), r.payload)]
  {
    hide ApplySpec, Mutations, InSync, Unambiguous, Target;
    if n > 0 {
      ForeignIdDiverges(s, r, md, n - 1);
      ForeignStays(Applied(s, r, md, n - 1), r, md);
    }
    ForeignStays(Applied(s, r, md, n), r, md);
  }

  /** The identifier in the field "id". */
  function IdField(v: Value): Option<string> {
    if v.Obj? && "id" in v.fields && v.fields["id"].Str? then Some(v.fields["id"].s) else None
  }

  /** For instance, the object "a" whose field says "b". */
  lemma ForeignExample(size: int)
    requires size != 0
    ensures var md := Metadata(IdField, false, _ => None, v => Some(v));
            var stored := Obj(map["id" := Str("b"), "size" := Int(0)]);
            var s := ServerState(map["a" := stored, "b" := stored], [], _ => Null, [], []);
            Foreign(s, Resource("a", "a", Obj(map["id" := Str("a"), "size" := Int(size)])), md)
  {
    var stored := Obj(map["id" := Str("b"), "size" := Int(0)]);
    var wanted := Obj(map["id" := Str("a"), "size" := Int(size)]);
    assert stored.fields["size"] != wanted.fields["size"];
    assert IdField(stored) == Some("b");
  }
}

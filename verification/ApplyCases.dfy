/** What one Apply does in each case, said about the objects, the listing and the calls
    themselves. */
module ApplyCases {
  import opened Payload
  import opened Text
  import opened Apply
  import Diff

  // ----- the ambiguity check -----

  /** The candidate has the alias of the resource, or its identifier where that is not blank. */
  ghost predicate Names(c: Candidate, r: Resource) {
    c.alias == r.alias || (c.remoteId == r.remoteId && exists x :: x in r.remoteId && !IsSpace(x))
  }

  /** Two entries of the listing name the resource. */
  ghost predicate ListedTwice(r: Resource, listing: seq<Candidate>) {
    exists i, j :: 0 <= i < j < |listing| && Names(listing[i], r) && Names(listing[j], r)
  }

  lemma SameIdentityIff(r: Resource, c: Candidate)
    ensures SameIdentity(r, c) <==> Names(c, r)
  {
    hide TrimSpace;
    BlankIff(r.remoteId);
  }

  lemma {:induction false} CountZero(r: Resource, listing: seq<Candidate>)
    ensures MatchCount(r, listing) == 0 <==> forall i :: 0 <= i < |listing| ==> !Names(listing[i], r)
  {
    hide Names, SameIdentity;
    if listing != [] {
      CountZero(r, listing[..|listing| - 1]);
      SameIdentityIff(r, listing[|listing| - 1]);
      assert listing[|listing| - 1] == listing[|listing| - 1];
    }
  }

  lemma {:induction false} CountIff(r: Resource, listing: seq<Candidate>)
    ensures MatchCount(r, listing) > 1 <==> ListedTwice(r, listing)
  {
    hide Names, SameIdentity;
    if listing != [] {
      var n := |listing| - 1;
      var front := listing[..n];
      CountIff(r, front);
      CountZero(r, front);
      SameIdentityIff(r, listing[n]);
      if ListedTwice(r, front) {
        var i, j :| 0 <= i < j < |front| && Names(front[i], r) && Names(front[j], r);
        assert Names(listing[i], r) && Names(listing[j], r);
      }
      if ListedTwice(r, listing) {
        var i, j :| 0 <= i < j < |listing| && Names(listing[i], r) && Names(listing[j], r);
        assert front[i] == listing[i];
        if j < n {
          assert front[j] == listing[j];
        }
      }
      if Names(listing[n], r) && MatchCount(r, front) > 0 {
        var i :| 0 <= i < n && Names(front[i], r);
        assert Names(listing[i], r);
      }
    }
  }

  /** The check after a direct read: a conflict if it is on and the listing names the resource twice;
      a listing that fails counts only if the fault is itself a conflict. */
  lemma CheckListingIff(s: ServerState, r: Resource, md: Metadata)
    requires s.events == [] || s.events[0].Calm? || s.events[0].Fails?
    ensures var (s', fault) := CheckListing(s, r, md);
            s'.objects == s.objects && s'.log == s.log + (if md.checksListing then [ListCall] else []) &&
            (fault == None || fault == Some(Conflict)) &&
            (fault == Some(Conflict) <==>
             md.checksListing &&
             if s.events != [] && s.events[0].Fails? then s.events[0].fault == Conflict else ListedTwice(r, s.listing))
  {
    hide MatchCount, ListedTwice;
    CountIff(r, s.listing);
  }

  // ----- a run in a quiet environment -----

  /** Where the object is: under the identifier of the resource, or else where the fallbacks look. */
  ghost predicate StandsAt(s: ServerState, r: Resource, md: Metadata, id: string) {
    id in s.objects && (id == r.remoteId || (r.remoteId !in s.objects && md.finds(s.objects) == Some(id)))
  }

  /** The calls of the read. */
  ghost function ReadCalls(s: ServerState, r: Resource, md: Metadata): seq<Call> {
    [GetCall(r.remoteId)] +
    (if r.remoteId !in s.objects then [SearchCall] else if md.checksListing then [ListCall] else [])
  }

  lemma ReadQuiet(s: ServerState, r: Resource, md: Metadata)
    requires s.events == []
    ensures var (s', v) := Fetch(s, r, md);
            s' == s.(log := s.log + ReadCalls(s, r, md)) &&
            (v == Err(Conflict) <==> r.remoteId in s.objects && md.checksListing && ListedTwice(r, s.listing)) &&
            (v != Err(Conflict) ==> forall id :: StandsAt(s, r, md, id) ==> v == Ok(s.objects[id])) &&
            (v != Err(Conflict) && (forall id :: !StandsAt(s, r, md, id)) ==> v == Err(NotFound))
  {
    hide MatchCount, ListedTwice;
    CountIff(r, s.listing);
    var get, list := [GetCall(r.remoteId)], [ListCall];
    assert s.log + get + list == s.log + (get + list);
    assert s.log + get + [SearchCall] == s.log + (get + [SearchCall]);
    assert r.remoteId in s.objects ==> StandsAt(s, r, md, r.remoteId);
    if r.remoteId !in s.objects && Found(s.objects, md).Some? {
      assert StandsAt(s, r, md, Found(s.objects, md).value);
    }
  }

  /** The resource that a mutation returns: with the answer of the service, or as it was sent if there
      is none. */
  ghost function Answered(s: ServerState, r: Resource): Resource {
    Resource(r.alias, r.remoteId, if s.echo(r.payload) == Null then r.payload else s.echo(r.payload))
  }

  /** There is no object: it is created, and the created resource is returned. */
  lemma ApplyCreates(s: ServerState, r: Resource, md: Metadata, force: bool)
    requires s.events == [] && r.remoteId !in s.objects && forall id :: !StandsAt(s, r, md, id)
    ensures ApplySpec(s, r, md, Policy(force, false)) ==
            (s.(objects := s.objects[r.remoteId := r.payload],
                log := s.log + [GetCall(r.remoteId), SearchCall, CreateCall(r.remoteId, r.payload)]),
             Ok(Answered(s, r)))
  {
    hide ListedTwice, Fetch, StandsAt;
    ReadQuiet(s, r, md);
    assert ReadCalls(s, r, md) == [GetCall(r.remoteId), SearchCall];
    assert s.log + [GetCall(r.remoteId), SearchCall] + [CreateCall(r.remoteId, r.payload)] ==
           s.log + [GetCall(r.remoteId), SearchCall, CreateCall(r.remoteId, r.payload)];
  }

  /** The object is ambiguous: nothing is changed and the conflict is reported. */
  lemma ApplyRefuses(s: ServerState, r: Resource, md: Metadata, force: bool)
    requires s.events == [] && r.remoteId in s.objects && md.checksListing && ListedTwice(r, s.listing)
    ensures ApplySpec(s, r, md, Policy(force, false)) ==
            (s.(log := s.log + [GetCall(r.remoteId), ListCall]), Err(Conflict))
  {
    hide ListedTwice, Fetch, StandsAt;
    ReadQuiet(s, r, md);
    assert ReadCalls(s, r, md) == [GetCall(r.remoteId), ListCall];
  }

  /** There is an object: the resource takes over the identifier that it carries. The run fails
      if either side cannot be transformed; it returns the remote payload if both sides are equal
      and no update is forced; otherwise it updates the object under that identifier and returns
      the updated resource, and fails if there is no such object. */
  lemma ApplyReconciles(s: ServerState, r: Resource, md: Metadata, force: bool, id: string)
    requires s.events == [] && StandsAt(s, r, md, id)
    requires r.remoteId in s.objects && md.checksListing ==> !ListedTwice(r, s.listing)
    ensures var remote := s.objects[id];
            var target := if md.idOf(remote).Some? then md.idOf(remote).value else r.remoteId;
            var l, m := md.transform(r.payload), md.transform(remote);
            var read := s.(log := s.log + ReadCalls(s, r, md));
            var updated := read.(log := read.log + [UpdateCall(target, r.payload)]);
            ApplySpec(s, r, md, Policy(force, false)) ==
            if l.None? || m.None? then (read, Err(Validation))
            else if l == m && !force then (read, Ok(Resource(r.alias, target, remote)))
            else if target !in s.objects then (updated, Err(NotFound))
            else (updated.(objects := s.objects[target := r.payload]), Ok(Answered(s, Resource(r.alias, target, r.payload))))
  {
    hide ListedTwice, Fetch, StandsAt, ReadCalls;
    ReadQuiet(s, r, md);
  }

  // ----- a run with faults -----

  /** A fault of the direct read that is neither a missing object nor a validation fault ends the run. */
  lemma ReadFaultEnds(s: ServerState, r: Resource, md: Metadata, force: bool)
    requires s.events != [] && s.events[0].Fails? && (s.events[0].fault.Conflict? || s.events[0].fault.Internal?)
    ensures var (s', out) := ApplySpec(s, r, md, Policy(force, false));
            s'.objects == s.objects && s'.log == s.log + [GetCall(r.remoteId)] && out == Err(s.events[0].fault)
  {
  }

  /** After the other two the fallbacks are asked. If they find nothing, a missing object is created
      and a validation fault is returned. */
  lemma ReadFaultSearches(s: ServerState, r: Resource, md: Metadata, force: bool)
    requires |s.events| == 1 && s.events[0].Fails? && (s.events[0].fault.NotFound? || s.events[0].fault.Validation?)
    requires forall id :: md.finds(s.objects) == Some(id) ==> id !in s.objects
    requires r.remoteId !in s.objects
    ensures var (s', out) := ApplySpec(s, r, md, Policy(force, false));
            var calls := [GetCall(r.remoteId), SearchCall];
            if s.events[0].fault.Validation? then s'.objects == s.objects && s'.log == s.log + calls && out == Err(Validation)
            else s'.objects == s.objects[r.remoteId := r.payload] && out == Ok(Answered(s, r)) &&
                 s'.log == s.log + calls + [CreateCall(r.remoteId, r.payload)]
  {
    assert s.log + [GetCall(r.remoteId)] + [SearchCall] == s.log + [GetCall(r.remoteId), SearchCall];
  }

  /** What the fallbacks find by themselves is compared like an object; when it is equal the run
      returns it and mutates nothing. */
  lemma RescuedIsCompared(s: ServerState, r: Resource, md: Metadata)
    requires |s.events| >= 2 && s.events[0].Fails? && (s.events[0].fault.NotFound? || s.events[0].fault.Validation?)
    requires s.events[1].Rescued?
    ensures var v := s.events[1].value;
            var (s', out) := ApplySpec(s, r, md, Policy(false, false));
            md.transform(r.payload).Some? && md.transform(r.payload) == md.transform(v) ==>
              s'.objects == s.objects && s'.log == s.log + [GetCall(r.remoteId), SearchCall] &&
              out == Ok(Resource(r.alias, if md.idOf(v).Some? then md.idOf(v).value else r.remoteId, v))
  {
    assert s.log + [GetCall(r.remoteId)] + [SearchCall] == s.log + [GetCall(r.remoteId), SearchCall];
  }

  /** A fault of the fallbacks ends the run, except that a missing object leaves the first fault. */
  lemma SearchFault(s: ServerState, r: Resource, md: Metadata)
    requires |s.events| >= 2 && s.events[0].Fails? && (s.events[0].fault.NotFound? || s.events[0].fault.Validation?)
    requires s.events[1].Fails?
    ensures var (s', v) := Fetch(s, r, md);
            s'.objects == s.objects && s'.log == s.log + [GetCall(r.remoteId), SearchCall] &&
            v == Err(if s.events[1].fault.NotFound? then s.events[0].fault else s.events[1].fault)
  {
    assert s.log + [GetCall(r.remoteId)] + [SearchCall] == s.log + [GetCall(r.remoteId), SearchCall];
  }

  lemma ReadsNothing(s: ServerState, r: Resource, md: Metadata, later: seq<Event>)
    requires s.events == [Calm, Calm] + later && r.remoteId !in s.objects && Found(s.objects, md).None?
    ensures Fetch(s, r, md) == (s.(events := later, log := s.log + [GetCall(r.remoteId), SearchCall]), Err(NotFound))
  {
    var one, two := s.After(GetCall(r.remoteId)), s.After(GetCall(r.remoteId)).After(SearchCall);
    assert one.events == [Calm] + later && one.Event() == Calm;
    assert two.events == later;
    assert s.log + [GetCall(r.remoteId)] + [SearchCall] == s.log + [GetCall(r.remoteId), SearchCall];
    assert GetStep(s, r.remoteId) == (one, Err(NotFound));
    assert SearchStep(one, md, NotFound) == (two, Err(NotFound));
  }

  lemma MutationsMeet(s: ServerState, r: Resource, others: map<string, Value>)
    requires s.events == [Rewritten(others)] && r.remoteId in others
    ensures var late := s.(events := [], objects := others, log := s.log + [CreateCall(r.remoteId, r.payload)]);
            CreateRemote(s, r) == (late, Err(Conflict))
  {
    assert s.events[1..] == [];
  }

  /** An object that another client creates between the read and the Create is overwritten: the
      Create is answered by a conflict and the Update follows. */
  lemma LateObjectOverwritten(s: ServerState, r: Resource, md: Metadata, force: bool, others: map<string, Value>)
    requires s.events == [Calm, Calm] + [Rewritten(others)] && r.remoteId in others
    requires r.remoteId !in s.objects && forall id :: md.finds(s.objects) == Some(id) ==> id !in s.objects
    ensures var (s', out) := ApplySpec(s, r, md, Policy(force, false));
            out == Ok(Answered(s, r)) && s'.objects == others[r.remoteId := r.payload] &&
            s'.log == s.log + [GetCall(r.remoteId), SearchCall] + [CreateCall(r.remoteId, r.payload)] +
                      [UpdateCall(r.remoteId, r.payload)]
  {
    hide Fetch, CreateRemote;
    ReadsNothing(s, r, md, [Rewritten(others)]);
    MutationsMeet(s.(events := [Rewritten(others)], log := s.log + [GetCall(r.remoteId), SearchCall]), r, others);
  }

  // ----- the diff -----

  /** In a quiet environment the diff compares the desired payload with the object, or with null if there
      is no object; it reports a conflict if the object is ambiguous, and fails if either side cannot be
      transformed. */
  lemma DiffQuiet(s: ServerState, r: Resource, md: Metadata)
    requires s.events == []
    ensures r.remoteId in s.objects && md.checksListing && ListedTwice(r, s.listing) ==> DiffSpec(s, r, md) == Err(Conflict)
    ensures !(r.remoteId in s.objects && md.checksListing && ListedTwice(r, s.listing)) ==>
              forall remote :: Remote(s, r, md, remote) ==>
                var l, m := md.transform(r.payload), md.transform(remote);
                DiffSpec(s, r, md) ==
                if l.None? || m.None? then Err(Validation) else Ok(Diff.Reports([], Diff.Edits(l.value, m.value)))
  {
    hide ListedTwice, Fetch, StandsAt, ReadCalls, Diff.Edits, Diff.Reports;
    ReadQuiet(s, r, md);
  }

  /** What the desired payload is compared with. */
  ghost predicate Remote(s: ServerState, r: Resource, md: Metadata, remote: Value) {
    (exists id :: StandsAt(s, r, md, id) && remote == s.objects[id]) ||
    (remote == Null && forall id :: !StandsAt(s, r, md, id))
  }

  /** The conflict checker skips: nothing is called, and the resource is returned as it is. */
  lemma SkippedIsReturned(s: ServerState, r: Resource, md: Metadata, force: bool)
    ensures ApplySpec(s, r, md, Policy(force, true)) == (s, Ok(r))
  {
  }
}

/** Admission of SyncPolicies (api/v1alpha1/webhook.go): the overlap check against the listed
    policies and generators of a namespace, and what sequences of admitted requests keep. */
module Admission {
  import opened Payload
  import opened Text
  import opened Paths

  // ----- normalizing a normalized path -----

  /** A path that is its own normal form. */
  predicate Normal(n: string) {
    NormalizeLogicalPath(n) == Some(n)
  }

  /** Normalizing n once more refuses it or gives a path that is not above it: n ends in white
      space, and without it the last segment still stands (as another segment, or as the refused
      ".."), or it falls away and what remains is reserved. */
  predicate Drifts(n: string) {
    EndsInSpace(n) && Segments(n) != [] &&
    var ss := Segments(n);
    var front, kept := ss[..|ss| - 1], TrimRight(ss[|ss| - 1], IsSpace);
    (kept != "" && kept != ".") || Reserved(Render(front))
  }

  lemma NormalIsClean(n: string)
    requires Normal(n)
    ensures Clean(Segments(n)) && n == Render(Segments(n)) && !Reserved(n) && "/" <= n
    ensures EndsInSpace(n) ==> Segments(n) != []
  {
    NormalizedIsClean(n);
  }

  lemma NormalizePathIsNormal(raw: string)
    requires NormalizePath(raw).Some?
    ensures Normal(NormalizePath(raw).value)
  {
    hide NormalizeLogicalPath, CleanRawPath;
    var trimmed := Slashes(TrimSpace(raw));
    var cleaned := CleanRawPath(if "/" <= trimmed then trimmed else "/" + trimmed);
    NormalizeIdempotent(cleaned.value);
  }

  /** The path normalization on trimmed, rooted input that holds no separator inside its parts. */
  lemma NormalizePathOfRender(parts: seq<string>)
    requires parts != [] && forall p :: p in parts ==> '/' !in p && '\\' !in p
    requires Trimmed(Render(parts))
    ensures NormalizePath(Render(parts)) ==
            if ".." in parts || Reserved(Render(Essential(parts))) then None else Some(Render(Essential(parts)))
  {
    hide TrimSpace, Slashes, Reserved, Render, Split;
    var p := Render(parts);
    TrimSpaceFixed(p);
    RenderPlain(parts);
    RenderRooted(parts);
    SplitOfRender(parts);
    if ".." in parts {
      assert CleanRawPath(p) == None;
    } else {
      CleanOfRender(parts);
      NormalizeIdempotent(p);
    }
  }

  /** Normalization is idempotent on paths that do not end in white space. */
  lemma NormalizeSettled(n: string)
    requires Normal(n) && !EndsInSpace(n)
    ensures NormalizePath(n) == Some(n)
  {
    hide NormalizePath, Reserved, NormalizeLogicalPath, Essential, Segments, Render, Join, Clean, Trimmed, EndsInSpace;
    NormalIsClean(n);
    var ss := Segments(n);
    EssentialOfClean(ss);
    TrimmedRender(n);
    RenderNothing();
    DotsAreNotSegments(ss);
    NormalizePathOfRender(if ss == [] then [""] else ss);
  }

  /** On the others it acts on the path whose last segment is trimmed. */
  function TrimmedAgain(front: seq<string>, kept: string): Option<string> {
    if kept == "" || kept == "." then if Reserved(Render(front)) then None else Some(Render(front))
    else if kept == ".." then None
    else Some(Render(front + [kept]))
  }

  lemma NormalizeAgain(n: string)
    requires Normal(n) && EndsInSpace(n)
    ensures Segments(n) != [] && Clean(Segments(n)) && n == Render(Segments(n))
    ensures var ss := Segments(n); NormalizePath(n) == TrimmedAgain(ss[..|ss| - 1], TrimRight(ss[|ss| - 1], IsSpace))
  {
    hide NormalizePath, Reserved, NormalizeLogicalPath, Segments, Render, Clean, Trimmed, EndsInSpace, TrimRight;
    NormalIsClean(n);
    var ss := Segments(n);
    var front, last := ss[..|ss| - 1], ss[|ss| - 1];
    var kept := TrimRight(last, IsSpace);
    var parts := front + [kept];
    assert ss == front + [last];
    TrimRightPrefix(last, IsSpace);
    TrimOfRender(front, last);
    NormalizePathTrims(n);
    DotsAreNotSegments(ss);
    assert forall s :: s in front ==> s in ss;
    assert last in ss;
    NormalizePathOfRender(parts);
    EssentialSnoc(ss, kept);
    SameCore(n, Render(parts));
  }

  lemma NormalizePathTrims(n: string)
    ensures NormalizePath(n) == NormalizePath(TrimSpace(n))
  {
    hide TrimSpace, Slashes, CleanRawPath, NormalizeLogicalPath;
    TrimSpaceTrimmed(n);
    TrimSpaceFixed(TrimSpace(n));
  }

  lemma EssentialSnoc(segments: seq<string>, kept: string)
    requires Clean(segments) && segments != []
    ensures var front := segments[..|segments| - 1];
            Essential(front + [kept]) == if kept == "" || kept == "." then front else front + [kept]
  {
    var front := segments[..|segments| - 1];
    EssentialOfClean(front);
    EssentialAppend(front, [kept]);
    assert [kept][1..] == [];
  }

  /** What is reserved does not depend on the white space around the path. */
  lemma SameCore(n: string, trimmed: string)
    requires trimmed == TrimSpace(n)
    ensures Reserved(trimmed) == Reserved(n)
  {
    TrimSpaceTrimmed(n);
    TrimSpaceFixed(trimmed);
  }

  lemma RenderNothing()
    ensures Render([]) == "/" && Render([""]) == "/" && Essential([""]) == []
  {
    assert [""][1..] == [];
  }

  lemma TrimmedRender(n: string)
    requires "/" <= n && !EndsInSpace(n)
    ensures Trimmed(n)
  {
  }

  lemma DotsAreNotSegments(segments: seq<string>)
    requires Clean(segments)
    ensures ".." !in segments && forall s :: s in segments ==> '/' !in s && '\\' !in s
  {
  }

  // ----- the overlap check of one request -----

  /** The check of a listed path against a candidate that has been normalized once already. */
  predicate Clear(raw: string, candidate: string) {
    !HasPathOverlap(raw, candidate)
  }

  /** Some logical path is in both scopes. */
  predicate ScopesMeet(a: string, b: string) {
    Related(Segments(a), Segments(b))
  }

  lemma OverlapOfNormal(raw: string, candidate: string)
    ensures HasPathOverlap(raw, candidate) <==>
              NormalizePath(raw).Some? && NormalizePath(candidate).Some? &&
              ScopesMeet(NormalizePath(raw).value, NormalizePath(candidate).value)
  {
    hide NormalizePath, NormalizeLogicalPath, HasLogicalPathOverlap, Related, Segments, SplitLogicalPathSegments;
    if NormalizePath(raw).Some? && NormalizePath(candidate).Some? {
      var a, b := NormalizePath(raw).value, NormalizePath(candidate).value;
      NormalizePathIsNormal(raw);
      NormalizePathIsNormal(candidate);
      NormalizedIsClean(a);
      NormalizedIsClean(b);
      OverlapIsPrefix(a, b);
    }
  }

  /** The check is exact for candidates that do not end in white space. */
  lemma CheckIsExact(raw: string, candidate: string)
    requires Normal(candidate) && !EndsInSpace(candidate)
    ensures Clear(raw, candidate) <==> !(NormalizePath(raw).Some? && ScopesMeet(NormalizePath(raw).value, candidate))
  {
    hide NormalizePath, HasPathOverlap, ScopesMeet;
    NormalizeSettled(candidate);
    OverlapOfNormal(raw, candidate);
  }

  /** Whatever the candidate, a policy that the check clears does not share a path with it, unless
      the candidate drifts. */
  lemma CheckIsSound(raw: string, candidate: string)
    requires Normal(candidate) && !Drifts(candidate)
    requires NormalizePath(raw).Some? && Clear(raw, candidate)
    ensures !ScopesMeet(NormalizePath(raw).value, candidate)
  {
    hide NormalizePath, HasPathOverlap, Reserved, TrimRight, Segments, Render, Clean, Related;
    if EndsInSpace(candidate) {
      NormalizeAgain(candidate);
      var ss := Segments(candidate);
      var front := ss[..|ss| - 1];
      OverlapOfNormal(raw, candidate);
      FrontIsClean(ss);
      CleanIsSolid(front);
      SegmentsOfRender(front);
      RelatedAbove(Segments(NormalizePath(raw).value), ss);
    } else {
      CheckIsExact(raw, candidate);
    }
  }

  lemma FrontIsClean(segments: seq<string>)
    requires Clean(segments) && segments != []
    ensures Clean(segments[..|segments| - 1])
  {
  }

  lemma RelatedAbove(a: seq<string>, b: seq<string>)
    requires b != []
    ensures Related(a, b) ==> Related(a, b[..|b| - 1])
  {
    if a <= b && |a| == |b| {
      assert b[..|b| - 1] <= a;
    }
  }

  /** A path that stands for the scope n, and that the check does not find when n drifts. */
  lemma DriftIsMissed(n: string)
    requires Normal(n) && Drifts(n)
    ensures NormalizePath(n + "/") == Some(n) && Clear(n + "/", n)
  {
    hide NormalizePath, HasPathOverlap, Reserved, TrimRight, Segments, Render, Clean, NormalizeLogicalPath;
    NormalizeAgain(n);
    SlashAtTheEnd(n);
    OverlapOfNormal(n + "/", n);
    var ss := Segments(n);
    var front, last := ss[..|ss| - 1], ss[|ss| - 1];
    var kept := TrimRight(last, IsSpace);
    if TrimmedAgain(front, kept).Some? {
      assert ss == front + [last];
      TrimmedIsClean(front, last);
      CleanIsSolid(front + [kept]);
      SegmentsOfRender(front + [kept]);
      TrimmedDiffers(front, last);
      assert !Related(ss, front + [kept]);
    }
  }

  lemma TrimmedIsClean(front: seq<string>, last: string)
    requires Clean(front + [last])
    ensures var kept := TrimRight(last, IsSpace);
            kept != "" && kept != "." && kept != ".." ==> Clean(front + [kept])
  {
    var ss := front + [last];
    assert ss[|front|] == last && last in ss;
    assert forall s :: s in front ==> s in ss;
  }

  lemma TrimmedDiffers(front: seq<string>, last: string)
    requires Clean(front + [last]) && EndsInSpace(Render(front + [last]))
    ensures TrimRight(last, IsSpace) != last
  {
    hide IsSpace;
    var n := Render(front + [last]);
    JoinIsTerminated(front, last);
    assert (front + [last])[|front|] == last && last in front + [last] && last != "";
    assert n == "/" + Terminated(front) + last;
    assert n[|n| - 1] == last[|last| - 1];
  }

  lemma SlashAtTheEnd(n: string)
    requires Normal(n) && EndsInSpace(n)
    ensures NormalizePath(n + "/") == Some(n)
  {
    hide NormalizePath, Reserved, NormalizeLogicalPath, Segments, Render, Clean, Trimmed, TrimRight, Essential;
    NormalIsClean(n);
    var ss := Segments(n);
    var parts := ss + [""];
    RenderWithSlash(ss);
    EssentialAppend(ss, [""]);
    EssentialOfClean(ss);
    RenderNothing();
    assert ss + [] == ss;
    DotsAreNotSegments(ss);
    RootedTrimmed(n);
    NormalizePathOfRender(parts);
  }

  lemma RootedTrimmed(n: string)
    requires "/" <= n
    ensures Trimmed(n + "/")
  {
  }

  /** The check finds every overlap with a candidate if and only if the candidate does not drift. */
  lemma CheckIsSoundIff(n: string)
    requires Normal(n)
    ensures (forall raw :: NormalizePath(raw).Some? && Clear(raw, n) ==> !ScopesMeet(NormalizePath(raw).value, n))
            <==> !Drifts(n)
  {
    hide NormalizePath, Clear, Drifts, ScopesMeet, Normal;
    if Drifts(n) {
      DriftIsMissed(n);
      MeetsItself(n);
    } else {
      forall raw | NormalizePath(raw).Some? && Clear(raw, n)
        ensures !ScopesMeet(NormalizePath(raw).value, n)
      {
        CheckIsSound(raw, n);
      }
    }
  }

  lemma MeetsItself(n: string)
    ensures ScopesMeet(n, n)
  {
  }

  // ----- requests on one namespace -----

  /** The part of a SyncPolicy that admission reads: its path as it was written, whether the rest
      of its specification is valid, and whether it has a deletion timestamp. */
  datatype Policy = Policy(path: string, restValid: bool, deleting: bool)

  datatype Item = Item(name: string, policy: Policy)

  datatype Generator = Generator(collectionPaths: seq<string>, deleting: bool)

  type Cluster = map<string, Policy>

  /** The list that the server returns for the namespace. */
  ghost predicate Lists(items: seq<Item>, cluster: Cluster) {
    (forall i :: 0 <= i < |items| ==> items[i].name in cluster && cluster[items[i].name] == items[i].policy) &&
    (forall name :: name in cluster ==> exists i :: 0 <= i < |items| && items[i].name == name)
  }

  predicate Collides(expand: string -> string, item: Item, name: string, candidate: string) {
    item.name != name && !item.policy.deleting && HasPathOverlap(expand(item.policy.path), candidate)
  }

  predicate GeneratorCollides(g: Generator, candidate: string) {
    !g.deleting && exists i :: 0 <= i < |g.collectionPaths| && HasPathOverlap(g.collectionPaths[i], candidate)
  }

  /** The request for a policy is admitted: its specification is valid and its normalized path is
      clear of every other live policy and of every live generator. */
  ghost predicate Admitted(expand: string -> string, cluster: Cluster, generators: seq<Generator>, name: string, policy: Policy) {
    policy.restValid &&
    var candidate := NormalizePath(expand(policy.path));
    candidate.Some? &&
    (forall other :: other in cluster ==> !Collides(expand, Item(other, cluster[other]), name, candidate.value)) &&
    (forall i :: 0 <= i < |generators| ==> !GeneratorCollides(generators[i], candidate.value))
  }

  method ValidateNoOverlap(expand: string -> string, items: seq<Item>, generators: seq<Generator>, name: string,
                           candidate: string) returns (clear: bool)
    ensures clear <==> (forall i :: 0 <= i < |items| ==> !Collides(expand, items[i], name, candidate)) &&
                       (forall i :: 0 <= i < |generators| ==> !GeneratorCollides(generators[i], candidate))
  {
    hide HasPathOverlap;
    for i := 0 to |items|
      invariant forall j :: 0 <= j < i ==> !Collides(expand, items[j], name, candidate)
    {
      var expanded := expand(items[i].policy.path);
      if items[i].name == name {
        continue;
      }
      if items[i].policy.deleting {
        continue;
      }
      if HasPathOverlap(expanded, candidate) {
        assert Collides(expand, items[i], name, candidate);
        return false;
      }
    }
    for i := 0 to |generators|
      invariant forall j :: 0 <= j < i ==> !GeneratorCollides(generators[j], candidate)
    {
      if generators[i].deleting {
        continue;
      }
      for k := 0 to |generators[i].collectionPaths|
        invariant forall m :: 0 <= m < k ==> !HasPathOverlap(generators[i].collectionPaths[m], candidate)
      {
        if HasPathOverlap(generators[i].collectionPaths[k], candidate) {
          assert GeneratorCollides(generators[i], candidate);
          return false;
        }
      }
    }
    return true;
  }

  /** Also the validation of updates. */
  method ValidateCreate(expand: string -> string, items: seq<Item>, generators: seq<Generator>, name: string,
                        policy: Policy, ghost cluster: Cluster) returns (ok: bool)
    requires Lists(items, cluster)
    ensures ok <==> Admitted(expand, cluster, generators, name, policy)
  {
    hide NormalizePath, HasPathOverlap, GeneratorCollides;
    if !policy.restValid {
      return false;
    }
    var candidate := NormalizePath(expand(policy.path));
    if candidate.None? {
      return false;
    }
    ok := ValidateNoOverlap(expand, items, generators, name, candidate.value);
    assert forall i :: 0 <= i < |items| ==> items[i] == Item(items[i].name, cluster[items[i].name]);
  }

  /** A request is admitted exactly when its specification is valid, its path has a normal form, and that
      form is clear of the path of every policy of another name that is not being deleted, and of every
      collection path of every generator that is not being deleted. */
  lemma AdmittedIff(expand: string -> string, cluster: Cluster, generators: seq<Generator>, name: string, policy: Policy)
    ensures Admitted(expand, cluster, generators, name, policy) <==>
              policy.restValid && NormalizePath(expand(policy.path)).Some? &&
              var candidate := NormalizePath(expand(policy.path)).value;
              (forall other :: other in cluster && other != name && !cluster[other].deleting ==>
                 Clear(expand(cluster[other].path), candidate)) &&
              (forall i, k :: 0 <= i < |generators| && !generators[i].deleting && 0 <= k < |generators[i].collectionPaths| ==>
                 Clear(generators[i].collectionPaths[k], candidate))
  {
    hide NormalizePath, HasPathOverlap;
    if NormalizePath(expand(policy.path)).Some? {
      var candidate := NormalizePath(expand(policy.path)).value;
      forall other | other in cluster
        ensures Collides(expand, Item(other, cluster[other]), name, candidate) <==>
                other != name && !cluster[other].deleting && !Clear(expand(cluster[other].path), candidate)
      {
      }
      forall i | 0 <= i < |generators|
        ensures GeneratorCollides(generators[i], candidate) <==>
                !generators[i].deleting &&
                exists k :: 0 <= k < |generators[i].collectionPaths| && !Clear(generators[i].collectionPaths[k], candidate)
      {
      }
    }
  }

  // ----- runs -----

  datatype Request =
    | Put(name: string, policy: Policy)    // an admitted create or update
    | MarkDeleting(name: string)           // a deletion timestamp is set
    | Remove(name: string)

  /** Requests come one at a time; the policies are listed and the environment is read afresh, and
      the environment does not change. A refused request leaves the cluster alone and is no step. */
  ghost predicate Step(expand: string -> string, before: Cluster, generators: seq<Generator>, r: Request, after: Cluster) {
    match r
    case Put(name, policy) =>
      Admitted(expand, before, generators, name, policy) &&
      policy.deleting == (name in before && before[name].deleting) && after == before[name := policy]
    case MarkDeleting(name) => name in before && after == before[name := before[name].(deleting := true)]
    case Remove(name) => after == before - {name}
  }

  ghost predicate Run(expand: string -> string, states: seq<Cluster>, generators: seq<seq<Generator>>, requests: seq<Request>) {
    |states| == |requests| + 1 && |generators| == |requests| &&
    forall i :: 0 <= i < |requests| ==> Step(expand, states[i], generators[i], requests[i], states[i + 1])
  }

  /** The normalized path of a policy, if it has one. */
  function Scope(expand: string -> string, p: Policy): Option<string> {
    NormalizePath(expand(p.path))
  }

  /** Some logical path lies in both scopes. */
  ghost predicate Shared(expand: string -> string, p: Policy, q: Policy) {
    Scope(expand, p).Some? && Scope(expand, q).Some? &&
    exists path :: Covers(Segments(Scope(expand, p).value), path) && Covers(Segments(Scope(expand, q).value), path)
  }

  /** No logical path lies in the scopes of two live policies. */
  ghost predicate SingleOwner(expand: string -> string, cluster: Cluster) {
    forall a, b :: a in cluster && b in cluster && a != b && !cluster[a].deleting && !cluster[b].deleting ==>
      !Shared(expand, cluster[a], cluster[b])
  }

  predicate Steady(expand: string -> string, p: Policy) {
    Scope(expand, p).Some? ==> !Drifts(Scope(expand, p).value)
  }

  lemma SharedIsMeeting(expand: string -> string, p: Policy, q: Policy)
    requires Scope(expand, p).Some? && Scope(expand, q).Some?
    ensures Shared(expand, p, q) <==> ScopesMeet(Scope(expand, p).value, Scope(expand, q).value)
    ensures Shared(expand, p, q) == Shared(expand, q, p)
  {
    hide Scope, Covers, Related, Segments;
    RelatedIffShared(Segments(Scope(expand, p).value), Segments(Scope(expand, q).value));
  }

  /** An admitted policy that does not drift shares no path with another live policy. */
  lemma AdmittedIsAlone(expand: string -> string, cluster: Cluster, generators: seq<Generator>, name: string, policy: Policy, other: string)
    requires Admitted(expand, cluster, generators, name, policy) && Steady(expand, policy)
    requires other in cluster && other != name && !cluster[other].deleting
    ensures !Shared(expand, cluster[other], policy) && !Shared(expand, policy, cluster[other])
  {
    hide NormalizePath, HasPathOverlap, Drifts, Shared, ScopesMeet, Normal, GeneratorCollides;
    assert !Collides(expand, Item(other, cluster[other]), name, NormalizePath(expand(policy.path)).value);
    NormalizePathIsNormal(expand(policy.path));
    if Scope(expand, cluster[other]).Some? {
      CheckIsSound(expand(cluster[other].path), Scope(expand, policy).value);
      SharedIsMeeting(expand, cluster[other], policy);
    } else {
      NotShared(expand, cluster[other], policy);
    }
  }

  lemma NotShared(expand: string -> string, p: Policy, q: Policy)
    requires Scope(expand, p).None?
    ensures !Shared(expand, p, q) && !Shared(expand, q, p)
  {
  }

  lemma StepKeepsSingleOwner(expand: string -> string, before: Cluster, generators: seq<Generator>, r: Request, after: Cluster)
    requires SingleOwner(expand, before) && Step(expand, before, generators, r, after)
    requires r.Put? ==> Steady(expand, r.policy)
    ensures SingleOwner(expand, after)
  {
    hide Admitted, Shared, Steady;
    match r
    case Put(name, policy) =>
      forall other | other in before && other != name && !before[other].deleting
        ensures !Shared(expand, before[other], policy) && !Shared(expand, policy, before[other])
      {
        AdmittedIsAlone(expand, before, generators, name, policy, other);
      }
    case MarkDeleting(name) =>
    case Remove(name) =>
  }

  /** From a cluster with single owners, every run of requests none of which drifts keeps every
      logical path in the scope of at most one live policy. */
  lemma {:induction false} RunsKeepSingleOwner(expand: string -> string, states: seq<Cluster>, generators: seq<seq<Generator>>,
                                               requests: seq<Request>, i: nat)
    requires Run(expand, states, generators, requests) && i < |states|
    requires SingleOwner(expand, states[0])
    requires forall j :: 0 <= j < |requests| && requests[j].Put? ==> Steady(expand, requests[j].policy)
    ensures SingleOwner(expand, states[i])
  {
    hide SingleOwner, Step, Steady;
    if i > 0 {
      RunsKeepSingleOwner(expand, states, generators, requests, i - 1);
      StepKeepsSingleOwner(expand, states[i - 1], generators[i - 1], requests[i - 1], states[i]);
    }
  }

  /** When the scope of a policy drifts, two policies with that scope are admitted one after the
      other and own all its paths together. */
  lemma DriftBreaksSingleOwner(expand: string -> string, n: string, first: string, second: string)
    requires Normal(n) && Drifts(n) && first != second
    requires expand(n + "/") == n + "/"
    ensures var p := Policy(n + "/", true, false);
            Scope(expand, p) == Some(n) && !Steady(expand, p) &&
            Admitted(expand, map[], [], first, p) && Admitted(expand, map[first := p], [], second, p) &&
            !SingleOwner(expand, map[first := p, second := p])
  {
    hide NormalizePath, HasPathOverlap, Drifts, Shared, ScopesMeet, Normal;
    var p := Policy(n + "/", true, false);
    DriftIsMissed(n);
    MeetsItself(n);
    SharedIsMeeting(expand, p, p);
    var both := map[first := p, second := p];
    assert first in both && second in both && Shared(expand, both[first], both[second]);
  }

  /** Paths such as "/a /" drift: they normalize to "/a ", and that in turn to "/a". */
  lemma SpacedSegmentDrifts(s: string, c: char)
    requires IsSegment(s) && !IsSpace(s[|s| - 1]) && s != "_" && !HasTemplate("/" + s) && IsSpace(c)
    ensures var n := "/" + (s + [c]);
            Normal(n) && Drifts(n) && NormalizePath(n + "/") == Some(n) && NormalizePath(n) == Some("/" + s)
  {
    hide TrimSpace, NormalizePath, Reserved, IsSegment, IsSpace, TrimRight, TrimLeft, Slashes, Essential, HasTemplate, Core;
    hide Render, Segments, Clean, Trimmed, EndsInSpace;
    var w := s + [c];
    var n := "/" + w;
    SpacedIsSegment(s, c);
    CleanIsSolid([w]);
    SegmentsOfRender([w]);
    DotsAreNotSegments([w]);
    CleanOfRender([w]);
    EssentialOfClean([w]);
    assert [] + [w] == [w] && [] + [s] == [s] && [w][..0] == [];
    TrimOfRender([], w);
    TrimSpaceFixed("/" + s);
    SameCore(n, "/" + s);
    ReservedOfClean([s]);
    SlashAtTheEnd(n);
    NormalizeAgain(n);
  }

  lemma SpacedIsSegment(s: string, c: char)
    requires IsSegment(s) && !IsSpace(s[|s| - 1]) && IsSpace(c)
    ensures IsSegment(s + [c]) && TrimRight(s + [c], IsSpace) == s && s != "" && s != "." && s != ".." && EndsInSpace("/" + (s + [c]))
    ensures Clean([s]) && Clean([s + [c]]) && Render([s]) == "/" + s && Render([s + [c]]) == "/" + (s + [c])
  {
    assert (s + [c])[..|s|] == s;
    assert (s + [c])[|s|] == c;
  }
}
/** Logical paths: cleaning, normalization, the template-aware segment scanner and the overlap
    test (resource/paths.go), and the normalization that the SyncPolicy API adds on top
    (api/v1alpha1/common_types.go). Every failure is a validation fault. */
module Paths {
  import opened Payload
  import opened Text

  // ----- the operations -----

  /** What path.Clean keeps of the elements of a rooted path that has no ".." element. */
  function Essential(parts: seq<string>): seq<string> {
    if parts == [] then []
    else if parts[0] == "" || parts[0] == "." then Essential(parts[1..])
    else [parts[0]] + Essential(parts[1..])
  }

  function Render(segments: seq<string>): string {
    "/" + Join(segments, '/')
  }

  function Slashes(s: string): string {
    ReplaceAll(s, "\\", "/")
  }

  function CleanRawPath(value: string): Option<string> {
    if TrimSpace(value) == "" then None
    else
      var input := Slashes(value);
      if !("/" <= input) || ".." in Split(input, '/') then None
      else Some(Render(Essential(Split(input, '/'))))
  }

  predicate IsSlash(c: char) {
    c == '/'
  }

  function Core(value: string): string {
    TrimRight(TrimLeft(TrimSpace(value), IsSlash), IsSlash)
  }

  /** The segments still to come, given the template depth and the segment read so far. */
  function Scan(s: string, depth: nat, current: string): seq<string>
    decreases |s|
  {
    if s == [] then if current == "" then [] else [current]
    else if "{{" <= s then Scan(s[2..], depth + 1, current + "{{")
    else if "}}" <= s && depth > 0 then Scan(s[2..], depth - 1, current + "}}")
    else if s[0] == '/' && depth == 0 then [current] + Scan(s[1..], 0, "")
    else Scan(s[1..], depth, current + [s[0]])
  }

  /** The same, two characters at a time. */
  lemma ScanNext(s: string, depth: nat, current: string)
    requires s != ""
    ensures Scan(s, depth, current) ==
            if |s| > 1 && s[0] == '{' && s[1] == '{' then Scan(s[2..], depth + 1, current + "{{")
            else if |s| > 1 && s[0] == '}' && s[1] == '}' && depth > 0 then Scan(s[2..], depth - 1, current + "}}")
            else if s[0] == '/' && depth == 0 then [current] + Scan(s[1..], 0, "")
            else Scan(s[1..], depth, current + [s[0]])
  {
    assert |s| > 1 ==> s[..2] == [s[0], s[1]];
    assert "{{" <= s <==> |s| > 1 && s[0] == '{' && s[1] == '{';
    assert "}}" <= s <==> |s| > 1 && s[0] == '}' && s[1] == '}';
  }

  lemma ScanEnd(current: string)
    ensures Scan("", 0, current) == if current == "" then [] else [current]
    ensures forall depth: nat :: Scan("", depth, current) == Scan("", 0, current)
  {
  }

  method SplitRawPathSegments(value: string) returns (segments: seq<string>)
    ensures segments == Scan(Core(value), 0, "")
  {
    hide Core, Scan;
    var trimmed := Core(value);
    segments := [];
    var current, depth, i := "", 0, 0;
    assert trimmed[0..] == trimmed;
    while i < |trimmed|
      invariant 0 <= i <= |trimmed| && 0 <= depth
      invariant segments + Scan(trimmed[i..], depth, current) == Scan(trimmed, 0, "")
    {
      ghost var rest := trimmed[i..];
      ScanNext(rest, depth, current);
      assert rest[1..] == trimmed[i + 1..];
      assert i + 1 < |trimmed| ==> rest[2..] == trimmed[i + 2..];
      if i + 1 < |trimmed| && trimmed[i] == '{' && trimmed[i + 1] == '{' {
        depth, current, i := depth + 1, current + "{{", i + 2;
      } else if i + 1 < |trimmed| && trimmed[i] == '}' && trimmed[i + 1] == '}' && depth > 0 {
        depth, current, i := depth - 1, current + "}}", i + 2;
      } else if trimmed[i] == '/' && depth == 0 {
        segments, current, i := segments + [current], "", i + 1;
      } else {
        current, i := current + [trimmed[i]], i + 1;
      }
    }
    assert trimmed[i..] == "";
    ScanEnd(current);
    if |current| > 0 {
      segments := segments + [current];
    }
  }

  predicate Reserved(cleaned: string) {
    "_" in Scan(Core(cleaned), 0, "")
  }

  function NormalizeLogicalPath(value: string): Option<string> {
    var cleaned :- CleanRawPath(value);
    if Reserved(cleaned) then None else Some(cleaned)
  }

  function SplitLogicalPathSegments(value: string): seq<string> {
    match NormalizeLogicalPath(value)
    case None => []
    case Some(n) => if n == "/" || n == "" then [] else Split(n[1..], '/')
  }

  predicate OverlapBoundaryMatch(candidate: string, prefix: string) {
    prefix == "/" || (|candidate| > |prefix| && candidate[|prefix|] == '/')
  }

  predicate Overlapping(left: string, right: string) {
    left == right ||
    (right <= left && OverlapBoundaryMatch(left, right)) ||
    (left <= right && OverlapBoundaryMatch(right, left))
  }

  function HasLogicalPathOverlap(a: string, b: string): Option<bool> {
    var left :- NormalizeLogicalPath(a);
    var right :- NormalizeLogicalPath(b);
    Some(Overlapping(left, right))
  }

  /** normalizePath of the API package: white space around the path and a missing leading slash
      are forgiven. */
  function NormalizePath(raw: string): Option<string> {
    var trimmed := TrimSpace(raw);
    if trimmed == "" then None
    else
      var input := Slashes(trimmed);
      var cleaned :- CleanRawPath(if "/" <= input then input else "/" + input);
      NormalizeLogicalPath(cleaned)
  }

  predicate HasPathOverlap(a: string, b: string) {
    var left := NormalizePath(a);
    var right := NormalizePath(b);
    left.Some? && right.Some? && HasLogicalPathOverlap(left.value, right.value) == Some(true)
  }

  // ----- segment lists -----

  predicate IsSegment(s: string) {
    s != "" && s != "." && s != ".." && '/' !in s && '\\' !in s
  }

  predicate Clean(segments: seq<string>) {
    forall s :: s in segments ==> IsSegment(s)
  }

  /** The segments, each followed by a slash. */
  function Terminated(segments: seq<string>): (r: string)
    ensures r != "" ==> r[|r| - 1] == '/'
    ensures segments != [] ==> r != ""
  {
    if segments == [] then "" else segments[0] + "/" + Terminated(segments[1..])
  }

  lemma {:induction false} JoinIsTerminated(front: seq<string>, last: string)
    ensures Join(front + [last], '/') == Terminated(front) + last
  {
    if front != [] {
      JoinIsTerminated(front[1..], last);
      assert (front + [last])[1..] == front[1..] + [last];
    }
  }

  lemma {:induction false} TerminatedSnoc(front: seq<string>, last: string)
    ensures Terminated(front + [last]) == Terminated(front) + last + "/"
  {
    if front != [] {
      TerminatedSnoc(front[1..], last);
      assert (front + [last])[1..] == front[1..] + [last];
    } else {
      assert (front + [last])[1..] == [];
    }
  }

  lemma SplitOfRender(parts: seq<string>)
    requires parts != [] && forall p :: p in parts ==> '/' !in p
    ensures Split(Render(parts), '/') == [""] + parts
  {
    SplitOfJoin(parts, '/');
    SplitAtSeparator("", Join(parts, '/'), '/');
    assert Render(parts) == "" + "/" + Join(parts, '/');
  }

  lemma {:induction false} EssentialAppend(a: seq<string>, b: seq<string>)
    ensures Essential(a + b) == Essential(a) + Essential(b)
  {
    if a == [] {
      assert a + b == b;
    } else {
      EssentialAppend(a[1..], b);
      assert (a + b)[1..] == a[1..] + b;
    }
  }

  lemma {:induction false} EssentialOfClean(segments: seq<string>)
    requires Clean(segments)
    ensures Essential(segments) == segments
  {
    if segments != [] {
      assert segments[0] in segments && segments == [segments[0]] + segments[1..];
      EssentialOfClean(segments[1..]);
    }
  }

  lemma {:induction false} EssentialIsClean(parts: seq<string>)
    requires forall p :: p in parts ==> '/' !in p && '\\' !in p && p != ".."
    ensures Clean(Essential(parts))
  {
    if parts != [] {
      assert parts[0] in parts;
      assert forall p :: p in parts[1..] ==> p in parts;
      EssentialIsClean(parts[1..]);
      hide IsSegment;
      assert parts[0] != "" && parts[0] != "." ==> IsSegment(parts[0]) by { SegmentOf(parts[0]); }
    }
  }

  lemma SegmentOf(s: string)
    ensures s != "" && s != "." && s != ".." && '/' !in s && '\\' !in s ==> IsSegment(s)
  {
  }

  lemma {:induction false} SlashesLeavesNoBackslash(s: string)
    ensures '\\' !in Slashes(s) && ('\\' !in s ==> Slashes(s) == s)
  {
    if s != [] {
      SlashesLeavesNoBackslash(s[1..]);
      assert "\\" <= s <==> s[0] == '\\';
    }
  }

  lemma {:induction false} SplitKeepsAway(s: string, c: char)
    requires c !in s
    ensures forall p :: p in Split(s, '/') ==> c !in p
  {
    if s != [] {
      SplitKeepsAway(s[1..], c);
      var rest := Split(s[1..], '/');
      assert rest[0] in rest;
      assert forall p :: p in rest[1..] ==> p in rest;
    }
  }

  lemma {:induction false} JoinKeepsAway(parts: seq<string>, c: char)
    requires c != '/' && forall p :: p in parts ==> c !in p
    ensures c !in Join(parts, '/')
  {
    if |parts| > 1 {
      JoinKeepsAway(parts[1..], c);
    }
  }

  // ----- the segment scanner -----

  predicate HasTemplate(s: string) {
    exists i :: 0 <= i < |s| - 1 && s[i] == '{' && s[i + 1] == '{'
  }

  /** Whatever the templates, joining the scanned segments gives the scanned text back. */
  lemma {:induction false} JoinOfScan(s: string, depth: nat, current: string)
    requires current + s != "" && (s != "" ==> s[|s| - 1] != '/')
    ensures Scan(s, depth, current) != [] && Join(Scan(s, depth, current), '/') == current + s
    decreases |s|
  {
    hide Join;
    if s == [] {
      JoinOne(current);
    } else {
      var n, d, cut := ScanStep(s, depth, current);
      hide Scan;
      var rest := s[n..];
      MovedOver(s, current, n);
      assert rest != "" ==> rest[|rest| - 1] == s[|s| - 1];
      if cut {
        JoinOfScan(rest, d, "");
        JoinOneMore(current, Scan(rest, d, ""));
        assert "" + rest == rest && s[..1] == "/";
      } else {
        JoinOfScan(rest, d, current + s[..n]);
      }
    }
  }

  lemma JoinOne(s: string)
    ensures Join([s], '/') == s
  {
  }

  /** One step of the scanner: it takes over one or two characters, or cuts at a slash. */
  lemma ScanStep(s: string, depth: nat, current: string) returns (n: nat, d: nat, cut: bool)
    requires s != ""
    ensures 1 <= n <= |s| && (cut ==> n == 1 && s[0] == '/')
    ensures Scan(s, depth, current) == if cut then [current] + Scan(s[n..], d, "") else Scan(s[n..], d, current + s[..n])
  {
    n, d, cut := 1, depth, false;
    if "{{" <= s {
      n, d := 2, depth + 1;
      assert s[..2] == "{{";
    } else if "}}" <= s && depth > 0 {
      n, d := 2, depth - 1;
      assert s[..2] == "}}";
    } else if s[0] == '/' && depth == 0 {
      cut := true;
    } else {
      assert s[..1] == [s[0]];
    }
  }

  lemma MovedOver(s: string, current: string, n: nat)
    requires n <= |s|
    ensures current + s == current + s[..n] + s[n..]
  {
  }

  lemma JoinOneMore(first: string, rest: seq<string>)
    requires rest != []
    ensures Join([first] + rest, '/') == first + "/" + Join(rest, '/')
  {
    assert ([first] + rest)[1..] == rest;
  }

  /** Without a template the scanner is strings.Split. */
  lemma {:induction false} ScanIsSplit(s: string, current: string)
    requires !HasTemplate(s) && '/' !in current
    requires current + s != "" && (s != "" ==> s[|s| - 1] != '/')
    ensures Scan(s, 0, current) == Split(current + s, '/')
    decreases |s|
  {
    if s == [] {
      SplitWithout(current, '/');
      assert current + s == current;
    } else {
      assert "{{" <= s <==> |s| >= 2 && s[0] == '{' && s[1] == '{';
      assert forall i :: 0 <= i < |s[1..]| ==> s[1..][i] == s[i + 1];
      if s[0] == '/' {
        ScanIsSplit(s[1..], "");
        SplitAtSeparator(current, s[1..], '/');
        assert current + s == current + "/" + s[1..] && "" + s[1..] == s[1..];
      } else {
        ScanIsSplit(s[1..], current + [s[0]]);
        assert current + s == current + [s[0]] + s[1..];
      }
    }
  }

  // ----- normal forms -----

  /** The segments of a normalized path (SplitLogicalPathSegments). */
  function Segments(n: string): seq<string> {
    if n == "/" || n == "" then [] else Split(n[1..], '/')
  }

  /** Non-empty segments without slashes. */
  predicate Solid(segments: seq<string>) {
    forall s :: s in segments ==> s != "" && '/' !in s
  }

  lemma CleanIsSolid(segments: seq<string>)
    requires Clean(segments)
    ensures Solid(segments)
  {
  }

  lemma SegmentsOfRender(segments: seq<string>)
    requires Solid(segments)
    ensures Segments(Render(segments)) == segments
  {
    if segments != [] {
      SplitOfJoin(segments, '/');
      assert segments[0] in segments && segments[0] != "";
      var n := |segments| - 1;
      assert segments == segments[..n] + [segments[n]] && segments[n] in segments;
      JoinIsTerminated(segments[..n], segments[n]);
      assert Render(segments)[1..] == Join(segments, '/') && Join(segments, '/') != "";
    }
  }

  /** A cleaned path is the rendering of clean segments. */
  lemma CleanRawPathIsClean(value: string)
    requires CleanRawPath(value).Some?
    ensures var n := CleanRawPath(value).value; Clean(Segments(n)) && n == Render(Segments(n))
  {
    var input := Slashes(value);
    SlashesLeavesNoBackslash(value);
    SplitKeepsAway(input, '\\');
    EssentialIsClean(Split(input, '/'));
    SegmentsOfRender(Essential(Split(input, '/')));
  }

  lemma RenderPlain(parts: seq<string>)
    requires forall p :: p in parts ==> '\\' !in p
    ensures Slashes(Render(parts)) == Render(parts) && TrimSpace(Render(parts)) != ""
  {
    JoinKeepsAway(parts, '\\');
    SlashesLeavesNoBackslash(Render(parts));
    TrimKeepsSlash(Render(parts));
  }

  lemma RenderRooted(parts: seq<string>)
    ensures "/" <= Render(parts)
  {
  }

  /** Cleaning the rendering of parts that hold no separator. */
  lemma CleanOfRender(parts: seq<string>)
    requires parts != [] && forall p :: p in parts ==> '/' !in p && '\\' !in p && p != ".."
    ensures CleanRawPath(Render(parts)) == Some(Render(Essential(parts)))
  {
    hide TrimSpace, Slashes, Render;
    RenderPlain(parts);
    SplitOfRender(parts);
    hide Split;
    assert "/" <= Render(parts) by { RenderRooted(parts); }
    assert ([""] + parts)[1..] == parts;
  }

  /** Cleaning is idempotent, and so is the normalization of logical paths. */
  lemma NormalizeIdempotent(value: string)
    ensures CleanRawPath(value).Some? ==> CleanRawPath(CleanRawPath(value).value) == CleanRawPath(value)
    ensures NormalizeLogicalPath(value).Some? ==>
              NormalizeLogicalPath(NormalizeLogicalPath(value).value) == NormalizeLogicalPath(value)
  {
    if CleanRawPath(value).Some? {
      CleanRawPathIsClean(value);
      var ss := Segments(CleanRawPath(value).value);
      EssentialOfClean(ss);
      if ss == [] {
        CleanOfRender([""]);
      } else {
        CleanOfRender(ss);
      }
    }
  }

  // ----- the overlap test -----

  lemma FirstSlash(a: string, x: string, b: string, y: string)
    requires '/' !in a && '/' !in b && a + "/" + x <= b + "/" + y
    ensures a == b && x <= y
  {
    var p, q := a + "/" + x, b + "/" + y;
    assert p[|a|] == '/' && q[|b|] == '/';
    assert forall i :: 0 <= i < |a| ==> p[i] == a[i];
    assert forall i :: 0 <= i < |b| ==> q[i] == b[i];
    assert p == q[..|p|];
    assert a == p[..|a|] && b == q[..|b|];
    assert x == p[|a| + 1..] && y == q[|b| + 1..];
  }

  lemma {:induction false} TerminatedPrefix(a: seq<string>, b: seq<string>)
    requires Clean(a) && Clean(b)
    ensures Terminated(a) <= Terminated(b) <==> a <= b
  {
    if a != [] && b != [] {
      assert a[0] in a && b[0] in b;
      TerminatedPrefix(a[1..], b[1..]);
      assert a == [a[0]] + a[1..] && b == [b[0]] + b[1..];
      var p, q := a[0] + "/" + Terminated(a[1..]), b[0] + "/" + Terminated(b[1..]);
      if p <= q {
        FirstSlash(a[0], Terminated(a[1..]), b[0], Terminated(b[1..]));
      }
    }
  }

  lemma RenderIsTerminated(segments: seq<string>)
    requires segments != []
    ensures Render(segments) + "/" == "/" + Terminated(segments)
  {
    var n := |segments| - 1;
    assert segments == segments[..n] + [segments[n]];
    JoinIsTerminated(segments[..n], segments[n]);
    TerminatedSnoc(segments[..n], segments[n]);
  }

  /** The boundary test is the strict prefix test on segment lists. */
  lemma BoundaryIsPrefix(a: seq<string>, b: seq<string>)
    requires Clean(a) && Clean(b)
    ensures Render(b) <= Render(a) && OverlapBoundaryMatch(Render(a), Render(b)) ==> b <= a
    ensures b < a ==> Render(b) <= Render(a) && OverlapBoundaryMatch(Render(a), Render(b))
  {
    var c, p := Render(a), Render(b);
    TerminatedPrefix(b, a);
    if b == [] {
    } else if a == [] {
      assert b[0] in b;
      RenderIsTerminated(b);
      assert |p + "/"| > 2 by { assert |Terminated(b)| >= |b[0]| + 1; }
    } else {
      RenderIsTerminated(a);
      RenderIsTerminated(b);
      SegmentsOfRender(b);
      if p <= c && OverlapBoundaryMatch(c, p) {
        assert p + "/" <= c;
        assert p + "/" <= c + "/";
        assert ("/" + Terminated(b))[1..] == Terminated(b) && ("/" + Terminated(a))[1..] == Terminated(a);
        assert Terminated(b) <= Terminated(a);
      }
      if b < a {
        TerminatedGrows(b, a);
        assert "/" + Terminated(b) <= "/" + Terminated(a);
        assert p + "/" <= c + "/" && |p + "/"| < |c + "/"|;
        assert p + "/" <= c;
        assert (p + "/")[|p|] == c[|p|];
      }
    }
  }

  lemma TerminatedGrows(b: seq<string>, a: seq<string>)
    requires b < a
    ensures |Terminated(b)| < |Terminated(a)|
  {
    if b != [] {
      TerminatedGrows(b[1..], a[1..]);
    }
  }

  /** One segment list is a prefix of the other. */
  predicate Related(a: seq<string>, b: seq<string>) {
    a <= b || b <= a
  }

  lemma NormalizedIsClean(value: string)
    requires NormalizeLogicalPath(value).Some?
    ensures var n := NormalizeLogicalPath(value).value;
            CleanRawPath(value) == Some(n) && !Reserved(n) && Clean(Segments(n)) && n == Render(Segments(n)) &&
            SplitLogicalPathSegments(value) == Segments(n) && NormalizeLogicalPath(n) == Some(n)
  {
    CleanRawPathIsClean(value);
    NormalizeIdempotent(value);
  }

  lemma OverlappingIsRelated(a: seq<string>, b: seq<string>)
    requires Clean(a) && Clean(b)
    ensures Overlapping(Render(a), Render(b)) <==> Related(a, b)
  {
    hide OverlapBoundaryMatch, Clean, Render;
    BoundaryIsPrefix(a, b);
    BoundaryIsPrefix(b, a);
    if Overlapping(Render(a), Render(b)) && Render(a) == Render(b) {
      CleanIsSolid(a);
      CleanIsSolid(b);
      SegmentsOfRender(a);
      SegmentsOfRender(b);
    }
    assert a <= b ==> a == b || a < b;
    assert b <= a ==> a == b || b < a;
  }

  /** The string test on two normalized paths finds exactly the pairs of which one is above the other. */
  lemma OverlapIsPrefix(a: string, b: string)
    requires NormalizeLogicalPath(a).Some? && NormalizeLogicalPath(b).Some?
    ensures HasLogicalPathOverlap(a, b) ==
            Some(Related(SplitLogicalPathSegments(a), SplitLogicalPathSegments(b)))
  {
    hide NormalizeLogicalPath, Overlapping, Segments, SplitLogicalPathSegments, Clean, Render, Related;
    NormalizedIsClean(a);
    NormalizedIsClean(b);
    OverlappingIsRelated(SplitLogicalPathSegments(a), SplitLogicalPathSegments(b));
  }

  /** The path lies at or below the scope. */
  predicate Covers(scope: seq<string>, path: seq<string>) {
    scope <= path
  }

  /** Two scopes are related exactly when some path lies in both. */
  lemma RelatedIffShared(a: seq<string>, b: seq<string>)
    ensures Related(a, b) <==> exists p :: Covers(a, p) && Covers(b, p)
  {
    if a <= b {
      assert Covers(a, b) && Covers(b, b);
    } else if b <= a {
      assert Covers(a, a) && Covers(b, a);
    }
  }

  // ----- what is reserved -----

  /** Trimming a rendered path trims its last segment and nothing else. */
  lemma TrimOfRender(front: seq<string>, last: string)
    ensures TrimSpace(Render(front + [last])) == Render(front + [TrimRight(last, IsSpace)])
    ensures Trimmed(Render(front + [TrimRight(last, IsSpace)]))
  {
    hide TrimSpace, Join, Trimmed;
    var kept := TrimRight(last, IsSpace);
    var n := Render(front + [last]);
    JoinIsTerminated(front, last);
    JoinIsTerminated(front, kept);
    var head := "/" + Terminated(front);
    assert n == head + last && Render(front + [kept]) == head + kept;
    hide Terminated, Render;
    assert head[|head| - 1] == '/';
    TrimRightAfter(head, last);
    TrimKeepsSlash(n);
    TrimSpaceTrimmed(n);
  }

  lemma RenderWithSlash(segments: seq<string>)
    requires segments != []
    ensures Render(segments + [""]) == Render(segments) + "/"
  {
    JoinIsTerminated(segments, "");
    RenderIsTerminated(segments);
  }

  /** Without templates, a cleaned path is refused if and only if a segment is "_", where white space
      at the end of the last segment does not count. */
  lemma ReservedIff(value: string)
    requires CleanRawPath(value).Some? && !HasTemplate(CleanRawPath(value).value)
    ensures var ss := Segments(CleanRawPath(value).value);
            NormalizeLogicalPath(value).None? <==>
            ss != [] && ("_" in ss[..|ss| - 1] || TrimRight(ss[|ss| - 1], IsSpace) == "_")
  {
    hide CleanRawPath, Reserved, TrimSpace, TrimRight, Clean, Render, HasTemplate;
    var n := CleanRawPath(value).value;
    CleanRawPathIsClean(value);
    var ss := Segments(n);
    if ss == [] {
      RenderNoSegment();
      TrimSpaceFixed("/");
      ReservedOfSolid(n, []);
    } else {
      LastSegmentTrimmed(n, ss);
    }
  }

  lemma LastSegmentTrimmed(n: string, ss: seq<string>)
    requires ss != [] && Clean(ss) && n == Render(ss) && !HasTemplate(n)
    ensures Reserved(n) <==> "_" in ss[..|ss| - 1] || TrimRight(ss[|ss| - 1], IsSpace) == "_"
  {
    hide Reserved, TrimSpace, Render, IsSpace, HasTemplate;
    var front, last := ss[..|ss| - 1], ss[|ss| - 1];
    var kept := TrimRight(last, IsSpace);
    hide TrimRight;
    TrimRightPrefix(last, IsSpace);
    assert ss == front + [last] && last in ss;
    assert forall s :: s in front ==> s in ss;
    RenderRooted(ss);
    TrimOfRender(front, last);
    if kept == "" {
      if front == [] {
        assert Render(front + [kept]) == Render([]) by { RenderNoSegment(); }
      } else {
        RenderWithSlash(front);
      }
      ReservedOfSolid(n, front);
    } else {
      ReservedOfSolid(n, front + [kept]);
    }
  }

  lemma RenderNoSegment()
    ensures Render([] + [""]) == Render([]) == "/"
  {
    assert [] + [""] == [""];
  }

  lemma CoreOfSolid(n: string, segments: seq<string>)
    requires Solid(segments)
    requires TrimSpace(n) == Render(segments) || (segments != [] && TrimSpace(n) == Render(segments) + "/")
    ensures Core(n) == Render(segments)[1..]
  {
    hide Render, TrimSpace, TrimLeft, TrimRight, Core, Solid;
    var r := Render(segments);
    RenderShape(segments);
    assert |r| > 1 ==> r[1..][0] == r[1] && r[1..][|r| - 2] == r[|r| - 1];
    CoreUnfolds(n);
    if TrimSpace(n) == r {
      TrimSlashes(r);
    } else {
      TrimLastSlash(r);
    }
  }

  lemma ScanOfSolid(segments: seq<string>)
    requires Solid(segments) && !HasTemplate(Render(segments)[1..])
    ensures Scan(Render(segments)[1..], 0, "") == segments
  {
    hide Render, Scan, HasTemplate, Solid;
    RenderShape(segments);
    SegmentsOfRender(segments);
    var core := Render(segments)[1..];
    if core != "" {
      assert "" + core == core;
      ScanIsSplit(core, "");
    } else {
      ScanNothing();
    }
  }

  /** What is reserved shows in the segments of the trimmed path. */
  lemma ReservedOfSolid(n: string, segments: seq<string>)
    requires Solid(segments) && !HasTemplate(n) && "/" <= n
    requires TrimSpace(n) == Render(segments) || (segments != [] && TrimSpace(n) == Render(segments) + "/")
    ensures Reserved(n) <==> "_" in segments
  {
    hide Render, TrimSpace, Scan, Core, HasTemplate, Solid;
    CoreOfSolid(n, segments);
    RenderShape(segments);
    TrimIsPrefix(n);
    var core := Render(segments)[1..];
    assert TrimSpace(n)[1..1 + |core|] == core;
    TemplateInside(n, core, 1);
    ScanOfSolid(segments);
  }

  lemma TrimIsPrefix(n: string)
    requires "/" <= n
    ensures TrimSpace(n) <= n
  {
    TrimKeepsSlash(n);
    TrimRightPrefix(n, IsSpace);
  }

  lemma TemplateInside(n: string, part: string, k: nat)
    requires k + |part| <= |n| && n[k..k + |part|] == part && !HasTemplate(n)
    ensures !HasTemplate(part)
  {
    assert forall i :: 0 <= i < |part| ==> part[i] == n[k + i];
  }

  lemma ReservedOfClean(segments: seq<string>)
    requires Clean(segments) && TrimSpace(Render(segments)) == Render(segments) && !HasTemplate(Render(segments))
    ensures Reserved(Render(segments)) <==> "_" in segments
  {
    hide Render, TrimSpace, Reserved, HasTemplate;
    CleanIsSolid(segments);
    RenderShape(segments);
    ReservedOfSolid(Render(segments), segments);
  }

  lemma ScanNothing()
    ensures Scan("", 0, "") == []
  {
  }

  lemma CoreUnfolds(n: string)
    ensures Core(n) == TrimRight(TrimLeft(TrimSpace(n), IsSlash), IsSlash)
  {
  }

  /** After its slash, the rendering of segments neither begins nor ends with a slash. */
  lemma RenderShape(segments: seq<string>)
    requires Solid(segments)
    ensures "/" <= Render(segments) && (segments == [] <==> Render(segments) == "/")
    ensures var core := Render(segments)[1..]; core != "" ==> core[0] != '/' && core[|core| - 1] != '/'
  {
    if segments != [] {
      var n := |segments| - 1;
      assert segments == segments[..n] + [segments[n]] && segments[n] in segments;
      JoinIsTerminated(segments[..n], segments[n]);
      var w := segments[n];
      var core := Join(segments, '/');
      assert core == Terminated(segments[..n]) + w && Render(segments)[1..] == core;
      assert core[|core| - 1] == w[|w| - 1] && w[|w| - 1] in w;
      assert segments[0] in segments && segments[0][0] in segments[0];
      assert core[0] == segments[0][0];
    }
  }

  lemma TrimSlashes(n: string)
    requires n != "" && n[0] == '/' && (|n| > 1 ==> n[1] != '/' && n[|n| - 1] != '/')
    ensures TrimRight(TrimLeft(n, IsSlash), IsSlash) == n[1..]
  {
    hide TrimLeft, TrimRight;
    var core := n[1..];
    assert core != "" ==> core[0] == n[1] && core[|core| - 1] == n[|n| - 1];
    TrimLeftOnce(n, IsSlash);
    TrimFixed(core, IsSlash);
  }

  /** One more slash at the end makes no difference. */
  lemma TrimLastSlash(n: string)
    requires |n| > 1 && n[0] == '/' && n[1] != '/' && n[|n| - 1] != '/'
    ensures TrimRight(TrimLeft(n + "/", IsSlash), IsSlash) == n[1..]
  {
    hide TrimLeft, TrimRight;
    var core := n[1..];
    assert (n + "/")[1..] == core + "/";
    TrimLeftOnce(n + "/", IsSlash);
    TrimLeftNothing(core + "/", IsSlash);
    TrimRightOnce(core + "/", IsSlash);
    assert (core + "/")[..|core|] == core;
    TrimFixed(core, IsSlash);
  }

  lemma TrimRightOnce(s: string, cut: char -> bool)
    requires s != "" && cut(s[|s| - 1])
    ensures TrimRight(s, cut) == TrimRight(s[..|s| - 1], cut)
  {
  }
}

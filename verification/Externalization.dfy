/** Externalized attributes (internal/resourceexternalization/service.go): string
    attributes move to sidecar artifact files and a placeholder stays in the payload. */
module Externalization {
  import opened Payload
  import opened Text
  import JsonPointer

  /** A resolved externalized attribute; path is a JSON Pointer whose "*" tokens range
      over array elements, file a clean relative file name. */
  datatype Entry = Entry(path: string, file: string, template: string)

  datatype Match = Match(path: seq<string>, wildcards: seq<nat>, value: Value)

  datatype Target = Target(path: seq<string>, file: string, placeholder: string, value: Value)

  datatype Artifact = Artifact(file: string, content: string)

  datatype Extracted = Extracted(payload: Value, artifacts: seq<Artifact>)

  /** fmt.Sprintf(template, file): nothing below depends on what it returns. */
  type Renderer = (string, string) -> string

  /** strconv.Atoi followed by the sign test: signs and leading zeros are accepted. */
  function ParseArrayIndex(token: string): Option<nat> {
    var index := Atoi(token);
    if index.None? || index.value < 0 then None else Some(index.value)
  }

  lemma ParseArrayIndexOfItoa(n: nat)
    requires n <= MAX_INT
    ensures ParseArrayIndex(Itoa(n)) == Some(n)
  {
    ItoaDigits(n);
    AtoiOfDigits(Itoa(n));
  }

  // ----- finding the targets -----

  function CollectMatches(v: Value, path: seq<string>, concrete: seq<string>, wild: seq<nat>): Option<seq<Match>>
    decreases |path|, 0
  {
    if path == [] then Some([Match(concrete, wild, v)])
    else match v
      case Obj(fields) =>
        if path[0] in fields then CollectMatches(fields[path[0]], path[1..], concrete + [path[0]], wild)
        else Some([])
      case Arr(items) =>
        if path[0] == "*" then CollectItems(items, 0, path[1..], concrete, wild)
        else
          var index := ParseArrayIndex(path[0]);
          if index.None? then None
          else if index.value >= |items| then Some([])
          else CollectMatches(items[index.value], path[1..], concrete + [Itoa(index.value)], wild)
      case _ => None
  }

  function CollectItems(items: seq<Value>, i: nat, rest: seq<string>, concrete: seq<string>, wild: seq<nat>)
    : Option<seq<Match>>
    requires i <= |items|
    decreases |rest|, 1 + |items| - i
  {
    if i == |items| then Some([])
    else
      var here :- CollectMatches(items[i], rest, concrete + [Itoa(i)], wild + [i]);
      var later :- CollectItems(items, i + 1, rest, concrete, wild);
      Some(here + later)
  }

  function ResolvePathMatches(v: Value, pointer: string): Option<seq<Match>> {
    var tokens :- JsonPointer.Parse(pointer);
    if tokens == [] then Some([]) else CollectMatches(v, tokens, [], [])
  }

  /** The dash-separated wildcard indices that are put into a file name. */
  function IndexSuffix(wild: seq<nat>): string {
    if wild == [] then [] else "-" + Itoa(wild[0]) + IndexSuffix(wild[1..])
  }

  function LastIndexOf(s: string, c: char): (r: Option<nat>)
    ensures r.Some? ==> r.value < |s| && s[r.value] == c
  {
    if s == [] then None
    else if s[|s| - 1] == c then Some(|s| - 1)
    else LastIndexOf(s[..|s| - 1], c)
  }

  /** The directory prefix (with its slash) and the file name. */
  function SplitFile(base: string): (string, string) {
    var slash := LastIndexOf(base, '/');
    if slash.None? then ([], base) else (base[..slash.value + 1], base[slash.value + 1..])
  }

  /** The file name without and with its extension; a name that is all extension has none. */
  function SplitExt(name: string): (string, string) {
    var dot := LastIndexOf(name, '.');
    if dot.None? || dot.value == 0 then (name, []) else (name[..dot.value], name[dot.value..])
  }

  function ResolveArtifactFile(base: string, wild: seq<nat>): string {
    if wild == [] then base
    else
      var (dir, name) := SplitFile(base);
      var (stem, ext) := SplitExt(name);
      dir + stem + IndexSuffix(wild) + ext
  }

  function TargetsOf(matches: seq<Match>, entry: Entry, render: Renderer): (ts: seq<Target>)
    ensures |ts| == |matches|
  {
    seq(|matches|, i requires 0 <= i < |matches| =>
      var file := ResolveArtifactFile(entry.file, matches[i].wildcards);
      Target(matches[i].path, file, render(entry.template, file), matches[i].value))
  }

  /** The targets so far, followed by those of one more entry. */
  function AppendTargets(before: Option<seq<Target>>, matches: Option<seq<Match>>, entry: Entry, render: Renderer)
    : Option<seq<Target>>
  {
    if before.None? || matches.None? then None
    else Some(before.value + TargetsOf(matches.value, entry, render))
  }

  function LocateTargets(v: Value, entries: seq<Entry>, render: Renderer): Option<seq<Target>> {
    if entries == [] then Some([])
    else
      var n := |entries| - 1;
      AppendTargets(LocateTargets(v, entries[..n], render), ResolvePathMatches(v, entries[n].path), entries[n], render)
  }

  /** The key under which a concrete path is remembered. */
  function PathKey(path: seq<string>): string {
    Join(path, '\0')
  }

  ghost predicate NoDuplicates(keys: seq<string>) {
    forall i, j :: 0 <= i < j < |keys| ==> keys[i] != keys[j]
  }

  function PathKeys(targets: seq<Target>): (keys: seq<string>)
    ensures |keys| == |targets|
  {
    seq(|targets|, i requires 0 <= i < |targets| => PathKey(targets[i].path))
  }

  function Files(targets: seq<Target>): (files: seq<string>)
    ensures |files| == |targets|
  {
    seq(|targets|, i requires 0 <= i < |targets| => targets[i].file)
  }

  /** No two targets share a path key or an artifact file. */
  ghost predicate Distinct(targets: seq<Target>) {
    NoDuplicates(PathKeys(targets)) && NoDuplicates(Files(targets))
  }

  ghost function Targets(v: Value, entries: seq<Entry>, render: Renderer): Option<seq<Target>> {
    var ts :- LocateTargets(v, entries, render);
    if Distinct(ts) then Some(ts) else None
  }

  lemma {:induction false} LocateTargetsPrefix(v: Value, entries: seq<Entry>, i: nat, render: Renderer)
    requires i <= |entries|
    ensures LocateTargets(v, entries, render).Some? ==>
              LocateTargets(v, entries[..i], render).Some? &&
              LocateTargets(v, entries[..i], render).value <= LocateTargets(v, entries, render).value
  {
    if i < |entries| {
      LocateTargetsPrefix(v, entries[..|entries| - 1], i, render);
      assert entries[..|entries| - 1][..i] == entries[..i];
    } else {
      assert entries[..i] == entries;
    }
  }

  lemma NoDuplicatesNext(keys: seq<string>, k: string)
    ensures NoDuplicates(keys + [k]) <==> NoDuplicates(keys) && k !in keys
  {
    var all := keys + [k];
    assert all[|keys|] == k;
    if NoDuplicates(all) {
      assert forall i :: 0 <= i < |keys| ==> all[i] == keys[i];
      assert k !in keys;
    }
  }

  /** The seen-sets hold exactly the path keys and files of the targets so far. */
  ghost predicate Seen(targets: seq<Target>, paths: set<string>, files: set<string>) {
    (forall k :: k in paths <==> k in PathKeys(targets)) && (forall f :: f in files <==> f in Files(targets))
  }

  lemma SeenNext(targets: seq<Target>, paths: set<string>, files: set<string>, t: Target)
    requires Seen(targets, paths, files) && Distinct(targets)
    ensures Distinct(targets + [t]) <==> PathKey(t.path) !in paths && t.file !in files
    ensures Seen(targets + [t], paths + {PathKey(t.path)}, files + {t.file})
  {
    assert PathKeys(targets + [t]) == PathKeys(targets) + [PathKey(t.path)];
    assert Files(targets + [t]) == Files(targets) + [t.file];
    NoDuplicatesNext(PathKeys(targets), PathKey(t.path));
    NoDuplicatesNext(Files(targets), t.file);
  }

  lemma DistinctPrefix(a: seq<Target>, b: seq<Target>)
    requires a <= b && Distinct(b)
    ensures Distinct(a)
  {
    assert PathKeys(a) <= PathKeys(b) && Files(a) <= Files(b);
  }

  method AddTargets(before: seq<Target>, added: seq<Target>, paths: set<string>, files: set<string>)
    returns (ok: bool, paths': set<string>, files': set<string>)
    requires Seen(before, paths, files) && Distinct(before)
    ensures ok <==> Distinct(before + added)
    ensures ok ==> Seen(before + added, paths', files')
  {
    paths', files' := paths, files;
    assert before + added[..0] == before;
    for m := 0 to |added|
      invariant Distinct(before + added[..m]) && Seen(before + added[..m], paths', files')
    {
      var t := added[m];
      SeenNext(before + added[..m], paths', files', t);
      assert before + added[..m] + [t] == before + added[..m + 1];
      if PathKey(t.path) in paths' || t.file in files' {
        if Distinct(before + added) {
          DistinctPrefix(before + added[..m + 1], before + added);
        }
        return false, paths', files';
      }
      paths', files' := paths' + {PathKey(t.path)}, files' + {t.file};
    }
    assert added[..|added|] == added;
    ok := true;
  }

  method ResolveExternalizedTargets(v: Value, entries: seq<Entry>, render: Renderer) returns (r: Option<seq<Target>>)
    ensures r == Targets(v, entries, render)
  {
    var targets: seq<Target> := [];
    var seenPaths: set<string> := {};
    var seenFiles: set<string> := {};
    for e := 0 to |entries|
      invariant LocateTargets(v, entries[..e], render) == Some(targets)
      invariant Distinct(targets) && Seen(targets, seenPaths, seenFiles)
    {
      assert entries[..e + 1][..e] == entries[..e];
      LocateTargetsPrefix(v, entries, e + 1, render);
      var resolved := ResolvePathMatches(v, entries[e].path);
      if resolved.None? {
        return None;
      }
      var added := TargetsOf(resolved.value, entries[e], render);
      var ok;
      ok, seenPaths, seenFiles := AddTargets(targets, added, seenPaths, seenFiles);
      assert LocateTargets(v, entries[..e + 1], render) == Some(targets + added);
      if !ok {
        NotDistinctExtends(v, entries, e + 1, render);
        return None;
      }
      targets := targets + added;
    }
    assert entries[..|entries|] == entries;
    return Some(targets);
  }

  lemma NotDistinctExtends(v: Value, entries: seq<Entry>, i: nat, render: Renderer)
    requires i <= |entries|
    requires LocateTargets(v, entries[..i], render).Some?
    requires !Distinct(LocateTargets(v, entries[..i], render).value)
    ensures Targets(v, entries, render).None?
  {
    LocateTargetsPrefix(v, entries, i, render);
    if Targets(v, entries, render).Some? {
      DistinctPrefix(LocateTargets(v, entries[..i], render).value, LocateTargets(v, entries, render).value);
    }
  }

  // ----- replacing the targets -----

  /** Assignment at a concrete path of the cloned payload. */
  function Assign(v: Value, path: seq<string>, replacement: Value): Option<Value>
    decreases path
  {
    if path == [] then None
    else match v
      case Obj(fields) =>
        if |path| == 1 then Some(Obj(fields[path[0] := replacement]))
        else if path[0] !in fields then None
        else
          var next :- Assign(fields[path[0]], path[1..], replacement);
          Some(Obj(fields[path[0] := next]))
      case Arr(items) =>
        var index := ParseArrayIndex(path[0]);
        if index.None? || index.value >= |items| then None
        else if |path| == 1 then Some(Arr(items[index.value := replacement]))
        else
          var next :- Assign(items[index.value], path[1..], replacement);
          Some(Arr(items[index.value := next]))
      case _ => None
  }

  function ReplaceTargets(v: Value, targets: seq<Target>): Option<Value>
    decreases targets
  {
    if targets == [] then Some(v)
    else if !targets[0].value.Str? then None
    else
      var next :- Assign(v, targets[0].path, Str(targets[0].placeholder));
      ReplaceTargets(next, targets[1..])
  }

  ghost function ExtractSpec(v: Value, entries: seq<Entry>, render: Renderer): Option<Extracted> {
    if entries == [] then Some(Extracted(v, []))
    else
      var targets :- Targets(v, entries, render);
      var payload :- ReplaceTargets(v, targets);
      Some(Extracted(payload, ArtifactsOf(targets)))
  }

  /** One artifact per target, holding the text that stood there. */
  function ArtifactsOf(targets: seq<Target>): (r: seq<Artifact>)
    ensures |r| == |targets|
  {
    seq(|targets|, i requires 0 <= i < |targets| =>
      Artifact(targets[i].file, if targets[i].value.Str? then targets[i].value.s else ""))
  }

  function RestoreTargets(v: Value, targets: seq<Target>, files: map<string, string>): Option<Value>
    decreases targets
  {
    if targets == [] then Some(v)
    else if targets[0].value != Str(targets[0].placeholder) then RestoreTargets(v, targets[1..], files)
    else if targets[0].file !in files then None
    else
      var next :- Assign(v, targets[0].path, Str(files[targets[0].file]));
      RestoreTargets(next, targets[1..], files)
  }

  ghost function ExpandSpec(v: Value, entries: seq<Entry>, files: map<string, string>, render: Renderer): Option<Value> {
    if entries == [] then Some(v)
    else
      var targets :- Targets(v, entries, render);
      RestoreTargets(v, targets, files)
  }

  method Extract(v: Value, entries: seq<Entry>, render: Renderer) returns (r: Option<Extracted>)
    ensures r == ExtractSpec(v, entries, render)
  {
    hide LocateTargets;
    if entries == [] {
      return Some(Extracted(v, []));
    }
    var cloned := v;
    var resolved := ResolveExternalizedTargets(v, entries, render);
    if resolved.None? {
      return None;
    }
    var targets := resolved.value;
    var artifacts: seq<Artifact> := [];
    ghost var expected := ArtifactsOf(targets);
    assert targets[0..] == targets;
    for i := 0 to |targets|
      invariant ReplaceTargets(v, targets) == ReplaceTargets(cloned, targets[i..])
      invariant artifacts == expected[..i]
    {
      var target := targets[i];
      assert expected[..i + 1] == expected[..i] + [expected[i]];
      assert targets[i..][1..] == targets[i + 1..];
      if !target.value.Str? {
        return None;
      }
      var replaced := Assign(cloned, target.path, Str(target.placeholder));
      if replaced.None? {
        return None;
      }
      cloned := replaced.value;
      artifacts := artifacts + [Artifact(target.file, target.value.s)];
    }
    assert expected[..|targets|] == expected;
    return Some(Extracted(cloned, artifacts));
  }

  method Expand(v: Value, entries: seq<Entry>, files: map<string, string>, render: Renderer) returns (r: Option<Value>)
    ensures r == ExpandSpec(v, entries, files, render)
  {
    hide LocateTargets;
    if entries == [] {
      return Some(v);
    }
    var cloned := v;
    var resolved := ResolveExternalizedTargets(v, entries, render);
    if resolved.None? {
      return None;
    }
    var targets := resolved.value;
    for i := 0 to |targets|
      invariant RestoreTargets(v, targets, files) == RestoreTargets(cloned, targets[i..], files)
    {
      var target := targets[i];
      assert targets[i..][1..] == targets[i + 1..];
      if target.value != Str(target.placeholder) {
        continue;
      }
      if target.file !in files {
        return None;
      }
      var replaced := Assign(cloned, target.path, Str(files[target.file]));
      if replaced.None? {
        return None;
      }
      cloned := replaced.value;
    }
    return Some(cloned);
  }

  // ----- positions and shapes -----

  /** The value at a concrete path whose array steps are canonical decimal indices. */
  function At(v: Value, path: seq<string>): Option<Value> {
    if path == [] then Some(v)
    else match v
      case Obj(fields) => if path[0] in fields then At(fields[path[0]], path[1..]) else None
      case Arr(items) =>
        var index := ParseArrayIndex(path[0]);
        if index.Some? && index.value < |items| && path[0] == Itoa(index.value)
        then At(items[index.value], path[1..]) else None
      case _ => None
  }

  ghost predicate StringAt(v: Value, path: seq<string>) {
    At(v, path).Some? && At(v, path).value.Str?
  }

  /** The same payload except for the text of its strings. */
  ghost predicate SameShape(a: Value, b: Value) {
    match a
    case Str(_) => b.Str?
    case Arr(items) => b.Arr? && |items| == |b.items| && forall i :: 0 <= i < |items| ==> SameShape(items[i], b.items[i])
    case Obj(fields) => b.Obj? && fields.Keys == b.fields.Keys && forall k :: k in fields ==> SameShape(fields[k], b.fields[k])
    case _ => a == b
  }

  lemma {:induction false} SameShapeRefl(a: Value)
    ensures SameShape(a, a)
  {
    match a
    case Arr(items) =>
      forall i | 0 <= i < |items| ensures SameShape(items[i], items[i]) { SameShapeRefl(items[i]); }
    case Obj(fields) =>
      forall k | k in fields ensures SameShape(fields[k], fields[k]) { SameShapeRefl(fields[k]); }
    case _ =>
  }

  lemma {:induction false} SameShapeTrans(a: Value, b: Value, c: Value)
    requires SameShape(a, b) && SameShape(b, c)
    ensures SameShape(a, c)
  {
    match a
    case Arr(items) =>
      forall i | 0 <= i < |items| ensures SameShape(items[i], c.items[i]) {
        SameShapeTrans(items[i], b.items[i], c.items[i]);
      }
    case Obj(fields) =>
      forall k | k in fields ensures SameShape(fields[k], c.fields[k]) {
        SameShapeTrans(fields[k], b.fields[k], c.fields[k]);
      }
    case _ =>
  }

  lemma {:induction false} SameShapeSym(a: Value, b: Value)
    requires SameShape(a, b)
    ensures SameShape(b, a)
  {
    match a
    case Arr(items) =>
      forall i | 0 <= i < |items| ensures SameShape(b.items[i], items[i]) {
        SameShapeSym(items[i], b.items[i]);
      }
    case Obj(fields) =>
      forall k | k in fields ensures SameShape(b.fields[k], fields[k]) {
        SameShapeSym(fields[k], b.fields[k]);
      }
    case _ =>
  }

  lemma {:induction false} SameShapeAt(a: Value, b: Value, path: seq<string>)
    requires SameShape(a, b)
    ensures At(a, path).Some? <==> At(b, path).Some?
    ensures At(a, path).Some? ==> SameShape(At(a, path).value, At(b, path).value)
    decreases path
  {
    if path != [] {
      if a.Obj? && path[0] in a.fields {
        SameShapeAt(a.fields[path[0]], b.fields[path[0]], path[1..]);
      } else if a.Arr? {
        var index := ParseArrayIndex(path[0]);
        if index.Some? && index.value < |a.items| {
          SameShapeAt(a.items[index.value], b.items[index.value], path[1..]);
        }
      }
    }
  }

  lemma {:induction false} SameShapeRepresentable(a: Value, b: Value)
    requires SameShape(a, b) && Representable(a)
    ensures Representable(b)
  {
    match a
    case Arr(items) =>
      forall x | x in b.items ensures Representable(x) {
        var i :| 0 <= i < |items| && b.items[i] == x;
        SameShapeRepresentable(items[i], x);
      }
    case Obj(fields) =>
      forall k | k in fields ensures Representable(b.fields[k]) {
        SameShapeRepresentable(fields[k], b.fields[k]);
      }
    case _ =>
  }

  /** Payloads of one shape with the same text everywhere are the same payload. */
  lemma {:induction false} SameText(a: Value, b: Value)
    requires SameShape(a, b) && Representable(a)
    requires forall p :: StringAt(a, p) ==> At(b, p) == At(a, p)
    ensures a == b
  {
    match a
    case Str(_) =>
      assert StringAt(a, []);
    case Arr(items) =>
      forall i | 0 <= i < |items| ensures items[i] == b.items[i] {
        ParseArrayIndexOfItoa(i);
        forall p | StringAt(items[i], p) ensures At(b.items[i], p) == At(items[i], p) {
          assert ([Itoa(i)] + p)[1..] == p;
          assert StringAt(a, [Itoa(i)] + p);
        }
        SameText(items[i], b.items[i]);
      }
    case Obj(fields) =>
      forall k | k in fields ensures fields[k] == b.fields[k] {
        forall p | StringAt(fields[k], p) ensures At(b.fields[k], p) == At(fields[k], p) {
          assert ([k] + p)[1..] == p;
          assert StringAt(a, [k] + p);
        }
        SameText(fields[k], b.fields[k]);
      }
    case _ =>
  }

  lemma {:induction false} AssignAt(v: Value, path: seq<string>, s: string)
    requires path != [] && StringAt(v, path)
    ensures Assign(v, path, Str(s)).Some?
    ensures var w := Assign(v, path, Str(s)).value;
            SameShape(w, v) && At(w, path) == Some(Str(s))
    decreases path
  {
    hide ParseArrayIndex, Itoa;
    SameShapeRefl(v);
    var child := if v.Obj? then v.fields[path[0]] else v.items[ParseArrayIndex(path[0]).value];
    assert At(v, path) == At(child, path[1..]);
    var next: Value;
    if |path| > 1 {
      AssignAt(child, path[1..], s);
      next := Assign(child, path[1..], Str(s)).value;
    } else {
      assert path[1..] == [];
      next := Str(s);
    }
    assert SameShape(next, child) && At(next, path[1..]) == Some(Str(s));
    if v.Obj? {
      assert Assign(v, path, Str(s)) == Some(Obj(v.fields[path[0] := next]));
    } else {
      var index := ParseArrayIndex(path[0]).value;
      var items := v.items[index := next];
      assert Assign(v, path, Str(s)) == Some(Arr(items));
      assert forall i :: 0 <= i < |items| ==> SameShape(items[i], v.items[i]);
    }
  }

  lemma {:induction false} AssignElsewhere(v: Value, path: seq<string>, s: string, q: seq<string>)
    requires path != [] && StringAt(v, path) && StringAt(v, q) && q != path
    ensures Assign(v, path, Str(s)).Some?
    ensures At(Assign(v, path, Str(s)).value, q) == At(v, q)
    decreases path
  {
    AssignAt(v, path, s);
    if path[0] == q[0] {
      assert path == [path[0]] + path[1..] && q == [q[0]] + q[1..];
      var child := if v.Obj? then v.fields[path[0]] else v.items[ParseArrayIndex(path[0]).value];
      assert StringAt(child, path[1..]) && StringAt(child, q[1..]);
      if |path| > 1 {
        AssignElsewhere(child, path[1..], s, q[1..]);
      }
    }
  }

  // ----- the text at a list of positions -----

  /** Texts assigned one after the other at the given paths. */
  function Fill(v: Value, paths: seq<seq<string>>, texts: seq<string>): Option<Value>
    requires |paths| == |texts|
    decreases |paths|
  {
    if paths == [] then Some(v)
    else
      var next :- Assign(v, paths[0], Str(texts[0]));
      Fill(next, paths[1..], texts[1..])
  }

  ghost predicate StringPaths(v: Value, paths: seq<seq<string>>) {
    (forall i :: 0 <= i < |paths| ==> paths[i] != [] && StringAt(v, paths[i])) &&
    (forall i, j :: 0 <= i < j < |paths| ==> paths[i] != paths[j])
  }

  lemma {:induction false} FillWrites(v: Value, paths: seq<seq<string>>, texts: seq<string>)
    requires |paths| == |texts| && StringPaths(v, paths)
    ensures Fill(v, paths, texts).Some?
    ensures var r := Fill(v, paths, texts).value;
            SameShape(r, v) &&
            (forall i :: 0 <= i < |paths| ==> At(r, paths[i]) == Some(Str(texts[i]))) &&
            (forall q :: StringAt(v, q) && q !in paths ==> At(r, q) == At(v, q))
    decreases |paths|
  {
    if paths == [] {
      SameShapeRefl(v);
    } else {
      var p, s := paths[0], texts[0];
      AssignAt(v, p, s);
      var w := Assign(v, p, Str(s)).value;
      forall q | StringAt(v, q) && q != p
        ensures At(w, q) == At(v, q)
      {
        AssignElsewhere(v, p, s, q);
      }
      assert forall i :: 0 <= i < |paths[1..]| ==> paths[1..][i] == paths[i + 1];
      FillWrites(w, paths[1..], texts[1..]);
      var r := Fill(v, paths, texts).value;
      SameShapeTrans(r, w, v);
      assert p !in paths[1..];
      forall i | 0 <= i < |paths|
        ensures At(r, paths[i]) == Some(Str(texts[i]))
      {
        if i > 0 {
          assert paths[1..][i - 1] == paths[i] && texts[1..][i - 1] == texts[i];
        }
      }
      forall q | StringAt(v, q) && q !in paths
        ensures At(r, q) == At(v, q)
      {
        assert q !in paths[1..] && q != p;
      }
    }
  }

  /** Writing other texts over the same positions and then the first texts again restores the payload. */
  lemma FillRestores(v: Value, paths: seq<seq<string>>, texts: seq<string>, others: seq<string>)
    requires |paths| == |texts| == |others| && StringPaths(v, paths) && Representable(v)
    requires forall i :: 0 <= i < |paths| ==> At(v, paths[i]) == Some(Str(texts[i]))
    ensures Fill(v, paths, others).Some?
    ensures Fill(Fill(v, paths, others).value, paths, texts) == Some(v)
  {
    FillWrites(v, paths, others);
    var w := Fill(v, paths, others).value;
    FillWrites(w, paths, texts);
    var r := Fill(w, paths, texts).value;
    SameShapeTrans(r, w, v);
    SameShapeSym(r, v);
    forall p | StringAt(v, p)
      ensures At(r, p) == At(v, p)
    {
      SameShapeSym(w, v);
      SameShapeAt(v, w, p);
      if p in paths {
        var i :| 0 <= i < |paths| && paths[i] == p;
      }
    }
    SameText(v, r);
  }

  ghost function PathsOf(targets: seq<Target>): (r: seq<seq<string>>)
    ensures |r| == |targets|
  {
    seq(|targets|, i requires 0 <= i < |targets| => targets[i].path)
  }

  ghost function PlaceholdersOf(targets: seq<Target>): (r: seq<string>)
    ensures |r| == |targets|
  {
    seq(|targets|, i requires 0 <= i < |targets| => targets[i].placeholder)
  }

  lemma {:induction false} ReplaceIsFill(v: Value, targets: seq<Target>)
    requires forall i :: 0 <= i < |targets| ==> targets[i].value.Str?
    ensures ReplaceTargets(v, targets) == Fill(v, PathsOf(targets), PlaceholdersOf(targets))
    decreases |targets|
  {
    if targets != [] {
      assert PathsOf(targets)[1..] == PathsOf(targets[1..]);
      assert PlaceholdersOf(targets)[1..] == PlaceholdersOf(targets[1..]);
      var next := Assign(v, targets[0].path, Str(targets[0].placeholder));
      if next.Some? {
        ReplaceIsFill(next.value, targets[1..]);
      }
    }
  }

  lemma {:induction false} RestoreIsFill(v: Value, targets: seq<Target>, files: map<string, string>, texts: seq<string>)
    requires |texts| == |targets|
    requires forall i :: 0 <= i < |targets| ==>
               targets[i].value == Str(targets[i].placeholder) &&
               targets[i].file in files && files[targets[i].file] == texts[i]
    ensures RestoreTargets(v, targets, files) == Fill(v, PathsOf(targets), texts)
    decreases |targets|
  {
    if targets != [] {
      assert PathsOf(targets)[1..] == PathsOf(targets[1..]);
      assert targets[0].value == Str(targets[0].placeholder);
      var next := Assign(v, targets[0].path, Str(texts[0]));
      if next.Some? {
        RestoreIsFill(next.value, targets[1..], files, texts[1..]);
      }
    }
  }

  lemma {:induction false} ReplaceNeedsStrings(v: Value, targets: seq<Target>)
    requires ReplaceTargets(v, targets).Some?
    ensures forall i :: 0 <= i < |targets| ==> targets[i].value.Str?
    decreases |targets|
  {
    if targets != [] {
      ReplaceNeedsStrings(Assign(v, targets[0].path, Str(targets[0].placeholder)).value, targets[1..]);
      assert forall i :: 0 < i < |targets| ==> targets[i] == targets[1..][i - 1];
    }
  }

  // ----- targets are located where they say, and substitution keeps them -----

  /** m, found below concrete, is the value of v at the rest of its path. */
  ghost predicate LocatedIn(m: Match, v: Value, concrete: seq<string>, length: nat) {
    concrete <= m.path && |m.path| == |concrete| + length && At(v, m.path[|concrete|..]) == Some(m.value)
  }

  lemma LocatedStep(m: Match, v: Value, child: Value, concrete: seq<string>, token: string, length: nat)
    requires LocatedIn(m, child, concrete + [token], length)
    requires forall q :: At(v, [token] + q) == At(child, q)
    ensures LocatedIn(m, v, concrete, length + 1)
  {
    var q := m.path[|concrete| + 1..];
    assert m.path[|concrete|..] == [token] + q;
  }

  lemma AtItem(v: Value, i: nat, q: seq<string>)
    requires v.Arr? && i < |v.items| <= MAX_INT
    ensures At(v, [Itoa(i)] + q) == At(v.items[i], q)
  {
    ParseArrayIndexOfItoa(i);
    assert ([Itoa(i)] + q)[1..] == q;
  }

  lemma AtField(v: Value, k: string, q: seq<string>)
    requires v.Obj? && k in v.fields
    ensures At(v, [k] + q) == At(v.fields[k], q)
  {
    assert ([k] + q)[1..] == q;
  }

  lemma {:induction false} MatchesLocated(v: Value, path: seq<string>, concrete: seq<string>, wild: seq<nat>)
    requires Representable(v) && CollectMatches(v, path, concrete, wild).Some?
    ensures forall m :: m in CollectMatches(v, path, concrete, wild).value ==> LocatedIn(m, v, concrete, |path|)
    decreases |path|, 0
  {
    if path == [] {
    } else if v.Obj? {
      if path[0] in v.fields {
        var child := v.fields[path[0]];
        MatchesLocated(child, path[1..], concrete + [path[0]], wild);
        forall q ensures At(v, [path[0]] + q) == At(child, q) { AtField(v, path[0], q); }
        forall m | m in CollectMatches(v, path, concrete, wild).value
          ensures LocatedIn(m, v, concrete, |path|)
        {
          LocatedStep(m, v, child, concrete, path[0], |path| - 1);
        }
      }
    } else if path[0] == "*" {
      ItemMatchesLocated(v, 0, path[1..], concrete, wild);
    } else {
      var index := ParseArrayIndex(path[0]).value;
      if index < |v.items| {
        var child := v.items[index];
        MatchesLocated(child, path[1..], concrete + [Itoa(index)], wild);
        forall q ensures At(v, [Itoa(index)] + q) == At(child, q) { AtItem(v, index, q); }
        forall m | m in CollectMatches(v, path, concrete, wild).value
          ensures LocatedIn(m, v, concrete, |path|)
        {
          LocatedStep(m, v, child, concrete, Itoa(index), |path| - 1);
        }
      }
    }
  }

  lemma {:induction false} ItemMatchesLocated(v: Value, i: nat, rest: seq<string>, concrete: seq<string>, wild: seq<nat>)
    requires v.Arr? && Representable(v) && i <= |v.items| && CollectItems(v.items, i, rest, concrete, wild).Some?
    ensures forall m :: m in CollectItems(v.items, i, rest, concrete, wild).value ==> LocatedIn(m, v, concrete, |rest| + 1)
    decreases |rest|, 1 + |v.items| - i
  {
    if i < |v.items| {
      var here := CollectMatches(v.items[i], rest, concrete + [Itoa(i)], wild + [i]).value;
      MatchesLocated(v.items[i], rest, concrete + [Itoa(i)], wild + [i]);
      forall q ensures At(v, [Itoa(i)] + q) == At(v.items[i], q) { AtItem(v, i, q); }
      forall m | m in here
        ensures LocatedIn(m, v, concrete, |rest| + 1)
      {
        LocatedStep(m, v, v.items[i], concrete, Itoa(i), |rest|);
      }
      ItemMatchesLocated(v, i + 1, rest, concrete, wild);
    }
  }

  /** The same matches, up to the text they hold. */
  ghost predicate SameMatches(a: Option<seq<Match>>, b: Option<seq<Match>>) {
    (a.None? <==> b.None?) &&
    (a.Some? ==> |a.value| == |b.value| &&
                 forall i :: 0 <= i < |a.value| ==>
                   a.value[i].path == b.value[i].path && a.value[i].wildcards == b.value[i].wildcards)
  }

  lemma {:induction false} CollectSameShape(a: Value, b: Value, path: seq<string>, concrete: seq<string>, wild: seq<nat>)
    requires SameShape(a, b)
    ensures SameMatches(CollectMatches(a, path, concrete, wild), CollectMatches(b, path, concrete, wild))
    decreases |path|, 0
  {
    if path != [] {
      if a.Obj? {
        if path[0] in a.fields {
          CollectSameShape(a.fields[path[0]], b.fields[path[0]], path[1..], concrete + [path[0]], wild);
        }
      } else if a.Arr? {
        var index := ParseArrayIndex(path[0]);
        if path[0] == "*" {
          ItemsSameShape(a, b, 0, path[1..], concrete, wild);
        } else if index.Some? && index.value < |a.items| {
          CollectSameShape(a.items[index.value], b.items[index.value], path[1..], concrete + [Itoa(index.value)], wild);
        }
      }
    }
  }

  lemma {:induction false} ItemsSameShape(a: Value, b: Value, i: nat, rest: seq<string>, concrete: seq<string>, wild: seq<nat>)
    requires SameShape(a, b) && a.Arr? && i <= |a.items|
    ensures SameMatches(CollectItems(a.items, i, rest, concrete, wild), CollectItems(b.items, i, rest, concrete, wild))
    decreases |rest|, 1 + |a.items| - i
  {
    if i < |a.items| {
      CollectSameShape(a.items[i], b.items[i], rest, concrete + [Itoa(i)], wild + [i]);
      ItemsSameShape(a, b, i + 1, rest, concrete, wild);
    }
  }

  /** The same targets, up to the text they hold. */
  ghost predicate SameTargets(a: seq<Target>, b: seq<Target>) {
    |a| == |b| &&
    forall i :: 0 <= i < |a| ==>
      a[i].path == b[i].path && a[i].file == b[i].file && a[i].placeholder == b[i].placeholder
  }

  ghost predicate SameTargetsOrNone(a: Option<seq<Target>>, b: Option<seq<Target>>) {
    (a.Some? <==> b.Some?) && (a.Some? ==> SameTargets(a.value, b.value))
  }

  lemma ResolveSameShape(a: Value, b: Value, pointer: string)
    requires SameShape(a, b)
    ensures SameMatches(ResolvePathMatches(a, pointer), ResolvePathMatches(b, pointer))
  {
    var tokens := JsonPointer.Parse(pointer);
    if tokens.Some? {
      CollectSameShape(a, b, tokens.value, [], []);
    }
  }

  lemma AppendSame(a: Option<seq<Target>>, b: Option<seq<Target>>, ma: Option<seq<Match>>, mb: Option<seq<Match>>,
                   entry: Entry, render: Renderer)
    requires SameTargetsOrNone(a, b) && SameMatches(ma, mb)
    ensures SameTargetsOrNone(AppendTargets(a, ma, entry, render), AppendTargets(b, mb, entry, render))
  {
  }

  lemma {:induction false} LocateSameShape(a: Value, b: Value, entries: seq<Entry>, render: Renderer)
    requires SameShape(a, b)
    ensures SameTargetsOrNone(LocateTargets(a, entries, render), LocateTargets(b, entries, render))
  {
    if entries != [] {
      LocateSameShape(a, b, entries[..|entries| - 1], render);
      ResolveSameShape(a, b, entries[|entries| - 1].path);
      var n := |entries| - 1;
      AppendSame(LocateTargets(a, entries[..n], render), LocateTargets(b, entries[..n], render),
                 ResolvePathMatches(a, entries[n].path), ResolvePathMatches(b, entries[n].path), entries[n], render);
    }
  }

  /** Replacing strings by strings does not change the target set. */
  lemma TargetsSameShape(a: Value, b: Value, entries: seq<Entry>, render: Renderer)
    requires SameShape(a, b)
    ensures SameTargetsOrNone(Targets(a, entries, render), Targets(b, entries, render))
  {
    hide LocateTargets, SameShape;
    LocateSameShape(a, b, entries, render);
    if LocateTargets(a, entries, render).Some? {
      var s, t := LocateTargets(a, entries, render).value, LocateTargets(b, entries, render).value;
      assert PathKeys(s) == PathKeys(t) && Files(s) == Files(t);
    }
  }

  lemma {:induction false} TargetsLocated(v: Value, entries: seq<Entry>, render: Renderer)
    requires Representable(v) && LocateTargets(v, entries, render).Some?
    ensures forall t :: t in LocateTargets(v, entries, render).value ==> t.path != [] && At(v, t.path) == Some(t.value)
  {
    if entries != [] {
      var n := |entries| - 1;
      TargetsLocated(v, entries[..n], render);
      var tokens := JsonPointer.Parse(entries[n].path).value;
      var matches := ResolvePathMatches(v, entries[n].path).value;
      if tokens != [] {
        MatchesLocated(v, tokens, [], []);
      }
      var added := TargetsOf(matches, entries[n], render);
      forall t | t in added
        ensures t.path != [] && At(v, t.path) == Some(t.value)
      {
        var i :| 0 <= i < |matches| && added[i] == t;
        assert matches[i] in matches;
        assert matches[i].path[0..] == matches[i].path;
      }
    }
  }

  lemma TargetPathsDistinct(v: Value, targets: seq<Target>)
    requires Distinct(targets)
    requires forall t :: t in targets ==> t.path != [] && At(v, t.path) == Some(t.value) && t.value.Str?
    ensures StringPaths(v, PathsOf(targets))
  {
    var paths := PathsOf(targets);
    forall i | 0 <= i < |paths|
      ensures paths[i] != [] && StringAt(v, paths[i])
    {
      assert targets[i] in targets;
    }
    forall i, j | 0 <= i < j < |paths|
      ensures paths[i] != paths[j]
    {
      assert PathKeys(targets)[i] != PathKeys(targets)[j];
    }
  }

  ghost predicate Holds(files: map<string, string>, artifacts: seq<Artifact>) {
    forall i :: 0 <= i < |artifacts| ==> artifacts[i].file in files && files[artifacts[i].file] == artifacts[i].content
  }

  /** A successful extraction changes text only, and leaves one artifact per target. */
  lemma ExtractKeepsShape(v: Value, entries: seq<Entry>, render: Renderer)
    requires Representable(v) && ExtractSpec(v, entries, render).Some?
    ensures SameShape(ExtractSpec(v, entries, render).value.payload, v)
    ensures entries != [] ==>
              Targets(v, entries, render).Some? &&
              |ExtractSpec(v, entries, render).value.artifacts| == |Targets(v, entries, render).value|
  {
    hide LocateTargets;
    if entries == [] {
      SameShapeRefl(v);
    } else {
      var targets := Targets(v, entries, render).value;
      TargetsLocated(v, entries, render);
      ReplaceNeedsStrings(v, targets);
      TargetPathsDistinct(v, targets);
      ReplaceIsFill(v, targets);
      FillWrites(v, PathsOf(targets), PlaceholdersOf(targets));
    }
  }

  /** Expanding an extracted payload against its own artifacts gives the payload back,
      for every entry list on which extraction succeeds and every template. */
  lemma ExpandOfExtract(v: Value, entries: seq<Entry>, render: Renderer, files: map<string, string>)
    requires Representable(v) && ExtractSpec(v, entries, render).Some?
    requires Holds(files, ExtractSpec(v, entries, render).value.artifacts)
    ensures ExpandSpec(ExtractSpec(v, entries, render).value.payload, entries, files, render) == Some(v)
  {
    hide LocateTargets;
    if entries != [] {
      var targets := Targets(v, entries, render).value;
      var payload := ExtractSpec(v, entries, render).value.payload;
      var artifacts := ArtifactsOf(targets);
      var paths, others := PathsOf(targets), PlaceholdersOf(targets);
      TargetsLocated(v, entries, render);
      ReplaceNeedsStrings(v, targets);
      TargetPathsDistinct(v, targets);
      ReplaceIsFill(v, targets);
      FillWrites(v, paths, others);
      var texts := seq(|targets|, i requires 0 <= i < |targets| => targets[i].value.s);
      assert forall i :: 0 <= i < |paths| ==> targets[i] in targets;
      FillRestores(v, paths, texts, others);

      SameShapeSym(payload, v);
      SameShapeRepresentable(v, payload);
      TargetsSameShape(v, payload, entries, render);
      var again := Targets(payload, entries, render).value;
      TargetsLocated(payload, entries, render);
      assert PathsOf(again) == paths;
      forall i | 0 <= i < |again|
        ensures again[i].value == Str(again[i].placeholder)
        ensures again[i].file in files && files[again[i].file] == texts[i]
      {
        assert again[i] in again;
        assert At(payload, paths[i]) == Some(Str(others[i]));
        assert artifacts[i].file in files;
      }
      RestoreIsFill(payload, again, files, texts);
    }
  }

  // ----- file names of one entry -----

  lemma {:induction false} SuffixIsJoin(wild: seq<nat>)
    requires wild != []
    ensures IndexSuffix(wild) == "-" + Join(Decimals(wild), '-')
  {
    hide Itoa;
    if |wild| == 1 {
      assert wild[1..] == [];
    } else {
      SuffixIsJoin(wild[1..]);
      assert Decimals(wild)[1..] == Decimals(wild[1..]);
    }
  }

  function Decimals(wild: seq<nat>): (r: seq<string>)
    ensures |r| == |wild|
  {
    seq(|wild|, i requires 0 <= i < |wild| => Itoa(wild[i]))
  }

  lemma DecimalsHaveNoDash(wild: seq<nat>)
    ensures forall d :: d in Decimals(wild) ==> '-' !in d
  {
    forall i | 0 <= i < |wild|
      ensures '-' !in Decimals(wild)[i]
    {
      ItoaDigits(wild[i]);
    }
  }

  lemma SuffixInjective(a: seq<nat>, b: seq<nat>)
    requires a != [] && b != [] && IndexSuffix(a) == IndexSuffix(b)
    ensures a == b
  {
    SuffixIsJoin(a);
    SuffixIsJoin(b);
    assert IndexSuffix(a)[1..] == Join(Decimals(a), '-') == Join(Decimals(b), '-');
    DecimalsHaveNoDash(a);
    DecimalsHaveNoDash(b);
    SplitOfJoin(Decimals(a), '-');
    SplitOfJoin(Decimals(b), '-');
    forall i | 0 <= i < |a|
      ensures a[i] == b[i]
    {
      assert Decimals(a)[i] == Decimals(b)[i];
      ItoaInjective(a[i], b[i]);
    }
  }

  lemma ArtifactFileInjective(base: string, a: seq<nat>, b: seq<nat>)
    requires a != [] && b != [] && ResolveArtifactFile(base, a) == ResolveArtifactFile(base, b)
    ensures a == b
  {
    var (dir, name) := SplitFile(base);
    var (stem, ext) := SplitExt(name);
    var front := dir + stem;
    assert ResolveArtifactFile(base, a) == front + IndexSuffix(a) + ext;
    assert ResolveArtifactFile(base, b) == front + IndexSuffix(b) + ext;
    assert |IndexSuffix(a)| == |IndexSuffix(b)|;
    assert IndexSuffix(a) == (front + IndexSuffix(a) + ext)[|front|..|front| + |IndexSuffix(a)|];
    assert IndexSuffix(b) == (front + IndexSuffix(b) + ext)[|front|..|front| + |IndexSuffix(b)|];
    SuffixInjective(a, b);
  }

  /** Matches are told apart by their wildcard indices; several matches each have some. */
  ghost predicate WildcardsApart(matches: seq<Match>, wild: seq<nat>) {
    (forall i :: 0 <= i < |matches| ==> wild <= matches[i].wildcards) &&
    (|matches| > 1 ==> forall i :: 0 <= i < |matches| ==> |matches[i].wildcards| > |wild|) &&
    (forall i, j :: 0 <= i < j < |matches| ==> matches[i].wildcards != matches[j].wildcards)
  }

  lemma {:induction false} CollectApart(v: Value, path: seq<string>, concrete: seq<string>, wild: seq<nat>)
    requires CollectMatches(v, path, concrete, wild).Some?
    ensures WildcardsApart(CollectMatches(v, path, concrete, wild).value, wild)
    decreases |path|, 0
  {
    if path != [] {
      if v.Obj? && path[0] in v.fields {
        CollectApart(v.fields[path[0]], path[1..], concrete + [path[0]], wild);
      } else if v.Arr? {
        if path[0] == "*" {
          ItemsApart(v.items, 0, path[1..], concrete, wild);
        } else if ParseArrayIndex(path[0]).value < |v.items| {
          var index := ParseArrayIndex(path[0]).value;
          CollectApart(v.items[index], path[1..], concrete + [Itoa(index)], wild);
        }
      }
    }
  }

  lemma {:induction false} ItemsApart(items: seq<Value>, i: nat, rest: seq<string>, concrete: seq<string>, wild: seq<nat>)
    requires i <= |items| && CollectItems(items, i, rest, concrete, wild).Some?
    ensures WildcardsApart(CollectItems(items, i, rest, concrete, wild).value, wild)
    ensures forall m :: m in CollectItems(items, i, rest, concrete, wild).value ==>
              |m.wildcards| > |wild| && m.wildcards[|wild|] >= i
    decreases |rest|, 1 + |items| - i
  {
    if i < |items| {
      var here := CollectMatches(items[i], rest, concrete + [Itoa(i)], wild + [i]).value;
      var later := CollectItems(items, i + 1, rest, concrete, wild).value;
      CollectApart(items[i], rest, concrete + [Itoa(i)], wild + [i]);
      ItemsApart(items, i + 1, rest, concrete, wild);
      var all := here + later;
      forall k | 0 <= k < |here|
        ensures wild <= here[k].wildcards && |here[k].wildcards| > |wild| && here[k].wildcards[|wild|] == i
      {
        assert wild + [i] <= here[k].wildcards;
        assert (wild + [i])[|wild|] == i;
      }
      forall j, k | 0 <= j < k < |all|
        ensures all[j].wildcards != all[k].wildcards
      {
        if j < |here| && k >= |here| {
          assert later[k - |here|] in later;
        }
      }
    }
  }

  /** No two matches of one entry are given the same artifact file. */
  lemma EntryFilesNeverCollide(v: Value, entry: Entry, i: nat, j: nat)
    requires ResolvePathMatches(v, entry.path).Some?
    requires i < j < |ResolvePathMatches(v, entry.path).value|
    ensures var matches := ResolvePathMatches(v, entry.path).value;
            ResolveArtifactFile(entry.file, matches[i].wildcards) != ResolveArtifactFile(entry.file, matches[j].wildcards)
  {
    var matches := ResolvePathMatches(v, entry.path).value;
    CollectApart(v, JsonPointer.Parse(entry.path).value, [], []);
    if ResolveArtifactFile(entry.file, matches[i].wildcards) == ResolveArtifactFile(entry.file, matches[j].wildcards) {
      ArtifactFileInjective(entry.file, matches[i].wildcards, matches[j].wildcards);
    }
  }
}

/** Saving a resource and reading it back (internal/orchestrator/externalized.go,
    defaults.go, local.go, resource_info.go): externalization composed with defaults. */
module SaveRead {
  import opened Payload
  import opened Externalization
  import opened DefaultsOverlay

  /** The resolved metadata of a resource: its effective defaults, if it has any, and
      its externalized attributes. */
  datatype Metadata = Metadata(defaults: Option<Value>, entries: seq<Entry>)

  function MergeContent(v: Value, md: Metadata): Result<Value> {
    if md.defaults.None? then Ok(v) else MergeWithDefaults(md.defaults.value, v)
  }

  /** Compaction that keeps an empty object, so that the resource stays present. */
  function CompactContent(v: Value, md: Metadata): Result<Value> {
    if md.defaults.None? then Ok(v)
    else
      var compacted :- CompactAgainstDefaults(v, md.defaults.value);
      Ok(if compacted.Null? then Obj(map[]) else compacted)
  }

  /** What is written to the repository for a payload. */
  ghost function Stored(v: Value, md: Metadata, render: Renderer): Result<Extracted> {
    match ExtractSpec(v, md.entries, render)
    case None => Err(Validation)
    case Some(extracted) =>
      var payload :- CompactContent(extracted.payload, md);
      Ok(Extracted(payload, extracted.artifacts))
  }

  /** What is read for a stored payload and its artifact files. */
  ghost function ReadBack(stored: Value, files: map<string, string>, md: Metadata, render: Renderer): Result<Value> {
    var merged :- MergeContent(stored, md);
    match ExpandSpec(merged, md.entries, files, render)
    case None => Err(Validation)
    case Some(v) => Ok(v)
  }

  /** The resource store: one payload per logical path and artifact files beside it. */
  class Repository {
    var payloads: map<string, Value>
    var artifacts: map<string, map<string, string>>

    constructor ()
      ensures payloads == map[] && artifacts == map[]
    {
      payloads, artifacts := map[], map[];
    }

    function FilesOf(path: string): map<string, string>
      reads this
    {
      if path in artifacts then artifacts[path] else map[]
    }

    method SaveResourceWithArtifacts(path: string, payload: Value, written: seq<Artifact>)
      modifies this
      ensures payloads == if payload.Null? then old(payloads) - {path} else old(payloads)[path := payload]
      ensures forall p :: p != path ==> FilesOf(p) == old(FilesOf(p))
      ensures FilesOf(path) == Written(old(FilesOf(path)), written)
    {
      var files := FilesOf(path);
      for i := 0 to |written|
        invariant Written(files, written[i..]) == Written(old(FilesOf(path)), written)
        invariant payloads == old(payloads) && artifacts == old(artifacts)
      {
        assert written[i..][1..] == written[i + 1..];
        files := files[written[i].file := written[i].content];
      }
      artifacts := artifacts[path := files];
      payloads := if payload.Null? then payloads - {path} else payloads[path := payload];
    }
  }

  /** Artifact files after writing the given artifacts in order. */
  function Written(files: map<string, string>, written: seq<Artifact>): map<string, string>
    decreases written
  {
    if written == [] then files else Written(files[written[0].file := written[0].content], written[1..])
  }

  lemma {:induction false} WrittenKeeps(files: map<string, string>, written: seq<Artifact>, f: string)
    requires forall a :: a in written ==> a.file != f
    ensures f in Written(files, written) <==> f in files
    ensures f in files ==> Written(files, written)[f] == files[f]
    decreases written
  {
    if written != [] {
      WrittenKeeps(files[written[0].file := written[0].content], written[1..], f);
    }
  }

  /** Artifacts with different names are all found again. */
  lemma {:induction false} WrittenHolds(files: map<string, string>, written: seq<Artifact>)
    requires forall i, j :: 0 <= i < j < |written| ==> written[i].file != written[j].file
    ensures Holds(Written(files, written), written)
    decreases written
  {
    if written != [] {
      var next := files[written[0].file := written[0].content];
      WrittenHolds(next, written[1..]);
      WrittenKeeps(next, written[1..], written[0].file);
      forall i | 0 < i < |written|
        ensures written[i] == written[1..][i - 1]
      {
      }
    }
  }

  lemma StoredArtifactsDistinct(v: Value, md: Metadata, render: Renderer)
    requires Stored(v, md, render).Ok?
    ensures var written := Stored(v, md, render).value.artifacts;
            forall i, j :: 0 <= i < j < |written| ==> written[i].file != written[j].file
  {
    hide LocateTargets;
    if md.entries != [] {
      var targets := Targets(v, md.entries, render).value;
      assert NoDuplicates(Files(targets));
      forall i, j | 0 <= i < j < |targets|
        ensures targets[i].file != targets[j].file
      {
        assert Files(targets)[i] != Files(targets)[j];
      }
    }
  }

  method SaveLocalResource(repo: Repository, path: string, v: Value, md: Metadata, render: Renderer)
    returns (r: Result<()>)
    modifies repo
    ensures r.Ok? <==> Stored(v, md, render).Ok?
    ensures r.Err? ==> repo.payloads == old(repo.payloads) && repo.artifacts == old(repo.artifacts)
    ensures r.Ok? ==>
      var stored := Stored(v, md, render).value;
      repo.payloads == (if stored.payload.Null? then old(repo.payloads) - {path}
                        else old(repo.payloads)[path := stored.payload]) &&
      repo.FilesOf(path) == Written(old(repo.FilesOf(path)), stored.artifacts)
  {
    var content := v;
    var extracted := Extract(content, md.entries, render);
    if extracted.None? {
      return Err(Validation);
    }
    var compacted := CompactContent(extracted.value.payload, md);
    if compacted.Err? {
      return Err(compacted.fault);
    }
    repo.SaveResourceWithArtifacts(path, compacted.value, extracted.value.artifacts);
    return Ok(());
  }

  method ReadLocalResource(repo: Repository, path: string, md: Metadata, render: Renderer) returns (r: Result<Value>)
    ensures path !in repo.payloads ==> r == Err(NotFound)
    ensures path in repo.payloads ==> r == ReadBack(repo.payloads[path], repo.FilesOf(path), md, render)
  {
    if path !in repo.payloads {
      return Err(NotFound);
    }
    var merged := MergeContent(repo.payloads[path], md);
    if merged.Err? {
      return Err(merged.fault);
    }
    var expanded := Expand(merged.value, md.entries, repo.FilesOf(path), render);
    return if expanded.None? then Err(Validation) else Ok(expanded.value);
  }

  // ----- defaults see shapes only -----

  /** b has every key of d, and so on where both hold objects. */
  ghost predicate Absorbs(b: Fields, d: Fields)
    decreases Obj(d)
  {
    forall k :: k in d ==> k in b && (d[k].Obj? && b[k].Obj? ==> Absorbs(b[k].fields, d[k].fields))
  }

  lemma {:induction false} AbsorbsIff(b: Fields, d: Fields)
    ensures Absorbs(b, d) <==> Merge(d, b) == b
    decreases Obj(d)
  {
    forall k | k in d && k in b && d[k].Obj? && b[k].Obj?
      ensures Absorbs(b[k].fields, d[k].fields) <==> Merge(d[k].fields, b[k].fields) == b[k].fields
    {
      AbsorbsIff(b[k].fields, d[k].fields);
    }
    if Absorbs(b, d) {
      assert Merge(d, b).Keys == b.Keys;
    } else {
      var k :| k in d && (k in b ==> d[k].Obj? && b[k].Obj? && !Absorbs(b[k].fields, d[k].fields));
      assert k in Merge(d, b);
    }
  }

  lemma {:induction false} AbsorbsSameShape(d: Fields, a: Fields, b: Fields)
    requires SameShape(Obj(a), Obj(b)) && Absorbs(a, d)
    ensures Absorbs(b, d)
    decreases Obj(d)
  {
    forall k | k in d
      ensures k in b && (d[k].Obj? && b[k].Obj? ==> Absorbs(b[k].fields, d[k].fields))
    {
      assert SameShape(a[k], b[k]);
      if d[k].Obj? && b[k].Obj? {
        AbsorbsSameShape(d[k].fields, a[k].fields, b[k].fields);
      }
    }
  }

  /** Whether a payload absorbs its defaults depends on its shape alone. */
  lemma AbsorbsByShape(d: Fields, a: Fields, b: Fields)
    requires SameShape(Obj(a), Obj(b)) && Merge(d, a) == a
    ensures Merge(d, b) == b
  {
    AbsorbsIff(a, d);
    AbsorbsSameShape(d, a, b);
    AbsorbsIff(b, d);
  }

  /** Merging that does not change the shape changes nothing. */
  lemma {:induction false} MergeOfSameShape(d: Fields, a: Fields)
    requires SameShape(Obj(Merge(d, a)), Obj(a))
    ensures Merge(d, a) == a
    decreases Obj(a)
  {
    assert Merge(d, a).Keys == a.Keys;
    forall k | k in a
      ensures Merge(d, a)[k] == a[k]
    {
      assert SameShape(Merge(d, a)[k], a[k]);
      if k in d && d[k].Obj? && a[k].Obj? {
        MergeOfSameShape(d[k].fields, a[k].fields);
      }
    }
  }

  lemma {:induction false} MergeRepresentable(d: Fields, a: Fields)
    requires Representable(Obj(d)) && Representable(Obj(a))
    ensures Representable(Obj(Merge(d, a)))
    decreases Obj(a)
  {
    forall k | k in Merge(d, a)
      ensures Representable(Merge(d, a)[k])
    {
      if k in a && k in d && d[k].Obj? && a[k].Obj? {
        MergeRepresentable(d[k].fields, a[k].fields);
      }
    }
  }

  /** Restoring artifacts changes text only, whatever the payload. */
  lemma {:induction false} RestoreKeepsShape(v: Value, w: Value, targets: seq<Target>, files: map<string, string>)
    requires SameShape(w, v) && RestoreTargets(w, targets, files).Some?
    requires forall t :: t in targets ==> t.path != [] && At(v, t.path) == Some(t.value)
    ensures SameShape(RestoreTargets(w, targets, files).value, v)
    decreases targets
  {
    if targets != [] {
      var t := targets[0];
      assert t in targets;
      if t.value == Str(t.placeholder) {
        SameShapeSym(w, v);
        SameShapeAt(v, w, t.path);
        AssignAt(w, t.path, files[t.file]);
        var next := Assign(w, t.path, Str(files[t.file])).value;
        SameShapeTrans(next, w, v);
        RestoreKeepsShape(v, next, targets[1..], files);
      } else {
        RestoreKeepsShape(v, w, targets[1..], files);
      }
    }
  }

  lemma ExpandKeepsShape(v: Value, entries: seq<Entry>, files: map<string, string>, render: Renderer)
    requires Representable(v) && ExpandSpec(v, entries, files, render).Some?
    ensures SameShape(ExpandSpec(v, entries, files, render).value, v)
  {
    hide LocateTargets;
    SameShapeRefl(v);
    if entries != [] {
      TargetsLocated(v, entries, render);
      RestoreKeepsShape(v, v, Targets(v, entries, render).value, files);
    }
  }

  /** What is read is the stored text laid over the defaults, artifacts restored. */
  lemma StoredReadsAsMerged(v: Value, md: Metadata, render: Renderer, files: map<string, string>)
    requires v.Obj? && Stored(v, md, render).Ok? && ExtractSpec(v, md.entries, render).value.payload.Obj?
    ensures var extracted := ExtractSpec(v, md.entries, render).value.payload;
            MergeContent(Stored(v, md, render).value.payload, md) == MergeContent(extracted, md) &&
            MergeContent(extracted, md).Ok?
  {
    var extracted := ExtractSpec(v, md.entries, render).value.payload;
    if md.defaults.Some? {
      var d := md.defaults.value;
      MergeOfStoredForm(d, extracted);
      if d.Obj? {
        assert Merge(d.fields, map[]) == d.fields;
      }
    }
  }

  /** A payload and defaults that Go can hold, and a store that holds the artifacts. */
  ghost predicate Saved(v: Value, md: Metadata, render: Renderer, files: map<string, string>) {
    v.Obj? && Representable(v) && (md.defaults.Some? ==> Representable(md.defaults.value)) &&
    Stored(v, md, render).Ok? && Holds(files, Stored(v, md, render).value.artifacts)
  }

  /** The extracted payload; it has the shape of v and expands to v. */
  lemma ExtractedForm(v: Value, md: Metadata, render: Renderer, files: map<string, string>) returns (p: Value)
    requires Saved(v, md, render, files)
    ensures SameShape(p, v) && p.Obj? && ExpandSpec(p, md.entries, files, render) == Some(v)
    ensures MergeContent(p, md).Ok?
    ensures MergeContent(Stored(v, md, render).value.payload, md) == MergeContent(p, md)
  {
    p := ExtractSpec(v, md.entries, render).value.payload;
    ExtractKeepsShape(v, md.entries, render);
    assert Holds(files, ExtractSpec(v, md.entries, render).value.artifacts);
    ExpandOfExtract(v, md.entries, render, files);
    StoredReadsAsMerged(v, md, render, files);
  }

  lemma ContainedReadsBack(v: Value, md: Metadata, render: Renderer, files: map<string, string>)
    requires Saved(v, md, render, files) && MergeContent(v, md) == Ok(v)
    ensures ReadBack(Stored(v, md, render).value.payload, files, md, render) == Ok(v)
  {
    var p := ExtractedForm(v, md, render, files);
    hide Stored, ExpandSpec;
    if md.defaults.Some? && md.defaults.value.Obj? {
      SameShapeSym(p, v);
      AbsorbsByShape(md.defaults.value.fields, v.fields, p.fields);
    }
    assert MergeContent(p, md) == Ok(p);
  }

  lemma ReadBackContains(v: Value, md: Metadata, render: Renderer, files: map<string, string>)
    requires Saved(v, md, render, files)
    requires ReadBack(Stored(v, md, render).value.payload, files, md, render) == Ok(v)
    ensures MergeContent(v, md) == Ok(v)
  {
    var p := ExtractedForm(v, md, render, files);
    hide Stored, ExpandSpec;
    if md.defaults.Some? && md.defaults.value.Obj? {
      var d := md.defaults.value.fields;
      var merged := Obj(Merge(d, p.fields));
      SameShapeSym(p, v);
      SameShapeRepresentable(v, p);
      MergeRepresentable(d, p.fields);
      ExpandKeepsShape(merged, md.entries, files, render);
      SameShapeSym(v, merged);
      SameShapeTrans(merged, v, p);
      MergeOfSameShape(d, p.fields);
      AbsorbsByShape(d, p.fields, v.fields);
    }
  }

  /** Saving a payload and reading it back returns exactly that payload if and only if the
      payload already contains its defaults. */
  lemma SaveThenRead(v: Value, md: Metadata, render: Renderer, files: map<string, string>)
    requires Saved(v, md, render, files)
    ensures ReadBack(Stored(v, md, render).value.payload, files, md, render) == Ok(v) <==> MergeContent(v, md) == Ok(v)
  {
    hide Stored, ReadBack, MergeContent;
    if MergeContent(v, md) == Ok(v) {
      ContainedReadsBack(v, md, render, files);
    }
    if ReadBack(Stored(v, md, render).value.payload, files, md, render) == Ok(v) {
      ReadBackContains(v, md, render, files);
    }
  }

  lemma StoredIsPresent(v: Value, md: Metadata, render: Renderer)
    requires v.Obj? && Representable(v) && Stored(v, md, render).Ok?
    ensures !Stored(v, md, render).value.payload.Null?
  {
    hide ExtractSpec, Representable, CompactAgainstDefaults;
    ExtractKeepsShape(v, md.entries, render);
  }

  /** The round trip through the repository itself. */
  method SaveAndReadBack(repo: Repository, path: string, v: Value, md: Metadata, render: Renderer) returns (r: Result<Value>)
    requires v.Obj? && Representable(v) && (md.defaults.Some? ==> Representable(md.defaults.value))
    modifies repo
    ensures Stored(v, md, render).Ok? ==> (r == Ok(v) <==> MergeContent(v, md) == Ok(v))
    ensures Stored(v, md, render).Err? ==> r.Err? && repo.payloads == old(repo.payloads) && repo.artifacts == old(repo.artifacts)
  {
    hide Stored, ReadBack, MergeContent, Holds, Written, Representable;
    ghost var before := repo.FilesOf(path);
    var saved := SaveLocalResource(repo, path, v, md, render);
    if saved.Err? {
      return Err(saved.fault);
    }
    StoredIsPresent(v, md, render);
    assert Holds(repo.FilesOf(path), Stored(v, md, render).value.artifacts) by {
      StoredArtifactsDistinct(v, md, render);
      WrittenHolds(before, Stored(v, md, render).value.artifacts);
    }
    SaveThenRead(v, md, render, repo.FilesOf(path));
    r := ReadLocalResource(repo, path, md, render);
  }
}

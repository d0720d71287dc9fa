/** The structural diff between a local and a remote payload
    (internal/orchestrator/diff.go). */
module Diff {
  import opened Payload
  import opened Text
  import opened Floats
  import JsonPointer

  datatype Operation = Add | Remove | Replace

  /** One difference, at a token path relative to the two values compared. */
  datatype Edit = Edit(path: seq<string>, op: Operation, local: Value, remote: Value)

  /** What is reported for a difference; path is a JSON Pointer. */
  datatype DiffEntry = DiffEntry(path: string, op: Operation, local: Value, remote: Value)

  // ----- numbers -----

  predicate ScalarsNumericallyEqual(l: Value, r: Value) {
    (l.Int? && r.Float? && FloatOf(l.i) == r.f) || (l.Float? && r.Int? && FloatOf(r.i) == l.f)
  }

  /** One is an integer and the other the float that it is rounded to. */
  ghost predicate NumbersAgree(l: Value, r: Value) {
    (l.Int? && r.Float? && IsFloatOf(l.i, r.f)) || (l.Float? && r.Int? && IsFloatOf(r.i, l.f))
  }

  lemma NumbersAgreeIff(l: Value, r: Value)
    ensures ScalarsNumericallyEqual(l, r) <==> NumbersAgree(l, r)
  {
    hide FloatOf, IsFloatOf;
    if l.Int? && r.Float? {
      FloatOfIff(l.i, r.f);
    } else if l.Float? && r.Int? {
      FloatOfIff(r.i, l.f);
    }
  }

  /** Equality up to the split between integers and floats. */
  ghost predicate Agree(l: Value, r: Value) {
    l == r || NumbersAgree(l, r) ||
    (l.Obj? && r.Obj? && l.fields.Keys == r.fields.Keys &&
     forall k :: k in l.fields ==> Agree(l.fields[k], r.fields[k])) ||
    (l.Arr? && r.Arr? && |l.items| == |r.items| &&
     forall i :: 0 <= i < |l.items| ==> Agree(l.items[i], r.items[i]))
  }

  lemma {:induction false} AgreeSymmetric(l: Value, r: Value)
    ensures Agree(l, r) <==> Agree(r, l)
  {
    hide IsFloatOf;
    if l.Obj? && r.Obj? && l.fields.Keys == r.fields.Keys {
      forall k | k in l.fields
        ensures Agree(l.fields[k], r.fields[k]) <==> Agree(r.fields[k], l.fields[k])
      {
        AgreeSymmetric(l.fields[k], r.fields[k]);
      }
    } else if l.Arr? && r.Arr? && |l.items| == |r.items| {
      forall i | 0 <= i < |l.items|
        ensures Agree(l.items[i], r.items[i]) <==> Agree(r.items[i], l.items[i])
      {
        AgreeSymmetric(l.items[i], r.items[i]);
      }
    }
  }

  // ----- the walk -----

  function Under(token: string, edits: seq<Edit>): (r: seq<Edit>)
    ensures |r| == |edits|
    ensures forall i :: 0 <= i < |r| ==> r[i] == edits[i].(path := [token] + edits[i].path)
  {
    seq(|edits|, i requires 0 <= i < |edits| => edits[i].(path := [token] + edits[i].path))
  }

  /** The differences below one key or index. */
  datatype Group = Group(token: string, edits: seq<Edit>)

  function Flat(groups: seq<Group>): seq<Edit> {
    if groups == [] then []
    else
      var n := |groups| - 1;
      Flat(groups[..n]) + Under(groups[n].token, groups[n].edits)
  }

  predicate SameKind(l: Value, r: Value) {
    (l.Obj? && r.Obj?) || (l.Arr? && r.Arr?)
  }

  function Edits(l: Value, r: Value): seq<Edit>
    decreases l, 2
  {
    if l == r then []
    else if l.Bin? || r.Bin? then [Edit([], Replace, l, r)]
    else if SameKind(l, r) then Flat(Groups(l, r))
    else if ScalarsNumericallyEqual(l, r) then []
    else [Edit([], Replace, l, r)]
  }

  /** One group per key of either object, in key order, or per index of either array. */
  function Groups(l: Value, r: Value): (groups: seq<Group>)
    requires SameKind(l, r)
    ensures |groups| == Width(l, r)
    ensures forall i :: 0 <= i < |groups| ==> groups[i].token == Token(l, r, i)
    decreases l, 1
  {
    seq(Width(l, r), i requires 0 <= i < Width(l, r) =>
      Group(Token(l, r, i), if l.Obj? then KeyEdits(l.fields, r.fields, Token(l, r, i)) else ItemEdits(l.items, r.items, i)))
  }

  function MaxLength(l: seq<Value>, r: seq<Value>): nat {
    if |r| > |l| then |r| else |l|
  }

  function Keys(l: Fields, r: Fields): seq<string> {
    SortedKeys(l.Keys + r.Keys)
  }

  function Width(l: Value, r: Value): nat
    requires SameKind(l, r)
  {
    if l.Obj? then |Keys(l.fields, r.fields)| else MaxLength(l.items, r.items)
  }

  function Token(l: Value, r: Value, i: nat): (t: string)
    requires SameKind(l, r) && i < Width(l, r)
    ensures l.Obj? ==> t in l.fields || t in r.fields
  {
    if l.Obj? then
      assert Keys(l.fields, r.fields)[i] in Keys(l.fields, r.fields);
      Keys(l.fields, r.fields)[i]
    else Itoa(i)
  }

  function KeyEdits(l: Fields, r: Fields, k: string): seq<Edit>
    requires k in l || k in r
    decreases Obj(l), 0
  {
    if k !in l then [Edit([], Add, Null, r[k])]
    else if k !in r then [Edit([], Remove, l[k], Null)]
    else Edits(l[k], r[k])
  }

  function ItemEdits(l: seq<Value>, r: seq<Value>, i: nat): seq<Edit>
    requires i < MaxLength(l, r)
    decreases Arr(l), 0
  {
    if i >= |l| then [Edit([], Add, Null, r[i])]
    else if i >= |r| then [Edit([], Remove, l[i], Null)]
    else Edits(l[i], r[i])
  }

  /** A mismatch with binary content. */
  predicate BinaryClash(e: Edit) {
    e.op.Replace? && (e.local.Bin? || e.remote.Bin?)
  }

  /** The walk reports binary mismatches with the empty pointer, wherever they are. */
  function Report(prefix: seq<string>, e: Edit): DiffEntry {
    DiffEntry(if BinaryClash(e) then "" else JsonPointer.Print(prefix + e.path), e.op, e.local, e.remote)
  }

  function Reports(prefix: seq<string>, edits: seq<Edit>): (r: seq<DiffEntry>)
    ensures |r| == |edits|
    ensures forall i :: 0 <= i < |r| ==> r[i] == Report(prefix, edits[i])
  {
    seq(|edits|, i requires 0 <= i < |edits| => Report(prefix, edits[i]))
  }

  lemma ReportsConcat(prefix: seq<string>, a: seq<Edit>, b: seq<Edit>)
    ensures Reports(prefix, a + b) == Reports(prefix, a) + Reports(prefix, b)
  {
    hide Report;
  }

  lemma ReportsUnder(prefix: seq<string>, token: string, edits: seq<Edit>)
    ensures Reports(prefix, Under(token, edits)) == Reports(prefix + [token], edits)
  {
    forall i | 0 <= i < |edits|
      ensures Report(prefix, Under(token, edits)[i]) == Report(prefix + [token], edits[i])
    {
      assert prefix + ([token] + edits[i].path) == prefix + [token] + edits[i].path;
    }
  }

  lemma {:induction false} PrintExtends(prefix: seq<string>, token: string)
    ensures JsonPointer.Print(prefix + [token]) == JsonPointer.Print(prefix) + "/" + JsonPointer.EscapeToken(token)
  {
    if prefix == [] {
      assert prefix + [token] == [token] && [token][1..] == [];
    } else {
      PrintExtends(prefix[1..], token);
      assert (prefix + [token])[1..] == prefix[1..] + [token];
    }
  }

  lemma {:induction false} DigitsNeedNoEscape(s: string)
    requires forall i :: 0 <= i < |s| ==> IsDigit(s[i])
    ensures JsonPointer.EscapeToken(s) == s
  {
    JsonPointer.EscapeIsPerCharacter(s);
    if s != [] {
      DigitsNeedNoEscape(s[1..]);
      JsonPointer.EscapeIsPerCharacter(s[1..]);
      assert IsDigit(s[0]);
      assert s == [s[0]] + s[1..];
    }
  }

  lemma Associative(a: seq<DiffEntry>, b: seq<DiffEntry>, c: seq<DiffEntry>)
    ensures a + b + c == a + (b + c)
  {
  }

  lemma FlatNext(prefix: seq<string>, groups: seq<Group>, i: nat)
    requires i < |groups|
    ensures Reports(prefix, Flat(groups[..i + 1]))
            == Reports(prefix, Flat(groups[..i])) + Reports(prefix + [groups[i].token], groups[i].edits)
  {
    assert groups[..i + 1][..i] == groups[..i];
    ReportsConcat(prefix, Flat(groups[..i]), Under(groups[i].token, groups[i].edits));
    ReportsUnder(prefix, groups[i].token, groups[i].edits);
  }

  /** The list that the recursion appends to. */
  class DiffCollector {
    var entries: seq<DiffEntry>

    constructor ()
      ensures entries == []
    {
      entries := [];
    }

    method AppendEntry(path: string, op: Operation, local: Value, remote: Value)
      modifies this
      ensures entries == old(entries) + [DiffEntry(path, op, local, remote)]
    {
      entries := entries + [DiffEntry(path, op, local, remote)];
    }

    method CollectDiffEntries(pointer: string, local: Value, remote: Value, ghost prefix: seq<string>)
      requires pointer == JsonPointer.Print(prefix)
      modifies this
      ensures entries == old(entries) + Reports(prefix, Edits(local, remote))
      decreases local, 2
    {
      assert prefix + [] == prefix;
      if local == remote {
        return;
      }
      if local.Bin? || remote.Bin? {
        AppendEntry("", Replace, local, remote);
        return;
      }
      if SameKind(local, remote) {
        CollectChildren(pointer, local, remote, prefix);
        return;
      }
      if ScalarsNumericallyEqual(local, remote) {
        return;
      }
      AppendEntry(pointer, Replace, local, remote);
    }

    /** The loop over the sorted keys of two objects, or over the indices of two arrays. */
    method CollectChildren(pointer: string, local: Value, remote: Value, ghost prefix: seq<string>)
      requires pointer == JsonPointer.Print(prefix) && SameKind(local, remote)
      modifies this
      ensures entries == old(entries) + Reports(prefix, Flat(Groups(local, remote)))
      decreases local, 1
    {
      ghost var groups := Groups(local, remote);
      assert groups[..0] == [] && groups[..|groups|] == groups && Reports(prefix, Flat([])) == [];
      hide Flat, Report, Reports, Groups, JsonPointer.Print;
      for i := 0 to Width(local, remote)
        invariant entries == old(entries) + Reports(prefix, Flat(groups[..i]))
      {
        var token := Token(local, remote, i);
        PrintExtends(prefix, token);
        if local.Arr? {
          ItoaDigits(i);
          DigitsNeedNoEscape(token);
        }
        var next := pointer + "/" + if local.Obj? then JsonPointer.EscapeToken(token) else token;
        FlatNext(prefix, groups, i);
        CollectChild(next, local, remote, i, prefix + [token]);
        Associative(old(entries), Reports(prefix, Flat(groups[..i])), Reports(prefix + [token], groups[i].edits));
      }
    }

    method CollectChild(next: string, local: Value, remote: Value, i: nat, ghost prefix: seq<string>)
      requires SameKind(local, remote) && i < Width(local, remote) && next == JsonPointer.Print(prefix)
      modifies this
      ensures entries == old(entries) + Reports(prefix, Groups(local, remote)[i].edits)
      decreases local, 0
    {
      hide Groups, Edits, JsonPointer.Print, Reports;
      GroupEdits(local, remote, i);
      var l, r := Left(local, remote, i), Right(local, remote, i);
      hide Left, Right;
      if l.None? {
        OneReport(prefix, Add, Null, r.value);
        AppendEntry(next, Add, Null, r.value);
      } else if r.None? {
        OneReport(prefix, Remove, l.value, Null);
        AppendEntry(next, Remove, l.value, Null);
      } else {
        CollectDiffEntries(next, l.value, r.value, prefix);
      }
    }
  }

  lemma OneReport(prefix: seq<string>, op: Operation, local: Value, remote: Value)
    requires !op.Replace?
    ensures Reports(prefix, [Edit([], op, local, remote)]) == [DiffEntry(JsonPointer.Print(prefix), op, local, remote)]
  {
    hide JsonPointer.Print;
    assert prefix + [] == prefix;
  }

  method BuildDiffEntries(local: Value, remote: Value) returns (entries: seq<DiffEntry>)
    ensures entries == Reports([], Edits(local, remote))
    ensures entries == [] <==> Agree(local, remote)
  {
    hide Edits, Agree, Report;
    EditsEmptyIffAgree(local, remote);
    var collector := new DiffCollector();
    collector.CollectDiffEntries("", local, remote, []);
    return collector.entries;
  }

  // ----- groups and the children they compare -----

  /** The child of l that group i compares, if there is one. */
  function Left(l: Value, r: Value, i: nat): (c: Option<Value>)
    requires SameKind(l, r) && i < Width(l, r)
    ensures c.Some? ==> c.value < l
  {
    if l.Obj? then
      if Token(l, r, i) in l.fields then Some(l.fields[Token(l, r, i)]) else None
    else if i < |l.items| then Some(l.items[i]) else None
  }

  function Right(l: Value, r: Value, i: nat): (c: Option<Value>)
    requires SameKind(l, r) && i < Width(l, r)
    ensures Left(l, r, i).Some? || c.Some?
  {
    if r.Obj? then
      if Token(l, r, i) in r.fields then Some(r.fields[Token(l, r, i)]) else None
    else if i < |r.items| then Some(r.items[i]) else None
  }

  lemma GroupEdits(l: Value, r: Value, i: nat)
    requires SameKind(l, r) && i < Width(l, r)
    ensures var here, there, edits := Left(l, r, i), Right(l, r, i), Groups(l, r)[i].edits;
            (here.None? ==> edits == [Edit([], Add, Null, there.value)]) &&
            (there.None? ==> edits == [Edit([], Remove, here.value, Null)]) &&
            (here.Some? && there.Some? ==> edits == Edits(here.value, there.value))
  {
  }

  lemma TokensDistinct(l: Value, r: Value, i: nat, j: nat)
    requires SameKind(l, r) && i < j < Width(l, r)
    ensures Token(l, r, i) != Token(l, r, j)
  {
    if l.Obj? {
      SortedKeysOrdered(l.fields.Keys + r.fields.Keys, i, j);
    } else if Itoa(i) == Itoa(j) {
      ItoaInjective(i, j);
    }
  }

  /** The tokens of groups are pairwise different. */
  ghost predicate DistinctTokens(groups: seq<Group>) {
    forall i, j :: 0 <= i < j < |groups| ==> groups[i].token != groups[j].token
  }

  lemma GroupsDistinct(l: Value, r: Value)
    requires SameKind(l, r)
    ensures DistinctTokens(Groups(l, r))
  {
    forall i, j | 0 <= i < j < Width(l, r)
      ensures Groups(l, r)[i].token != Groups(l, r)[j].token
    {
      TokensDistinct(l, r, i, j);
    }
  }

  /** Every flattened edit comes from a group. */
  lemma {:induction false} FlatFrom(groups: seq<Group>, e: Edit) returns (i: nat, j: nat)
    requires e in Flat(groups)
    ensures i < |groups| && j < |groups[i].edits|
    ensures e == groups[i].edits[j].(path := [groups[i].token] + groups[i].edits[j].path)
  {
    var n := |groups| - 1;
    if e in Flat(groups[..n]) {
      i, j := FlatFrom(groups[..n], e);
    } else {
      var under := Under(groups[n].token, groups[n].edits);
      i := n;
      j :| 0 <= j < |under| && under[j] == e;
    }
  }

  // ----- each edit is where it says, and no edit is below another -----

  /** The edit holds exactly the two subvalues at its path. */
  ghost predicate Located(e: Edit, l: Value, r: Value) {
    var here, there := JsonPointer.Lookup(l, e.path), JsonPointer.Lookup(r, e.path);
    match e.op
    case Add => here.None? && there == Some(e.remote) && e.local.Null?
    case Remove => here == Some(e.local) && there.None? && e.remote.Null?
    case Replace => here == Some(e.local) && there == Some(e.remote)
  }

  lemma TokenNamesChildren(l: Value, r: Value, i: nat)
    requires SameKind(l, r) && i < Width(l, r) && Representable(l) && Representable(r)
    ensures JsonPointer.Child(l, Token(l, r, i)) == Left(l, r, i)
    ensures JsonPointer.Child(r, Token(l, r, i)) == Right(l, r, i)
  {
    if l.Arr? {
      ItoaDigits(i);
    }
  }

  lemma LookupUnder(v: Value, k: string, path: seq<string>)
    ensures JsonPointer.Lookup(v, [k] + path) ==
            if JsonPointer.Child(v, k).Some? then JsonPointer.Lookup(JsonPointer.Child(v, k).value, path) else None
  {
    assert ([k] + path)[1..] == path;
  }

  lemma {:induction false} EditsLocated(l: Value, r: Value)
    requires Representable(l) && Representable(r)
    ensures forall e :: e in Edits(l, r) ==> Located(e, l, r)
    decreases l
  {
    if l != r && SameKind(l, r) {
      forall e | e in Edits(l, r)
        ensures Located(e, l, r)
      {
        var groups := Groups(l, r);
        var i, j := FlatFrom(groups, e);
        GroupEdits(l, r, i);
        TokenNamesChildren(l, r, i);
        var here, there, inner := Left(l, r, i), Right(l, r, i), groups[i].edits[j];
        LookupUnder(l, groups[i].token, inner.path);
        LookupUnder(r, groups[i].token, inner.path);
        if here.Some? && there.Some? {
          assert Representable(here.value) && Representable(there.value);
          EditsLocated(here.value, there.value);
          assert inner in groups[i].edits;
        }
      }
    }
  }

  /** No edit is at or below the place of another. */
  ghost predicate Apart(edits: seq<Edit>) {
    forall i, j :: 0 <= i < |edits| && 0 <= j < |edits| && i != j ==> !(edits[i].path <= edits[j].path)
  }

  ghost predicate HeadsIn(edits: seq<Edit>, heads: set<string>) {
    forall i :: 0 <= i < |edits| ==> edits[i].path != [] && edits[i].path[0] in heads
  }

  lemma ApartUnder(k: string, edits: seq<Edit>)
    requires Apart(edits)
    ensures Apart(Under(k, edits)) && HeadsIn(Under(k, edits), {k})
  {
    forall i, j | 0 <= i < |edits| && 0 <= j < |edits| && i != j
      ensures !([k] + edits[i].path <= [k] + edits[j].path)
    {
      assert ([k] + edits[i].path)[1..] == edits[i].path && ([k] + edits[j].path)[1..] == edits[j].path;
    }
  }

  lemma ApartConcat(a: seq<Edit>, b: seq<Edit>, ha: set<string>, hb: set<string>)
    requires Apart(a) && Apart(b) && HeadsIn(a, ha) && HeadsIn(b, hb) && ha !! hb
    ensures Apart(a + b) && HeadsIn(a + b, ha + hb)
  {
    var all := a + b;
    forall i, j | 0 <= i < |all| && 0 <= j < |all| && i != j
      ensures !(all[i].path <= all[j].path)
    {
      assert all[i].path != [] && all[j].path != [];
    }
  }

  ghost function Tokens(groups: seq<Group>): set<string> {
    set i | 0 <= i < |groups| :: groups[i].token
  }

  lemma {:induction false} FlatApart(groups: seq<Group>)
    requires DistinctTokens(groups) && forall i :: 0 <= i < |groups| ==> Apart(groups[i].edits)
    ensures Apart(Flat(groups)) && HeadsIn(Flat(groups), Tokens(groups))
  {
    if groups != [] {
      var n := |groups| - 1;
      var last := groups[n];
      FlatApart(groups[..n]);
      ApartUnder(last.token, last.edits);
      assert last.token !in Tokens(groups[..n]);
      ApartConcat(Flat(groups[..n]), Under(last.token, last.edits), Tokens(groups[..n]), {last.token});
      assert Tokens(groups[..n]) + {last.token} <= Tokens(groups);
    }
  }

  lemma {:induction false} EditsApart(l: Value, r: Value)
    ensures Apart(Edits(l, r))
    decreases l
  {
    if l != r && SameKind(l, r) {
      var groups := Groups(l, r);
      GroupsDistinct(l, r);
      forall i | 0 <= i < |groups|
        ensures Apart(groups[i].edits)
      {
        GroupEdits(l, r, i);
        if Left(l, r, i).Some? && Right(l, r, i).Some? {
          EditsApart(Left(l, r, i).value, Right(l, r, i).value);
        }
      }
      FlatApart(groups);
    }
  }

  // ----- nothing is reported exactly when the payloads agree -----

  lemma {:induction false} FlatEmpty(groups: seq<Group>)
    ensures Flat(groups) == [] <==> forall i :: 0 <= i < |groups| ==> groups[i].edits == []
  {
    if groups != [] {
      var n := |groups| - 1;
      FlatEmpty(groups[..n]);
      assert Under(groups[n].token, groups[n].edits) == [] <==> groups[n].edits == [];
      assert forall i :: 0 <= i < n ==> groups[..n][i] == groups[i];
    }
  }

  /** The two children that group i compares are both there and agree. */
  ghost predicate ChildrenAgree(l: Value, r: Value, i: nat)
    requires SameKind(l, r) && i < Width(l, r)
  {
    Left(l, r, i).Some? && Right(l, r, i).Some? && Agree(Left(l, r, i).value, Right(l, r, i).value)
  }

  lemma ChildrenOfKey(l: Value, r: Value, k: string) returns (i: nat)
    requires l.Obj? && r.Obj? && (k in l.fields || k in r.fields)
    ensures i < Width(l, r) && Token(l, r, i) == k
    ensures Left(l, r, i) == if k in l.fields then Some(l.fields[k]) else None
    ensures Right(l, r, i) == if k in r.fields then Some(r.fields[k]) else None
  {
    var keys := Keys(l.fields, r.fields);
    assert k in keys;
    i :| 0 <= i < |keys| && keys[i] == k;
  }

  lemma ObjectsAgreeByGroups(l: Value, r: Value)
    requires l.Obj? && r.Obj? && forall i: nat :: i < Width(l, r) ==> ChildrenAgree(l, r, i)
    ensures Agree(l, r)
  {
    hide Width, Token, Left, Right;
    forall k | k in l.fields || k in r.fields
      ensures k in l.fields && k in r.fields && Agree(l.fields[k], r.fields[k])
    {
      var i := ChildrenOfKey(l, r, k);
      assert ChildrenAgree(l, r, i);
    }
    assert l.fields.Keys == r.fields.Keys;
  }

  lemma ArraysAgreeByGroups(l: Value, r: Value)
    requires l.Arr? && r.Arr? && forall i: nat :: i < Width(l, r) ==> ChildrenAgree(l, r, i)
    ensures Agree(l, r)
  {
    assert Width(l, r) > 0 ==> ChildrenAgree(l, r, Width(l, r) - 1);
    forall i: nat | i < |l.items|
      ensures Agree(l.items[i], r.items[i])
    {
      assert ChildrenAgree(l, r, i);
    }
  }

  lemma AgreeByGroups(l: Value, r: Value)
    requires SameKind(l, r) && l != r
    ensures Agree(l, r) <==> forall i: nat :: i < Width(l, r) ==> ChildrenAgree(l, r, i)
  {
    if forall i: nat :: i < Width(l, r) ==> ChildrenAgree(l, r, i) {
      if l.Obj? {
        ObjectsAgreeByGroups(l, r);
      } else {
        ArraysAgreeByGroups(l, r);
      }
    }
    if Agree(l, r) {
      forall i: nat | i < Width(l, r)
        ensures ChildrenAgree(l, r, i)
      {
        AgreeChild(l, r, i);
      }
    }
    hide Agree, Width, ChildrenAgree;
  }

  lemma AgreeChild(l: Value, r: Value, i: nat)
    requires SameKind(l, r) && l != r && Agree(l, r) && i < Width(l, r)
    ensures ChildrenAgree(l, r, i)
  {
  }

  lemma {:induction false} EditsEmptyIffAgree(l: Value, r: Value)
    ensures Edits(l, r) == [] <==> Agree(l, r)
    decreases l
  {
    NumbersAgreeIff(l, r);
    hide FloatOf, IsFloatOf;
    if l != r && SameKind(l, r) {
      var groups := Groups(l, r);
      forall i | 0 <= i < |groups|
        ensures groups[i].edits == [] <==> ChildrenAgree(l, r, i)
      {
        GroupEdits(l, r, i);
        if Left(l, r, i).Some? && Right(l, r, i).Some? {
          EditsEmptyIffAgree(Left(l, r, i).value, Right(l, r, i).value);
        }
      }
      FlatEmpty(groups);
      AgreeByGroups(l, r);
    }
  }

  /** Up to 2^53, an integer and a float are reported exactly when they are different numbers. */
  lemma IntAgainstFloat(n: int, x: real)
    requires -TOP <= n <= TOP
    ensures Edits(Int(n), Float(x)) == (if x == n as real then [] else [Edit([], Replace, Int(n), Float(x))])
    ensures Edits(Float(x), Int(n)) == (if x == n as real then [] else [Edit([], Replace, Float(x), Int(n))])
  {
    hide FloatOf, IsFloatOf;
    SmallIsExact(n, x);
    FloatOfIff(n, x);
  }

  // ----- the edits are a patch from local to remote -----

  /** The edits below one token. */
  function Below(edits: seq<Edit>, k: string): seq<Edit> {
    if edits == [] then []
    else
      var n := |edits| - 1;
      var e := edits[n];
      if e.path != [] && e.path[0] == k then Below(edits[..n], k) + [e.(path := e.path[1..])]
      else Below(edits[..n], k)
  }

  function Heads(edits: seq<Edit>): set<string> {
    set i | 0 <= i < |edits| && edits[i].path != [] :: edits[i].path[0]
  }

  predicate AtRoot(edits: seq<Edit>) {
    edits != [] && edits[0].path == []
  }

  /** What an edit at the root puts in place of a value. */
  function Substitute(e: Edit): Option<Value> {
    if e.op.Remove? then None else Some(e.remote)
  }

  /** A present value with the remote sides of the edits substituted into it. */
  function PatchPresent(v: Value, edits: seq<Edit>): Option<Value>
    decreases v, 1
  {
    if AtRoot(edits) then Substitute(edits[0]) else Some(PatchInside(v, edits))
  }

  function PatchAbsent(edits: seq<Edit>): Option<Value> {
    if AtRoot(edits) then Substitute(edits[0]) else None
  }

  function PatchField(fields: Fields, k: string, edits: seq<Edit>): Option<Value>
    decreases Obj(fields), 0, 0
  {
    if k in fields then PatchPresent(fields[k], Below(edits, k)) else PatchAbsent(Below(edits, k))
  }

  function PatchItem(items: seq<Value>, i: nat, edits: seq<Edit>): Option<Value>
    decreases Arr(items), 0, 0
  {
    if i < |items| then PatchPresent(items[i], Below(edits, Itoa(i))) else PatchAbsent(Below(edits, Itoa(i)))
  }

  function PatchInside(v: Value, edits: seq<Edit>): Value
    decreases v, 0, |edits| + 2 + if v.Arr? then |v.items| else 0
  {
    match v
    case Obj(fields) =>
      Obj(map k | k in fields.Keys + Heads(edits) && PatchField(fields, k, edits).Some? :: PatchField(fields, k, edits).value)
    case Arr(items) => Arr(PatchedItems(items, edits, |items| + |edits|))
    case _ => v
  }

  /** The items that are kept or added among the first n indices. */
  function PatchedItems(items: seq<Value>, edits: seq<Edit>, n: nat): seq<Value>
    decreases Arr(items), 0, n + 1
  {
    if n == 0 then []
    else
      var here := PatchItem(items, n - 1, edits);
      PatchedItems(items, edits, n - 1) + (if here.Some? then [here.value] else [])
  }

  lemma {:induction false} BelowConcat(a: seq<Edit>, b: seq<Edit>, k: string)
    ensures Below(a + b, k) == Below(a, k) + Below(b, k)
    decreases |b|
  {
    if b == [] {
      assert a + b == a;
    } else {
      var n := |b| - 1;
      assert (a + b)[..|a| + n] == a + b[..n];
      BelowConcat(a, b[..n], k);
    }
  }

  lemma {:induction false} BelowUnder(t: string, edits: seq<Edit>, k: string)
    ensures Below(Under(t, edits), k) == if t == k then edits else []
    decreases |edits|
  {
    if edits != [] {
      var n := |edits| - 1;
      var u := Under(t, edits);
      assert u[..n] == Under(t, edits[..n]);
      BelowUnder(t, edits[..n], k);
      assert ([t] + edits[n].path)[1..] == edits[n].path;
      assert edits == edits[..n] + [edits[n]];
    }
  }

  /** What a group list says about one token. */
  ghost function GroupOf(groups: seq<Group>, k: string): seq<Edit> {
    if groups == [] then []
    else
      var n := |groups| - 1;
      if groups[n].token == k then groups[n].edits else GroupOf(groups[..n], k)
  }

  lemma {:induction false} GroupOfAbsent(groups: seq<Group>, k: string)
    requires forall i :: 0 <= i < |groups| ==> groups[i].token != k
    ensures GroupOf(groups, k) == []
  {
    if groups != [] {
      GroupOfAbsent(groups[..|groups| - 1], k);
    }
  }

  lemma {:induction false} GroupOfPresent(groups: seq<Group>, i: nat)
    requires i < |groups| && DistinctTokens(groups)
    ensures GroupOf(groups, groups[i].token) == groups[i].edits
  {
    var n := |groups| - 1;
    if i < n {
      GroupOfPresent(groups[..n], i);
    }
  }

  lemma {:induction false} BelowFlat(groups: seq<Group>, k: string)
    requires DistinctTokens(groups)
    ensures Below(Flat(groups), k) == GroupOf(groups, k)
  {
    if groups != [] {
      var n := |groups| - 1;
      BelowFlat(groups[..n], k);
      BelowConcat(Flat(groups[..n]), Under(groups[n].token, groups[n].edits), k);
      BelowUnder(groups[n].token, groups[n].edits, k);
      if groups[n].token == k {
        GroupOfAbsent(groups[..n], k);
      }
    }
  }

  lemma {:induction false} PatchNothing(v: Value)
    ensures PatchInside(v, []) == v
    decreases v, 1
  {
    match v
    case Obj(fields) =>
      forall k | k in fields
        ensures PatchField(fields, k, []) == Some(fields[k])
      {
        PatchNothing(fields[k]);
        assert Below([], k) == [];
      }
      assert PatchInside(v, []).fields == fields;
    case Arr(items) =>
      PatchNoItems(items, |items|);
      assert items[..|items|] == items;
    case _ =>
  }

  lemma {:induction false} PatchNoItems(items: seq<Value>, n: nat)
    requires n <= |items|
    ensures PatchedItems(items, [], n) == items[..n]
    decreases Arr(items), 0, n
  {
    if n > 0 {
      PatchNoItems(items, n - 1);
      PatchNothing(items[n - 1]);
      assert Below([], Itoa(n - 1)) == [];
      assert PatchItem(items, n - 1, []) == Some(items[n - 1]);
    }
  }

  /** Patching l with the edits gives r, up to the split between integers and floats. */
  ghost predicate PatchesTo(l: Value, edits: seq<Edit>, r: Value) {
    PatchPresent(l, edits).Some? && Agree(PatchPresent(l, edits).value, r)
  }

  /** Patching the children that group i compares gives the remote child, or nothing. */
  lemma PatchGroup(l: Value, r: Value, i: nat)
    requires SameKind(l, r) && i < Width(l, r)
    requires var here, there := Left(l, r, i), Right(l, r, i);
             here.Some? && there.Some? ==> PatchesTo(here.value, Edits(here.value, there.value), there.value)
    ensures var here, there, edits := Left(l, r, i), Right(l, r, i), Groups(l, r)[i].edits;
            var patched := if here.Some? then PatchPresent(here.value, edits) else PatchAbsent(edits);
            (patched.Some? <==> there.Some?) && (there.Some? ==> Agree(patched.value, there.value))
  {
    GroupEdits(l, r, i);
    hide Edits, PatchInside;
  }

  ghost predicate ChildrenPatch(l: Value, r: Value)
    requires SameKind(l, r)
  {
    forall i :: 0 <= i < Width(l, r) && Left(l, r, i).Some? && Right(l, r, i).Some? ==>
      PatchesTo(Left(l, r, i).value, Edits(Left(l, r, i).value, Right(l, r, i).value), Right(l, r, i).value)
  }

  lemma PatchKey(l: Value, r: Value, k: string)
    requires l.Obj? && r.Obj? && ChildrenPatch(l, r)
    ensures var edits := Flat(Groups(l, r));
            var patched := PatchField(l.fields, k, edits);
            (patched.Some? <==> k in r.fields) && (k in r.fields ==> Agree(patched.value, r.fields[k])) &&
            (patched.Some? ==> k in l.fields.Keys + Heads(edits))
  {
    var groups := Groups(l, r);
    var edits := Flat(groups);
    GroupsDistinct(l, r);
    BelowFlat(groups, k);
    if k in l.fields || k in r.fields {
      var i := ChildrenOfKey(l, r, k);
      GroupOfPresent(groups, i);
      PatchGroup(l, r, i);
      if k !in l.fields {
        GroupEdits(l, r, i);
        BelowInHeads(edits, k);
      }
    } else {
      GroupOfAbsent(groups, k);
    }
  }

  lemma {:induction false} BelowInHeads(edits: seq<Edit>, k: string)
    requires Below(edits, k) != []
    ensures k in Heads(edits)
    decreases |edits|
  {
    var n := |edits| - 1;
    if edits[n].path == [] || edits[n].path[0] != k {
      BelowInHeads(edits[..n], k);
      var i :| 0 <= i < n && edits[..n][i].path != [] && edits[..n][i].path[0] == k;
      assert edits[i].path[0] == k;
    }
  }

  lemma AgreeFields(l: Fields, r: Fields)
    requires l.Keys == r.Keys && forall k :: k in l ==> Agree(l[k], r[k])
    ensures Agree(Obj(l), Obj(r))
  {
  }

  lemma InsideObject(l: Value, edits: seq<Edit>, k: string)
    requires l.Obj?
    ensures PatchInside(l, edits).Obj?
    ensures var p := PatchInside(l, edits).fields;
            (k in p <==> k in l.fields.Keys + Heads(edits) && PatchField(l.fields, k, edits).Some?) &&
            (k in p ==> p[k] == PatchField(l.fields, k, edits).value)
  {
    hide PatchField, Heads;
  }

  lemma PatchObject(l: Value, r: Value)
    requires l.Obj? && r.Obj? && ChildrenPatch(l, r)
    ensures Agree(PatchInside(l, Flat(Groups(l, r))), r)
  {
    hide Flat, Groups, PatchField, Heads, PatchInside, Agree, ChildrenPatch;
    var edits := Flat(Groups(l, r));
    InsideObject(l, edits, "");
    var p := PatchInside(l, edits).fields;
    forall k
      ensures k in p <==> k in r.fields
      ensures k in p ==> Agree(p[k], r.fields[k])
    {
      InsideObject(l, edits, k);
      PatchKey(l, r, k);
    }
    AgreeFields(p, r.fields);
  }

  lemma PatchIndex(l: Value, r: Value, i: nat)
    requires l.Arr? && r.Arr? && ChildrenPatch(l, r)
    ensures var patched := PatchItem(l.items, i, Flat(Groups(l, r)));
            (patched.Some? <==> i < |r.items|) && (i < |r.items| ==> Agree(patched.value, r.items[i]))
  {
    var groups := Groups(l, r);
    GroupsDistinct(l, r);
    BelowFlat(groups, Itoa(i));
    if i < Width(l, r) {
      GroupOfPresent(groups, i);
      PatchGroup(l, r, i);
    } else {
      forall j | 0 <= j < |groups|
        ensures groups[j].token != Itoa(i)
      {
        if Itoa(j) == Itoa(i) {
          ItoaInjective(i, j);
        }
      }
      GroupOfAbsent(groups, Itoa(i));
    }
  }

  lemma {:induction false} PatchIndices(l: Value, r: Value, n: nat)
    requires l.Arr? && r.Arr? && ChildrenPatch(l, r)
    ensures var p := PatchedItems(l.items, Flat(Groups(l, r)), n);
            |p| == (if n <= |r.items| then n else |r.items|) && forall i :: 0 <= i < |p| ==> Agree(p[i], r.items[i])
    decreases n
  {
    hide Flat, Groups, PatchItem, Agree, ChildrenPatch;
    if n > 0 {
      PatchIndices(l, r, n - 1);
      PatchIndex(l, r, n - 1);
    }
  }

  lemma {:induction false} FlatLongEnough(groups: seq<Group>, from: nat)
    requires forall i :: from <= i < |groups| ==> groups[i].edits != []
    ensures |Flat(groups)| >= |groups| - from
  {
    if groups != [] {
      FlatLongEnough(groups[..|groups| - 1], from);
    }
  }

  lemma AgreeItems(l: seq<Value>, r: seq<Value>)
    requires |l| == |r| && forall i :: 0 <= i < |l| ==> Agree(l[i], r[i])
    ensures Agree(Arr(l), Arr(r))
  {
  }

  /** An added item has an edit of its own. */
  lemma EditsCoverTail(l: Value, r: Value)
    requires l.Arr? && r.Arr?
    ensures |l.items| + |Flat(Groups(l, r))| >= |r.items|
  {
    var groups := Groups(l, r);
    forall i | |l.items| <= i < |groups|
      ensures groups[i].edits != []
    {
      GroupEdits(l, r, i);
    }
    FlatLongEnough(groups, |l.items|);
  }

  lemma InsideArray(l: Value, edits: seq<Edit>)
    requires l.Arr?
    ensures PatchInside(l, edits) == Arr(PatchedItems(l.items, edits, |l.items| + |edits|))
  {
    hide PatchedItems;
  }

  lemma PatchArray(l: Value, r: Value)
    requires l.Arr? && r.Arr? && ChildrenPatch(l, r)
    ensures Agree(PatchInside(l, Flat(Groups(l, r))), r)
  {
    hide Flat, Groups, PatchedItems, PatchInside, Agree, ChildrenPatch;
    var edits := Flat(Groups(l, r));
    EditsCoverTail(l, r);
    InsideArray(l, edits);
    PatchIndices(l, r, |l.items| + |edits|);
    AgreeItems(PatchedItems(l.items, edits, |l.items| + |edits|), r.items);
  }

  lemma {:induction false} FlatNotAtRoot(groups: seq<Group>)
    ensures forall i :: 0 <= i < |Flat(groups)| ==> Flat(groups)[i].path != []
  {
    if groups != [] {
      FlatNotAtRoot(groups[..|groups| - 1]);
    }
  }

  lemma AgreeRefl(v: Value)
    ensures Agree(v, v)
  {
  }

  /** Substituting the remote sides of the edits into the local payload gives the remote
      payload, up to the split between integers and floats. */
  lemma {:induction false} PatchCorrect(l: Value, r: Value)
    ensures PatchesTo(l, Edits(l, r), r)
    decreases l
  {
    hide Flat, Groups, PatchInside, Agree, FloatOf, Left, Right, Width;
    AgreeRefl(r);
    if Edits(l, r) == [] {
      PatchNothing(l);
      EditsEmptyIffAgree(l, r);
    } else if SameKind(l, r) {
      forall i | 0 <= i < Width(l, r) && Left(l, r, i).Some? && Right(l, r, i).Some?
        ensures PatchesTo(Left(l, r, i).value, Edits(Left(l, r, i).value, Right(l, r, i).value), Right(l, r, i).value)
      {
        PatchCorrect(Left(l, r, i).value, Right(l, r, i).value);
      }
      FlatNotAtRoot(Groups(l, r));
      if l.Obj? {
        PatchObject(l, r);
      } else {
        PatchArray(l, r);
      }
    }
  }

  // ----- where binary mismatches are reported -----

  /** The walk meets a binary mismatch at the root or below. */
  ghost predicate ClashAt(l: Value, r: Value)
    decreases l, 1
  {
    (l != r && (l.Bin? || r.Bin?)) || BinaryClashBelow(l, r)
  }

  /** Somewhere strictly below the root, the walk meets a binary mismatch. */
  ghost predicate BinaryClashBelow(l: Value, r: Value)
    decreases l, 0
  {
    l != r &&
    ((l.Obj? && r.Obj? && exists k :: k in l.fields && k in r.fields && ClashAt(l.fields[k], r.fields[k])) ||
     (l.Arr? && r.Arr? && exists i: nat :: i < |l.items| && i < |r.items| && ClashAt(l.items[i], r.items[i])))
  }

  ghost predicate HasClash(edits: seq<Edit>) {
    exists i :: 0 <= i < |edits| && BinaryClash(edits[i])
  }

  lemma HasClashConcat(a: seq<Edit>, k: string, b: seq<Edit>)
    ensures HasClash(a + Under(k, b)) <==> HasClash(a) || HasClash(b)
  {
    var all := a + Under(k, b);
    if HasClash(a) {
      var i :| 0 <= i < |a| && BinaryClash(a[i]);
      assert BinaryClash(all[i]);
    }
    if HasClash(b) {
      var i :| 0 <= i < |b| && BinaryClash(b[i]);
      assert BinaryClash(all[|a| + i]);
    }
    if HasClash(all) {
      var i :| 0 <= i < |all| && BinaryClash(all[i]);
      if i >= |a| {
        assert BinaryClash(b[i - |a|]);
      }
    }
  }

  lemma {:induction false} FlatClash(groups: seq<Group>)
    ensures HasClash(Flat(groups)) <==> exists i :: 0 <= i < |groups| && HasClash(groups[i].edits)
  {
    assert !HasClash([]);
    if groups != [] {
      var n := |groups| - 1;
      FlatClash(groups[..n]);
      HasClashConcat(Flat(groups[..n]), groups[n].token, groups[n].edits);
      assert forall i :: 0 <= i < n ==> groups[..n][i] == groups[i];
      hide HasClash, Under;
    }
  }

  ghost predicate ChildrenClash(l: Value, r: Value, i: nat)
    requires SameKind(l, r) && i < Width(l, r)
  {
    Left(l, r, i).Some? && Right(l, r, i).Some? && ClashAt(Left(l, r, i).value, Right(l, r, i).value)
  }

  lemma ClashByGroups(l: Value, r: Value)
    requires SameKind(l, r) && l != r
    ensures BinaryClashBelow(l, r) <==> exists i: nat :: i < Width(l, r) && ChildrenClash(l, r, i)
  {
    if l.Obj? {
      if BinaryClashBelow(l, r) {
        var k :| k in l.fields && k in r.fields && ClashAt(l.fields[k], r.fields[k]);
        var i := ChildrenOfKey(l, r, k);
        assert ChildrenClash(l, r, i);
      }
    } else if BinaryClashBelow(l, r) {
      var i: nat :| i < |l.items| && i < |r.items| && ClashAt(l.items[i], r.items[i]);
      assert ChildrenClash(l, r, i);
    }
  }

  lemma {:induction false} EditsClash(l: Value, r: Value)
    ensures HasClash(Edits(l, r)) <==> ClashAt(l, r)
    decreases l, 1
  {
    if l == r {
    } else if l.Bin? || r.Bin? {
      assert BinaryClash(Edits(l, r)[0]);
    } else if SameKind(l, r) {
      GroupsClash(l, r);
    }
  }

  lemma GroupsClash(l: Value, r: Value)
    requires SameKind(l, r) && l != r
    ensures HasClash(Flat(Groups(l, r))) <==> BinaryClashBelow(l, r)
    decreases l, 0
  {
    hide HasClash, Groups, Flat, Edits, ClashAt, BinaryClashBelow;
    var groups := Groups(l, r);
    forall i: nat | i < |groups|
      ensures HasClash(groups[i].edits) <==> ChildrenClash(l, r, i)
    {
      GroupEdits(l, r, i);
      if Left(l, r, i).Some? && Right(l, r, i).Some? {
        EditsClash(Left(l, r, i).value, Right(l, r, i).value);
      } else {
        OneSidedCalm(groups[i].edits);
      }
    }
    FlatClash(groups);
    ClashByGroups(l, r);
  }

  lemma OneSidedCalm(edits: seq<Edit>)
    requires forall e :: e in edits ==> !e.op.Replace?
    ensures !HasClash(edits)
  {
  }

  /** Reported pointers name the places of the edits exactly when no binary mismatch lies
      below the root. */
  lemma ReportsFaithfulIff(l: Value, r: Value)
    ensures (forall i :: 0 <= i < |Edits(l, r)| ==> Report([], Edits(l, r)[i]).path == JsonPointer.Print(Edits(l, r)[i].path))
            <==> !BinaryClashBelow(l, r)
  {
    var edits := Edits(l, r);
    EditsClash(l, r);
    assert forall i :: 0 <= i < |edits| ==> [] + edits[i].path == edits[i].path;
    if l != r && SameKind(l, r) {
      FlatNotAtRoot(Groups(l, r));
    }
    if BinaryClashBelow(l, r) {
      var i :| 0 <= i < |edits| && BinaryClash(edits[i]);
      assert JsonPointer.Print(edits[i].path) != "";
    }
  }

  /** Two objects that differ in a binary field: the mismatch is reported at the root. */
  lemma NestedBinaryMisreported()
    ensures var l, r := Obj(map["a" := Bin([1])]), Obj(map["a" := Bin([2])]);
            exists i :: 0 <= i < |Edits(l, r)| && Report([], Edits(l, r)[i]).path != JsonPointer.Print(Edits(l, r)[i].path)
  {
    var l, r := Obj(map["a" := Bin([1])]), Obj(map["a" := Bin([2])]);
    assert l.fields["a"] != r.fields["a"] by {
      assert [1][0] != [2][0];
    }
    assert ClashAt(l.fields["a"], r.fields["a"]);
    ReportsFaithfulIff(l, r);
  }

  // ----- the entries as they are reported -----

  /** The pointer of the entry parses to the place of the edit if and only if it was printed from
      it and its last token does not end in white space. */
  lemma EntryPlaceIff(l: Value, r: Value, i: nat)
    requires i < |Edits(l, r)|
    ensures var e := Edits(l, r)[i];
            JsonPointer.Parse(Reports([], Edits(l, r))[i].path) == Some(e.path) <==>
            e.path == [] || (!BinaryClash(e) && !EndsInSpace(e.path[|e.path| - 1]))
  {
    hide JsonPointer.Parse, JsonPointer.Print, Edits, EndsInSpace;
    var e := Edits(l, r)[i];
    assert [] + e.path == e.path;
    JsonPointer.ParseOfPrint(e.path);
    JsonPointer.ParseOfPrint([]);
    assert JsonPointer.Print([]) == "" by { PrintNothing(); }
  }

  lemma PrintNothing()
    ensures JsonPointer.Print([]) == ""
  {
  }

  /** Every edit has a place that its printed pointer parses to. */
  ghost predicate Printable(edits: seq<Edit>) {
    forall i :: 0 <= i < |edits| && edits[i].path != [] ==> !EndsInSpace(edits[i].path[|edits[i].path| - 1])
  }

  /** The reported pointers parse to the places of the edits if and only if no binary mismatch lies
      below the root and no edited key ends in white space. */
  lemma EntryPlacesIff(l: Value, r: Value)
    ensures (forall i :: 0 <= i < |Edits(l, r)| ==>
               JsonPointer.Parse(Reports([], Edits(l, r))[i].path) == Some(Edits(l, r)[i].path)) <==>
            !BinaryClashBelow(l, r) && Printable(Edits(l, r))
  {
    hide JsonPointer.Parse, JsonPointer.Print, EndsInSpace, BinaryClashBelow, BinaryClash;
    var edits := Edits(l, r);
    EditsClash(l, r);
    if l != r && SameKind(l, r) {
      FlatNotAtRoot(Groups(l, r));
    }
    RootEdits(l, r);
    hide Edits;
    forall i | 0 <= i < |edits|
      ensures JsonPointer.Parse(Reports([], edits)[i].path) == Some(edits[i].path) <==>
              edits[i].path == [] || (!BinaryClash(edits[i]) && !EndsInSpace(edits[i].path[|edits[i].path| - 1]))
    {
      EntryPlaceIff(l, r, i);
    }
  }

  /** A binary mismatch is an edit below the root exactly when it lies below the root. */
  lemma RootEdits(l: Value, r: Value)
    ensures BinaryClashBelow(l, r) <==>
              exists i :: 0 <= i < |Edits(l, r)| && BinaryClash(Edits(l, r)[i]) && Edits(l, r)[i].path != []
  {
    hide BinaryClash;
    EditsClash(l, r);
    if l != r && SameKind(l, r) {
      FlatNotAtRoot(Groups(l, r));
    }
  }

  /** The entry holds exactly what the payloads have at the pointer that it reports. */
  ghost predicate EntryLocated(e: DiffEntry, l: Value, r: Value) {
    JsonPointer.Parse(e.path).Some? &&
    var here, there := JsonPointer.Lookup(l, JsonPointer.Parse(e.path).value), JsonPointer.Lookup(r, JsonPointer.Parse(e.path).value);
    match e.op
    case Add => here.None? && there == Some(e.remote) && e.local.Null?
    case Remove => here == Some(e.local) && there.None? && e.remote.Null?
    case Replace => here == Some(e.local) && there == Some(e.remote)
  }

  /** Then the entries hold exactly what lies at the pointers that they report, and no pointer is
      at or above another. */
  lemma EntriesLocatedAndApart(l: Value, r: Value, i: nat, j: nat)
    requires Representable(l) && Representable(r) && !BinaryClashBelow(l, r) && Printable(Edits(l, r))
    requires i < |Edits(l, r)| && j < |Edits(l, r)|
    ensures var entries := Reports([], Edits(l, r));
            EntryLocated(entries[i], l, r) && EntryLocated(entries[j], l, r) &&
            (i != j ==> !(JsonPointer.Parse(entries[i].path).value <= JsonPointer.Parse(entries[j].path).value))
  {
    hide JsonPointer.Parse, JsonPointer.Print, JsonPointer.Lookup, Edits, BinaryClashBelow, Printable, Representable;
    EntryPlacesIff(l, r);
    EditsLocated(l, r);
    EditsApart(l, r);
    var edits := Edits(l, r);
    assert edits[i] in edits && edits[j] in edits;
  }
}

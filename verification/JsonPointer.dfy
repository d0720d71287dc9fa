/** JSON Pointers (resource/jsonpointer.go; RFC 6901): printing and parsing, and
    lookup, set and delete on payloads. */
module JsonPointer {
  import opened Payload
  import opened Text

  // ----- tokens: section 4 of RFC 6901 -----

  function EscapeToken(token: string): string {
    ReplaceAll(ReplaceAll(token, "~", "~0"), "/", "~1")
  }

  /** The same escape one character at a time. */
  function EscapeChar(c: char): string {
    if c == '~' then "~0" else if c == '/' then "~1" else [c]
  }

  function EscapeEach(token: string): string {
    if token == [] then [] else EscapeChar(token[0]) + EscapeEach(token[1..])
  }

  function UnescapeToken(token: string): Option<string> {
    if token == [] then Some([])
    else if token[0] != '~' then Prefixed([token[0]], UnescapeToken(token[1..]))
    else if |token| >= 2 && token[1] == '0' then Prefixed("~", UnescapeToken(token[2..]))
    else if |token| >= 2 && token[1] == '1' then Prefixed("/", UnescapeToken(token[2..]))
    else None
  }

  method UnescapeJSONPointerToken(token: string) returns (r: Option<string>)
    ensures r == UnescapeToken(token)
  {
    var builder := "";
    var idx := 0;
    assert token[0..] == token;
    PrefixedNothing(UnescapeToken(token));
    while idx < |token|
      invariant 0 <= idx <= |token|
      invariant UnescapeToken(token) == Prefixed(builder, UnescapeToken(token[idx..]))
    {
      ghost var rest := token[idx..];
      assert rest[1..] == token[idx + 1..];
      if token[idx] != '~' {
        PrefixedTwice(builder, [token[idx]], UnescapeToken(token[idx + 1..]));
        builder := builder + [token[idx]];
        idx := idx + 1;
        continue;
      }
      if idx + 1 >= |token| {
        return None;
      }
      assert rest[2..] == token[idx + 2..];
      PrefixedTwice(builder, "~", UnescapeToken(token[idx + 2..]));
      PrefixedTwice(builder, "/", UnescapeToken(token[idx + 2..]));
      if token[idx + 1] == '0' {
        builder := builder + "~";
      } else if token[idx + 1] == '1' {
        builder := builder + "/";
      } else {
        return None;
      }
      idx := idx + 2;
    }
    assert builder + [] == builder;
    return Some(builder);
  }

  lemma {:induction false} ReplaceAllAppends(a: char, s: string, pattern: char, sub: string)
    ensures ReplaceAll([a] + s, [pattern], sub) == (if a == pattern then sub else [a]) + ReplaceAll(s, [pattern], sub)
  {
    var t := [a] + s;
    assert t[1..] == s;
    assert t[0] == a && [pattern][0] == pattern;
    assert a == pattern ==> [pattern] <= t;
  }

  /** The two-pass escape is the per-character escape. */
  lemma {:induction false} EscapeIsPerCharacter(token: string)
    ensures EscapeToken(token) == EscapeEach(token)
  {
    if token != [] {
      var c, rest := token[0], token[1..];
      assert token == [c] + rest;
      EscapeIsPerCharacter(rest);
      ReplaceAllAppends(c, rest, '~', "~0");
      var once := ReplaceAll(rest, "~", "~0");
      if c == '~' {
        assert "~0" + once == ['~'] + (['0'] + once);
        ReplaceAllAppends('~', ['0'] + once, '/', "~1");
        ReplaceAllAppends('0', once, '/', "~1");
      } else {
        ReplaceAllAppends(c, once, '/', "~1");
      }
    }
  }

  lemma {:induction false} UnescapeOfEscape(token: string)
    ensures UnescapeToken(EscapeEach(token)) == Some(token)
    ensures '/' !in EscapeEach(token)
  {
    if token != [] {
      UnescapeOfEscape(token[1..]);
      var e := EscapeEach(token);
      assert e[|EscapeChar(token[0])|..] == EscapeEach(token[1..]);
      assert token == [token[0]] + token[1..];
    }
  }

  lemma {:induction false} EscapeOfUnescape(raw: string)
    requires UnescapeToken(raw).Some? && '/' !in raw
    ensures EscapeEach(UnescapeToken(raw).value) == raw
  {
    if raw != [] {
      var n := if raw[0] == '~' then 2 else 1;
      EscapeOfUnescape(raw[n..]);
      var t := UnescapeToken(raw).value;
      assert t[1..] == UnescapeToken(raw[n..]).value;
      assert raw == raw[..n] + raw[n..];
    }
  }

  /** The unescape of resolveOpenAPIRef, which replaces "~1" first and "~0" second. */
  function UnescapeTwoPass(raw: string): string {
    ReplaceAll(ReplaceAll(raw, "~1", "/"), "~0", "~")
  }

  lemma {:induction false} ReplacePairSkips(a: char, s: string, d: char, sub: string)
    requires a != '~' || (s != [] && s[0] != d)
    ensures ReplaceAll([a] + s, ['~', d], sub) == [a] + ReplaceAll(s, ['~', d], sub)
  {
    var t, pair := [a] + s, ['~', d];
    assert t[1..] == s;
    assert t[0] == a && pair[0] == '~' && pair[1] == d;
    assert s != [] ==> t[1] == s[0];
  }

  lemma {:induction false} ReplacePairHits(s: string, d: char, sub: string)
    ensures ReplaceAll(['~', d] + s, ['~', d], sub) == sub + ReplaceAll(s, ['~', d], sub)
  {
    assert (['~', d] + s)[2..] == s;
  }

  /** Both unescapes agree on every token that the strict one accepts. */
  lemma {:induction false} UnescapesAgree(raw: string)
    requires UnescapeToken(raw).Some?
    ensures UnescapeTwoPass(raw) == UnescapeToken(raw).value
  {
    if raw == [] {
    } else if raw[0] != '~' {
      var rest := raw[1..];
      assert raw == [raw[0]] + rest;
      UnescapesAgree(rest);
      ReplacePairSkips(raw[0], rest, '1', "/");
      ReplacePairSkips(raw[0], ReplaceAll(rest, "~1", "/"), '0', "~");
    } else {
      var rest := raw[2..];
      assert raw == [raw[0], raw[1]] + rest;
      UnescapesAgree(rest);
      var once := ReplaceAll(rest, "~1", "/");
      if raw[1] == '1' {
        ReplacePairHits(rest, '1', "/");
        ReplacePairSkips('/', once, '0', "~");
      } else {
        assert raw == ['~'] + (['0'] + rest);
        ReplacePairSkips('~', ['0'] + rest, '1', "/");
        ReplacePairSkips('0', rest, '1', "/");
        assert ['~'] + (['0'] + once) == ['~', '0'] + once;
        ReplacePairHits(once, '0', "~");
      }
    }
  }

  // ----- whole pointers: section 3 of RFC 6901 -----

  function Print(tokens: seq<string>): string {
    if tokens == [] then [] else "/" + EscapeToken(tokens[0]) + Print(tokens[1..])
  }

  function UnescapeAll(raw: seq<string>): (r: Option<seq<string>>)
    ensures r.Some? ==> |r.value| == |raw|
  {
    if raw == [] then Some([])
    else
      var first :- UnescapeToken(raw[0]);
      var rest :- UnescapeAll(raw[1..]);
      Some([first] + rest)
  }

  function Parse(pointer: string): Option<seq<string>> {
    var trimmed := TrimSpace(pointer);
    if trimmed == [] then Some([])
    else if trimmed[0] != '/' then None
    else UnescapeAll(Split(trimmed[1..], '/'))
  }

  function EscapeAll(tokens: seq<string>): seq<string> {
    seq(|tokens|, i requires 0 <= i < |tokens| => EscapeToken(tokens[i]))
  }

  lemma {:induction false} PrintIsJoin(tokens: seq<string>)
    requires tokens != []
    ensures Print(tokens) == "/" + Join(EscapeAll(tokens), '/')
  {
    hide EscapeToken;
    var es := EscapeAll(tokens);
    if |tokens| == 1 {
      assert tokens[1..] == [];
    } else {
      PrintIsJoin(tokens[1..]);
      assert es[1..] == EscapeAll(tokens[1..]);
    }
  }

  lemma {:induction false} UnescapeAllOfEscapeAll(tokens: seq<string>)
    ensures UnescapeAll(EscapeAll(tokens)) == Some(tokens)
    ensures forall e :: e in EscapeAll(tokens) ==> '/' !in e
  {
    if tokens != [] {
      var es := EscapeAll(tokens);
      UnescapeAllOfEscapeAll(tokens[1..]);
      assert es[1..] == EscapeAll(tokens[1..]);
      EscapeIsPerCharacter(tokens[0]);
      UnescapeOfEscape(tokens[0]);
      assert es == [es[0]] + es[1..];
      assert tokens == [tokens[0]] + tokens[1..];
    }
  }

  lemma {:induction false} EscapeAllOfUnescapeAll(raw: seq<string>)
    requires UnescapeAll(raw).Some? && forall r :: r in raw ==> '/' !in r
    ensures EscapeAll(UnescapeAll(raw).value) == raw
  {
    if raw != [] {
      var ts := UnescapeAll(raw).value;
      EscapeAllOfUnescapeAll(raw[1..]);
      EscapeOfUnescape(raw[0]);
      EscapeIsPerCharacter(ts[0]);
      assert ts[1..] == UnescapeAll(raw[1..]).value;
      assert EscapeAll(ts)[1..] == EscapeAll(ts[1..]);
      assert EscapeAll(ts) == [EscapeAll(ts)[0]] + EscapeAll(ts)[1..];
    }
  }

  /** Printing a parsed pointer gives the pointer back, trimmed. */
  lemma PrintOfParse(pointer: string)
    requires Parse(pointer).Some?
    ensures Print(Parse(pointer).value) == TrimSpace(pointer)
  {
    var trimmed := TrimSpace(pointer);
    if trimmed != [] {
      var raw := Split(trimmed[1..], '/');
      EscapeAllOfUnescapeAll(raw);
      PrintIsJoin(UnescapeAll(raw).value);
      JoinOfSplit(trimmed[1..], '/');
    }
  }

  lemma ParseOfPrintIfTrimmed(tokens: seq<string>)
    requires Trimmed(Print(tokens))
    ensures Parse(Print(tokens)) == Some(tokens)
  {
    if tokens != [] {
      var p, joined := Print(tokens), Join(EscapeAll(tokens), '/');
      assert p == "/" + joined && p[1..] == joined by {
        PrintIsJoin(tokens);
      }
      assert TrimSpace(p) == p by {
        TrimSpaceFixed(p);
      }
      assert Split(joined, '/') == EscapeAll(tokens) by {
        UnescapeAllOfEscapeAll(tokens);
        SplitOfJoin(EscapeAll(tokens), '/');
      }
      UnescapeAllOfEscapeAll(tokens);
    }
  }

  lemma {:induction false} EscapeKeepsEnd(token: string)
    ensures EscapeEach(token) == [] <==> token == []
    ensures EndsInSpace(EscapeEach(token)) <==> EndsInSpace(token)
  {
    if token != [] {
      EscapeKeepsEnd(token[1..]);
    }
  }

  lemma {:induction false} PrintEnd(tokens: seq<string>)
    requires tokens != []
    ensures Print(tokens) != [] && Print(tokens)[0] == '/'
    ensures EndsInSpace(Print(tokens)) <==> EndsInSpace(tokens[|tokens| - 1])
  {
    EscapeIsPerCharacter(tokens[0]);
    EscapeKeepsEnd(tokens[0]);
    if |tokens| > 1 {
      PrintEnd(tokens[1..]);
    }
  }

  lemma ParseOfPrintNonEmpty(tokens: seq<string>)
    requires tokens != []
    ensures Parse(Print(tokens)) == Some(tokens) <==> !EndsInSpace(tokens[|tokens| - 1])
  {
    PrintEnd(tokens);
    hide Parse, Print, TrimSpace, IsSpace;
    if EndsInSpace(tokens[|tokens| - 1]) {
      if Parse(Print(tokens)).Some? {
        PrintOfParse(Print(tokens));
        TrimSpaceFixedIff(Print(tokens));
      }
    } else {
      ParseOfPrintIfTrimmed(tokens);
    }
  }

  /** Parsing undoes printing exactly when the last token does not end in white space. */
  lemma ParseOfPrint(tokens: seq<string>)
    ensures Parse(Print(tokens)) == Some(tokens) <==> (tokens == [] || !EndsInSpace(tokens[|tokens| - 1]))
  {
    if tokens != [] {
      ParseOfPrintNonEmpty(tokens);
      hide Parse, Print;
    }
  }

  // ----- lookup, set and delete -----

  function ParseIndex(token: string): (r: Option<nat>)
    ensures r.Some? ==> r.value <= MAX_INT
  {
    if AllDigits(token) && DigitsValue(token) <= MAX_INT then Some(DigitsValue(token)) else None
  }

  /** The child of v that a token names. */
  function Child(v: Value, token: string): (r: Option<Value>)
    ensures r.Some? ==> r.value < v
  {
    match v
    case Obj(fields) => if token in fields then Some(fields[token]) else None
    case Arr(items) =>
      var index := ParseIndex(token);
      if index.Some? && index.value < |items| then Some(items[index.value]) else None
    case _ => None
  }

  function Lookup(v: Value, tokens: seq<string>): Option<Value> {
    if tokens == [] then Some(v)
    else match Child(v, tokens[0])
      case Some(child) => Lookup(child, tokens[1..])
      case None => None
  }

  method LookupTokens(v: Value, tokens: seq<string>) returns (r: Option<Value>)
    ensures r == Lookup(v, tokens)
  {
    var current := v;
    for i := 0 to |tokens|
      invariant Lookup(v, tokens) == Lookup(current, tokens[i..])
    {
      assert tokens[i..][1..] == tokens[i + 1..];
      match Child(current, tokens[i]) {
        case Some(child) => current := child;
        case None => return None;
      }
    }
    return Some(current);
  }

  function Nulls(n: nat): (r: seq<Value>)
    ensures |r| == n && forall i :: 0 <= i < n ==> r[i] == Null
  {
    seq(n, _ => Null)
  }

  /** The array grown with nulls so that index exists. */
  function Grown(items: seq<Value>, index: nat): (r: seq<Value>)
    ensures index < |r| && items <= r
    ensures forall i :: |items| <= i < |r| ==> r[i] == Null
  {
    if index < |items| then items else items + Nulls(index + 1 - |items|)
  }

  function Set(root: Value, tokens: seq<string>, value: Value): Option<Value>
    decreases tokens
  {
    if tokens == [] then Some(value)
    else
      var index := ParseIndex(tokens[0]);
      if index.Some? then
        if !root.Null? && !root.Arr? then None
        else
          var items := Grown(if root.Arr? then root.items else [], index.value);
          var next :- Set(items[index.value], tokens[1..], value);
          Some(Arr(items[index.value := next]))
      else if !root.Null? && !root.Obj? then None
      else
        var fields := if root.Obj? then root.fields else map[];
        var next :- Set(if tokens[0] in fields then fields[tokens[0]] else Null, tokens[1..], value);
        Some(Obj(fields[tokens[0] := next]))
  }

  function Delete(root: Value, tokens: seq<string>): Value
    decreases tokens
  {
    if tokens == [] then Null
    else
      var index := ParseIndex(tokens[0]);
      if index.Some? then
        if !root.Arr? || index.value >= |root.items| then root
        else if |tokens| == 1 then Arr(root.items[..index.value] + root.items[index.value + 1..])
        else Arr(root.items[index.value := Delete(root.items[index.value], tokens[1..])])
      else if !root.Obj? then root
      else if |tokens| == 1 then Obj(root.fields - {tokens[0]})
      else if tokens[0] !in root.fields then root
      else
        var next := Delete(root.fields[tokens[0]], tokens[1..]);
        if next.Null? then Obj(root.fields - {tokens[0]}) else Obj(root.fields[tokens[0] := next])
  }

  /** A successful Set is seen by Lookup. */
  lemma {:induction false} LookupAfterSet(root: Value, tokens: seq<string>, value: Value)
    requires Set(root, tokens, value).Some?
    ensures Lookup(Set(root, tokens, value).value, tokens) == Some(value)
    decreases tokens
  {
    if tokens != [] {
      var index := ParseIndex(tokens[0]);
      if index.Some? {
        var items := Grown(if root.Arr? then root.items else [], index.value);
        LookupAfterSet(items[index.value], tokens[1..], value);
      } else {
        var fields := if root.Obj? then root.fields else map[];
        LookupAfterSet(if tokens[0] in fields then fields[tokens[0]] else Null, tokens[1..], value);
      }
    }
  }

  /** Two tokens name the same child: equal, or spellings of the same array index. */
  predicate SameStep(a: string, b: string) {
    a == b || (ParseIndex(a).Some? && ParseIndex(a) == ParseIndex(b))
  }

  /** p and q part ways: at some step they name different children. */
  ghost predicate Diverge(p: seq<string>, q: seq<string>) {
    p != [] && q != [] && (SameStep(p[0], q[0]) ==> Diverge(p[1..], q[1..]))
  }

  /** A successful Set leaves every other pointer that resolved where it was. */
  lemma {:induction false} SetKeepsOthers(root: Value, tokens: seq<string>, value: Value, q: seq<string>)
    requires Set(root, tokens, value).Some? && Diverge(tokens, q)
    requires Lookup(root, q).Some?
    ensures Lookup(Set(root, tokens, value).value, q) == Lookup(root, q)
    decreases tokens
  {
    if SameStep(tokens[0], q[0]) {
      var index := ParseIndex(tokens[0]);
      if index.Some? {
        SetKeepsOthers(root.items[index.value], tokens[1..], value, q[1..]);
      } else {
        SetKeepsOthers(root.fields[tokens[0]], tokens[1..], value, q[1..]);
      }
    }
  }

  /** Set fails exactly when the walk meets a container of the wrong kind. */
  ghost predicate Blocked(root: Value, tokens: seq<string>)
    decreases tokens
  {
    tokens != [] && !root.Null? &&
    ((if ParseIndex(tokens[0]).Some? then !root.Arr? else !root.Obj?) ||
     (Child(root, tokens[0]).Some? && Blocked(Child(root, tokens[0]).value, tokens[1..])))
  }

  lemma {:induction false} NullUnblocked(tokens: seq<string>)
    ensures !Blocked(Null, tokens)
  {
  }

  lemma {:induction false} SetFailsIffBlocked(root: Value, tokens: seq<string>, value: Value)
    ensures Set(root, tokens, value).None? <==> Blocked(root, tokens)
    decreases tokens
  {
    if tokens != [] {
      var index := ParseIndex(tokens[0]);
      NullUnblocked(tokens[1..]);
      if index.Some? {
        var items := Grown(if root.Arr? then root.items else [], index.value);
        SetFailsIffBlocked(items[index.value], tokens[1..], value);
      } else {
        var fields := if root.Obj? then root.fields else map[];
        SetFailsIffBlocked(if tokens[0] in fields then fields[tokens[0]] else Null, tokens[1..], value);
      }
    }
  }
}

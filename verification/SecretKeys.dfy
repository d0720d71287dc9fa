/** The texts that are placeholders, and the keys of the store that they read. */
module SecretKeys {
  import opened Payload
  import opened Text
  import opened Secrets
  import JsonPointer

  // ----- the texts that are placeholders -----

  /** s is "{{secret" + rest + "}}", with blanks around it and before the word. */
  ghost predicate Braces(s: string, front: string, gap: string, rest: string, back: string) {
    Blank(front) && Blank(gap) && Blank(back) && s == front + ("{{" + (gap + ("secret" + rest)) + "}}") + back
  }

  /** The word ends there: nothing but blanks follows, or an ASCII blank and then the argument. */
  predicate WordEnds(rest: string) {
    TrimSpace(rest) == "" || IsAsciiSpace(rest[0])
  }

  /** The ASCII blanks are the blanks below 128. */
  lemma AsciiSpaces(c: char)
    ensures IsAsciiSpace(c) <==> IsSpace(c) && (c as int) < 128
  {
  }

  lemma {:induction false} TrimLeftBlank(front: string, s: string)
    requires Blank(front) && (s != "" ==> !IsSpace(s[0]))
    ensures TrimLeft(front + s, IsSpace) == s
  {
    hide IsSpace;
    if front == "" {
      assert front + s == s;
    } else {
      assert IsSpace(front[0]);
      assert (front + s)[1..] == front[1..] + s;
      TrimLeftBlank(front[1..], s);
    }
  }

  lemma {:induction false} TrimRightBlank(s: string, back: string)
    requires Blank(back) && (s != "" ==> !IsSpace(s[|s| - 1]))
    ensures TrimRight(s + back, IsSpace) == s
  {
    hide IsSpace;
    var t := s + back;
    if back == "" {
      assert t == s;
    } else {
      assert IsSpace(back[|back| - 1]);
      assert t[..|t| - 1] == s + back[..|back| - 1];
      TrimRightBlank(s, back[..|back| - 1]);
    }
  }

  lemma TrimAround(front: string, s: string, back: string)
    requires Blank(front) && Blank(back) && s != "" && Trimmed(s)
    ensures TrimSpace(front + s + back) == s
  {
    hide IsSpace, TrimLeft, TrimRight;
    assert front + s + back == front + (s + back);
    TrimLeftBlank(front, s + back);
    TrimRightBlank(s, back);
  }

  /** What stands between the braces, trimmed: the word and the rest without trailing blanks. */
  lemma InnerText(gap: string, word: string, rest: string)
    requires Blank(gap) && word != "" && !IsSpace(word[0]) && !IsSpace(word[|word| - 1])
    ensures var t := TrimRight(rest, IsSpace);
            TrimSpace(gap + (word + rest)) == word + t && t <= rest && TrimSpace(t) == TrimSpace(rest) &&
            (t == "" <==> TrimSpace(rest) == "")
  {
    hide IsSpace, TrimLeft, TrimRight, TrimSpace;
    var t := TrimRight(rest, IsSpace);
    var back := TrimRightCuts(rest);
    assert gap + (word + rest) == gap + (word + t) + back;
    TrimAround(gap, word + t, back);
    TrimRightPrefix(rest, IsSpace);
    TrimOfTrimRight(rest);
    BlankIff(t);
    if t != "" {
      assert t[|t| - 1] in t && !IsSpace(t[|t| - 1]);
    }
  }

  lemma TrimOfTrimRight(s: string)
    ensures TrimSpace(TrimRight(s, IsSpace)) == TrimSpace(s)
  {
    hide IsSpace, TrimLeft, TrimSpace;
    var t := TrimRight(s, IsSpace);
    var back := TrimRightCuts(s);
    var front, end := TrimSpaceCuts(t);
    BlankIff(s);
    BlankIff(t);
    if TrimSpace(t) != "" {
      assert s == front + TrimSpace(t) + (end + back);
      TrimAround(front, TrimSpace(t), end + back);
    }
  }

  lemma PlaceholderText(rules: Rules, s: string, front: string, gap: string, rest: string, back: string)
    requires Braces(s, front, gap, rest, back)
    ensures ParsePlaceholder(rules, s) == if WordEnds(rest) then ParseArgument(rules, TrimSpace(rest)) else Plain
  {
    hide IsSpace, TrimSpace, ParseArgument, IsAsciiSpace;
    var word := "secret";
    var inner := gap + (word + rest);
    Braced(inner);
    BracesSolid(inner);
    TrimAround(front, "{{" + inner + "}}", back);
    WordSolid();
    InnerText(gap, word, rest);
    var t := TrimRight(rest, IsSpace);
    assert (word + t)[..6] == word && (word + t)[6..] == t;
  }

  lemma BracesSolid(inner: string)
    ensures "{{" + inner + "}}" != "" && Trimmed("{{" + inner + "}}")
  {
    Braced(inner);
  }

  lemma WordSolid()
    ensures var word := "secret"; |word| == 6 && !IsSpace(word[0]) && !IsSpace(word[5])
  {
  }

  lemma PlaceholderBraces(rules: Rules, s: string) returns (front: string, gap: string, rest: string, back: string)
    requires !ParsePlaceholder(rules, s).Plain?
    ensures Braces(s, front, gap, rest, back) && WordEnds(rest)
  {
    hide IsSpace, TrimSpace, IsAsciiSpace;
    front, back := TrimSpaceCuts(s);
    var trimmed := TrimSpace(s);
    var between := trimmed[2..|trimmed| - 2];
    assert trimmed == "{{" + between + "}}";
    var end: string;
    gap, end := TrimSpaceCuts(between);
    var inner := TrimSpace(between);
    rest := inner[6..] + end;
    assert inner == "secret" + inner[6..];
    assert between == gap + ("secret" + rest);
    BlankIff(rest);
    if |inner| == 6 {
      assert rest == end;
    }
  }

  /** A string is a placeholder exactly when it is the word in double braces. */
  lemma PlaceholderIff(rules: Rules, s: string)
    ensures !ParsePlaceholder(rules, s).Plain? <==>
              exists front, gap, rest, back :: Braces(s, front, gap, rest, back) && WordEnds(rest)
  {
    hide Braces, ParsePlaceholder, WordEnds;
    if !ParsePlaceholder(rules, s).Plain? {
      var front, gap, rest, back := PlaceholderBraces(rules, s);
    }
    if exists front, gap, rest, back :: Braces(s, front, gap, rest, back) && WordEnds(rest) {
      var front, gap, rest, back :| Braces(s, front, gap, rest, back) && WordEnds(rest);
      PlaceholderText(rules, s, front, gap, rest, back);
      ArgumentsAreNotPlain(rules, TrimSpace(rest));
    }
  }

  lemma ArgumentsAreNotPlain(rules: Rules, argument: string)
    ensures !ParseArgument(rules, argument).Plain?
  {
  }

  /** An argument without quotes is a key if it is one word, and is refused otherwise. */
  lemma WordArgument(rules: Rules, word: string)
    requires word != "" && Trimmed(word) && word[0] != '\"' && word != "."
    ensures ParsePlaceholder(rules, "{{" + ("secret " + word) + "}}") ==
            if ' ' in word || '\t' in word || '\r' in word || '\n' in word then Malformed else Explicit(word)
  {
    hide ParsePlaceholder;
    ParseInner(rules, word);
  }

  // ----- normal forms -----

  /** A placeholder of the place itself, however it is spaced, is normalized to "{{secret .}}". */
  lemma CurrentNormalizes(rules: Rules, path: string, s: string, front: string, gap: string, rest: string, back: string)
    requires Braces(s, front, gap, rest, back) && WordEnds(rest) && TrimSpace(rest) == "." && WellFormed(path)
    ensures NormalizeText(rules)(path, s) == if path == "" then None else Some("{{secret .}}")
  {
    hide ParsePlaceholder, TrimSpace, Braces, WordEnds;
    PlaceholderText(rules, s, front, gap, rest, back);
    assert ParsePlaceholder(rules, s) == Current;
    WellFormedTrimmed(path);
    assert Attribute(Current, path) == if path == "" then None else Some(path);
  }

  /** A placeholder with a word, however it is spaced, is normalized to the quoted word. */
  lemma WordNormalizes(rules: Rules, path: string, s: string, front: string, gap: string, rest: string, back: string)
    requires Braces(s, front, gap, rest, back) && WordEnds(rest) && WellFormed(path)
    requires var word := TrimSpace(rest);
             word != "" && word != "." && word[0] != '\"' && ' ' !in word && '\t' !in word && '\r' !in word && '\n' !in word
    ensures var word := TrimSpace(rest);
            NormalizeText(rules)(path, s) == if word[0] == '/' then None else Some("{{secret " + rules.quote(word) + "}}")
  {
    hide ParsePlaceholder, TrimSpace, Braces, WordEnds;
    PlaceholderText(rules, s, front, gap, rest, back);
    var word := TrimSpace(rest);
    TrimSpaceTrimmed(rest);
    TrimSpaceFixed(word);
    assert ParsePlaceholder(rules, s) == Explicit(word);
    assert Attribute(Explicit(word), path) == if word[0] == '/' then None else Some(word);
  }

  /** What is no placeholder stays as it is. */
  lemma PlainStays(rules: Rules, resource: string, store: map<string, string>, path: string, s: string)
    requires forall front, gap, rest, back :: Braces(s, front, gap, rest, back) ==> !WordEnds(rest)
    ensures NormalizeText(rules)(path, s) == Some(s) && ResolveText(rules, resource, store)(path, s) == Some(s)
  {
    hide ParsePlaceholder, Braces, WordEnds, Attribute, StoreKey;
    PlaceholderIff(rules, s);
  }

  // ----- the keys of the store -----

  ghost function Lookup(store: map<string, string>, key: string): Option<string> {
    if key in store then Some(store[key]) else None
  }

  /** The placeholder of the place itself reads the key of resource and attribute path. */
  lemma CurrentReads(rules: Rules, resource: string, store: map<string, string>, path: string)
    requires TrimSpace(resource) != "" && WellFormed(path)
    ensures ResolveText(rules, resource, store)(path, CURRENT_SCOPE) ==
            if path == "" then None else Lookup(store, TrimSpace(resource) + ":" + path)
  {
    hide ParsePlaceholder, TrimSpace;
    ParseCurrentScope(rules);
    WellFormedTrimmed(path);
  }

  /** A placeholder with a word reads the key of resource and word, wherever it stands; a word that
      starts with a slash is refused. */
  lemma WordReads(rules: Rules, resource: string, store: map<string, string>, path: string, word: string)
    requires TrimSpace(resource) != "" && word != "" && Trimmed(word) && word[0] != '\"' && word != "."
    requires ' ' !in word && '\t' !in word && '\r' !in word && '\n' !in word
    ensures ResolveText(rules, resource, store)(path, "{{" + ("secret " + word) + "}}") ==
            if word[0] == '/' then None else Lookup(store, TrimSpace(resource) + ":" + word)
  {
    hide ParsePlaceholder, TrimSpace;
    WordArgument(rules, word);
    TrimSpaceFixed(word);
  }

  /** A field that is its own placeholder resolves to the secret under the key
      resource + ":/" + name, and fails if there is none. */
  lemma FieldReads(rules: Rules, resource: string, store: map<string, string>, k: string)
    requires TrimSpace(resource) != "" && k != "" && Trimmed(k)
    ensures Resolve(rules, Obj(map[k := Str(CURRENT_SCOPE)]), resource, store) ==
            match Lookup(store, TrimSpace(resource) + ":/" + JsonPointer.EscapeToken(k))
            case Some(secret) => Some(Obj(map[k := Str(secret)]))
            case None => None
  {
    hide ParsePlaceholder, TrimSpace, JsonPointer.EscapeToken, ResolveText;
    var v := Obj(map[k := Str(CURRENT_SCOPE)]);
    var f := ResolveText(rules, resource, store);
    TrimSpaceFixed(k);
    JoinWellFormed("", k);
    var path := JoinPath("", k);
    var key := TrimSpace(resource) + ":/" + JsonPointer.EscapeToken(k);
    assert TrimSpace(resource) + ":" + path == key;
    CurrentReads(rules, resource, store, path);
    var got := Walk(Str(CURRENT_SCOPE), path, 1, f);
    assert got == match Lookup(store, key) case Some(secret) => Some(Str(secret)) case None => None;
    if key in store {
      WalkOfFields(v.fields, map[k := Str(store[key])], "", 0, f);
    }
  }

  /** The keys of the two resources can be the same: a path is blank, or one path is the other or goes on
      with a colon after it. */
  predicate ScopesMeet(r: string, q: string) {
    var s, t := TrimSpace(r), TrimSpace(q);
    s == "" || t == "" || s + ":" <= t + ":" || t + ":" <= s + ":"
  }

  lemma LongerKey(s: string, a: string, t: string, b: string)
    requires s + ":" + a == t + ":" + b && |s| <= |t|
    ensures s + ":" <= t + ":"
  {
    var x := s + ":" + a;
    assert x[..|s| + 1] == s + ":" && x[..|t| + 1] == t + ":";
    assert x[..|t| + 1][..|s| + 1] == x[..|s| + 1];
  }

  lemma KeyAfter(s: string, t: string, b: string)
    requires s + ":" <= t + ":"
    ensures exists a :: s + ":" + a == t + ":" + b
  {
    var a := (t + ":")[|s| + 1..] + b;
    assert s + ":" + a == t + ":" + b;
  }

  /** Two resources have a key in common exactly when their scopes meet. */
  lemma KeysMeetIff(r: string, q: string)
    ensures (exists a, b :: StoreKey(r, a) == StoreKey(q, b)) <==> ScopesMeet(r, q)
  {
    hide TrimSpace;
    var s, t := TrimSpace(r), TrimSpace(q);
    if a, b :| StoreKey(r, a) == StoreKey(q, b) {
      if s != "" && t != "" {
        if |s| <= |t| {
          LongerKey(s, a, t, b);
        } else {
          LongerKey(t, b, s, a);
        }
      }
    }
    if ScopesMeet(r, q) {
      if s == "" {
        assert StoreKey(r, StoreKey(q, "")) == StoreKey(q, "");
      } else if t == "" {
        assert StoreKey(r, "") == StoreKey(q, StoreKey(r, ""));
      } else if s + ":" <= t + ":" {
        KeyAfter(s, t, "");
        var a :| s + ":" + a == t + ":" + "";
        assert StoreKey(r, a) == StoreKey(q, "");
      } else {
        KeyAfter(t, s, "");
        var b :| t + ":" + b == s + ":" + "";
        assert StoreKey(r, "") == StoreKey(q, b);
      }
    }
  }

  lemma ColonFree(r: string, q: string)
    requires TrimSpace(r) != "" && TrimSpace(q) != "" && TrimSpace(r) != TrimSpace(q) && ':' !in r && ':' !in q
    ensures !ScopesMeet(r, q)
  {
    hide TrimSpace;
    TrimmedInside(r);
    TrimmedInside(q);
    if ScopesMeet(r, q) {
      var s, t := TrimSpace(r), TrimSpace(q);
      if s + ":" <= t + ":" {
        OnlyColon(s, t);
      } else {
        OnlyColon(t, s);
      }
    }
  }

  lemma OnlyColon(s: string, t: string)
    requires s + ":" <= t + ":" && ':' !in t
    ensures s == t
  {
    var x := t + ":";
    assert x[|s|] == ':';
    assert forall i :: 0 <= i < |t| ==> x[i] == t[i];
    assert |s| == |t|;
    assert x[..|s|] == s;
  }

  lemma TrimmedInside(s: string)
    ensures forall c :: c in TrimSpace(s) ==> c in s
  {
    hide TrimSpace;
    var front, back := TrimSpaceCuts(s);
  }

  lemma {:induction false} WalkPointwise(v: Value, path: string, depth: nat, f: Rewrite, g: Rewrite)
    requires forall p, s :: f(p, s) == g(p, s)
    ensures Walk(v, path, depth, f) == Walk(v, path, depth, g)
    decreases v
  {
    hide JoinPath, Itoa;
    match v
    case Obj(fields) =>
      forall k | k in fields
        ensures Walk(fields[k], JoinPath(path, k), depth + 1, f) == Walk(fields[k], JoinPath(path, k), depth + 1, g)
      {
        WalkPointwise(fields[k], JoinPath(path, k), depth + 1, f, g);
      }
      if Walk(v, path, depth, f).Some? {
        WalkFieldsSameIff(fields, path, depth, f, g);
      }
    case Arr(items) =>
      forall i | 0 <= i < |items|
        ensures Walk(items[i], JoinPath(path, Itoa(i)), depth + 1, f) == Walk(items[i], JoinPath(path, Itoa(i)), depth + 1, g)
      {
        WalkPointwise(items[i], JoinPath(path, Itoa(i)), depth + 1, f, g);
      }
      if Walk(v, path, depth, f).Some? {
        WalkItemsSameIff(items, path, depth, f, g);
      }
    case _ =>
  }

  /** What is stored for one resource does not change what the payloads of another resolve to, if their
      scopes do not meet; those of different paths that are not blank and have no colon do not. */
  lemma ResourcesApart(rules: Rules, resource: string, values: map<string, string>, before: map<string, string>,
                       after: map<string, string>, other: string, v: Value)
    requires StoredOver(resource, values, before, after) && !ScopesMeet(resource, other)
    ensures Resolve(rules, v, other, after) == Resolve(rules, v, other, before)
  {
    hide ScopesMeet, StoreKey, ParsePlaceholder, Attribute, Walk;
    KeysMeetIff(resource, other);
    forall path, s
      ensures ResolveText(rules, other, after)(path, s) == ResolveText(rules, other, before)(path, s)
    {
      var p := ParsePlaceholder(rules, s);
      if !p.Plain? && Attribute(p, path).Some? {
        var key := StoreKey(other, Attribute(p, path).value);
        assert forall k :: k in values ==> StoreKey(resource, k) != key;
        assert (key in after <==> key in before) && (key in after ==> after[key] == before[key]);
      }
    }
    WalkPointwise(v, "", 0, ResolveText(rules, other, after), ResolveText(rules, other, before));
  }

  /** Masking a payload of one resource does not change what any payload of another resource resolves to. */
  lemma MaskingIsLocal(rules: Rules, masked: Value, resource: string, before: map<string, string>, after: map<string, string>,
                       other: string, v: Value)
    requires Mask(rules, masked).Some? && StoredOver(resource, Mask(rules, masked).value.1, before, after)
    requires TrimSpace(resource) != "" && TrimSpace(other) != "" && TrimSpace(resource) != TrimSpace(other)
    requires ':' !in resource && ':' !in other
    ensures Resolve(rules, v, other, after) == Resolve(rules, v, other, before)
  {
    hide TrimSpace, ScopesMeet, Mask, StoredOver, Resolve;
    ColonFree(resource, other);
    ResourcesApart(rules, resource, Mask(rules, masked).value.1, before, after, other, v);
  }

  /** Without a resource path the keys are not scoped: such a payload can read the secret of a
      resource, here the one that the field of that name reads in a payload of the resource. */
  lemma UnscopedReads(rules: Rules, resource: string, store: map<string, string>, k: string, name: string)
    requires k != "" && Trimmed(k) && name != "" && Trimmed(name)
    requires TrimSpace(resource) + ":" == "/" + JsonPointer.EscapeToken(k)
    ensures Resolve(rules, Obj(map[k := Obj(map[name := Str(CURRENT_SCOPE)])]), "", store) ==
            match Lookup(store, TrimSpace(resource) + ":/" + JsonPointer.EscapeToken(name))
            case Some(secret) => Some(Obj(map[k := Obj(map[name := Str(secret)])]))
            case None => None
  {
    hide ParsePlaceholder, TrimSpace, JsonPointer.EscapeToken, ResolveText, JoinPath;
    var inner := map[name := Str(CURRENT_SCOPE)];
    var outer := map[k := Obj(inner)];
    var f := ResolveText(rules, "", store);
    TrimSpaceFixed(k);
    TrimSpaceFixed(name);
    JoinWellFormed("", k);
    var above := JoinPath("", k);
    JoinWellFormed(above, name);
    var path := JoinPath(above, name);
    var key := TrimSpace(resource) + ":/" + JsonPointer.EscapeToken(name);
    assert above == TrimSpace(resource) + ":";
    assert key == TrimSpace(resource) + ":" + "/" + JsonPointer.EscapeToken(name);
    assert path == key;
    UnscopedCurrentReads(rules, store, path);
    if key !in store {
      FieldFails(Obj(inner), name, above, 1, f);
      FieldFails(Obj(outer), k, "", 0, f);
    } else {
      WalkOfFields(inner, map[name := Str(store[key])], above, 1, f);
      WalkOfFields(outer, map[k := Obj(map[name := Str(store[key])])], "", 0, f);
    }
  }

  lemma UnscopedCurrentReads(rules: Rules, store: map<string, string>, path: string)
    requires WellFormed(path) && path != ""
    ensures ResolveText(rules, "", store)(path, CURRENT_SCOPE) == Lookup(store, path)
  {
    hide ParsePlaceholder, TrimSpace;
    ParseCurrentScope(rules);
    WellFormedTrimmed(path);
    BlankIff("");
  }
}

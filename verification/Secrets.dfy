/** Secrets in payloads (secrets/secret_*.go): detecting and masking plain values under
    secret-looking keys, normalizing placeholders and resolving them against a store. */
module Secrets {
  import opened Payload
  import opened Text
  import JsonPointer

  /** The parts that the code takes from elsewhere: the key and value classifiers, and
      strconv.Quote and strconv.Unquote. */
  datatype Rules = Rules(
    likelyKey: string -> bool,
    likelyValue: string -> bool,
    quote: string -> string,
    unquote: string -> Option<string>)

  /** Classification ignores surrounding white space and needs some text; quoted text is
      delimited by double quotes and unquotes to itself. */
  ghost predicate Lawful(rules: Rules) {
    (forall k :: rules.likelyKey(k) ==> TrimSpace(k) != "") &&
    (forall j, k :: TrimSpace(j) == TrimSpace(k) ==> rules.likelyKey(j) == rules.likelyKey(k)) &&
    (forall s :: rules.unquote(rules.quote(s)) == Some(s)) &&
    (forall s :: |rules.quote(s)| >= 2 && rules.quote(s)[0] == '\"' && rules.quote(s)[|rules.quote(s)| - 1] == '\"')
  }

  lemma LikelyKeyHasText(rules: Rules, k: string)
    requires Lawful(rules) && rules.likelyKey(k)
    ensures TrimSpace(k) != ""
  {
    hide TrimSpace;
  }

  lemma LikelyKeyTrims(rules: Rules, j: string, k: string)
    requires Lawful(rules) && rules.likelyKey(j) && TrimSpace(j) == TrimSpace(k)
    ensures rules.likelyKey(k)
  {
    hide TrimSpace;
  }

  lemma QuoteLaw(rules: Rules, s: string)
    requires Lawful(rules)
    ensures rules.unquote(rules.quote(s)) == Some(s)
    ensures |rules.quote(s)| >= 2 && rules.quote(s)[0] == '\"' && rules.quote(s)[|rules.quote(s)| - 1] == '\"'
  {
    hide TrimSpace;
  }

  const MAX_DEPTH := 256

  const CURRENT_SCOPE := "{{secret .}}"

  // ----- placeholders -----

  datatype Placeholder = Plain | Malformed | Current | Explicit(key: string)

  predicate IsAsciiSpace(c: char) {
    c == ' ' || 9 <= c as int <= 13
  }

  function ParseArgument(rules: Rules, argument: string): Placeholder {
    if argument == "" then Malformed
    else if argument == "." then Current
    else if argument[0] == '\"' then
      match rules.unquote(argument)
      case None => Malformed
      case Some(parsed) => if TrimSpace(parsed) == "" then Malformed else Explicit(TrimSpace(parsed))
    else if ' ' in argument || '\t' in argument || '\r' in argument || '\n' in argument then Malformed
    else Explicit(argument)
  }

  function ParsePlaceholder(rules: Rules, value: string): Placeholder {
    var trimmed := TrimSpace(value);
    if |trimmed| < 4 || !("{{" <= trimmed) || !HasSuffix(trimmed, "}}") then Plain
    else
      var inner := TrimSpace(trimmed[2..|trimmed| - 2]);
      if !("secret" <= inner) then Plain
      else if |inner| > 6 && !IsAsciiSpace(inner[6]) then Plain
      else ParseArgument(rules, TrimSpace(inner[6..]))
  }

  /** The attribute that a placeholder names, relative to the resource. */
  function Attribute(p: Placeholder, path: string): Option<string> {
    match p
    case Current => if TrimSpace(path) == "" then None else Some(TrimSpace(path))
    case Explicit(key) =>
      var attribute := TrimSpace(key);
      if attribute == "" || attribute[0] == '/' then None else Some(attribute)
    case _ => None
  }

  /** The store key of an attribute: scoped by the resource path when there is one. */
  function StoreKey(resource: string, attribute: string): string {
    if TrimSpace(resource) == "" then attribute else TrimSpace(resource) + ":" + attribute
  }

  function JoinPath(prefix: string, key: string): string {
    var trimmed := TrimSpace(key);
    if trimmed == "" then ""
    else if TrimSpace(prefix) == "" then "/" + JsonPointer.EscapeToken(trimmed)
    else prefix + "/" + JsonPointer.EscapeToken(trimmed)
  }

  // ----- walks over the strings of a payload -----

  /** A string in the payload replaced according to the attribute path it stands at. */
  type Rewrite = (string, string) -> Option<string>

  function Walk(v: Value, path: string, depth: nat, f: Rewrite): Option<Value>
    decreases v
  {
    if depth > MAX_DEPTH then None
    else match v
      case Obj(fields) =>
        if forall k :: k in fields ==> Walk(fields[k], JoinPath(path, k), depth + 1, f).Some? then
          Some(Obj(map k | k in fields :: Walk(fields[k], JoinPath(path, k), depth + 1, f).value))
        else None
      case Arr(items) =>
        if forall i :: 0 <= i < |items| ==> Walk(items[i], JoinPath(path, Itoa(i)), depth + 1, f).Some? then
          Some(Arr(seq(|items|, i requires 0 <= i < |items| => Walk(items[i], JoinPath(path, Itoa(i)), depth + 1, f).value)))
        else None
      case Str(s) =>
        (match f(path, s)
         case Some(t) => Some(Str(t))
         case None => None)
      case _ => Some(v)
  }

  /** A string with its placeholder, if it is one, looked up in the store. */
  function ResolveText(rules: Rules, resource: string, store: map<string, string>): Rewrite {
    (path, s) =>
      var p := ParsePlaceholder(rules, s);
      if p.Plain? then Some(s)
      else
        match Attribute(p, path)
        case None => None
        case Some(attribute) =>
          var key := StoreKey(resource, attribute);
          if key in store then Some(store[key]) else None
  }

  function NormalizeText(rules: Rules): Rewrite {
    (path, s) =>
      var p := ParsePlaceholder(rules, s);
      if p.Plain? then Some(s)
      else
        match Attribute(p, path)
        case None => None
        case Some(attribute) =>
          Some(if attribute == path then CURRENT_SCOPE else "{{secret " + rules.quote(attribute) + "}}")
  }

  function Resolve(rules: Rules, v: Value, resource: string, store: map<string, string>): Option<Value> {
    Walk(v, "", 0, ResolveText(rules, resource, store))
  }

  function NormalizePlaceholders(rules: Rules, v: Value): Option<Value> {
    Walk(v, "", 0, NormalizeText(rules))
  }

  // ----- masking -----

  /** The values to store, and the scope in which each key was seen first. */
  datatype Candidates = Candidates(values: map<string, string>, scopes: map<string, string>)

  /** What one field adds to the candidates. */
  function CandidateAt(rules: Rules, key: string, field: Value, path: string, c: Candidates): Option<Candidates> {
    if !rules.likelyKey(key) || field.Null? then Some(c)
    else if !field.Str? then None
    else
      var p := ParsePlaceholder(rules, field.s);
      if p.Malformed? then None
      else if !p.Plain? then Some(c)
      else if (key in c.scopes && c.scopes[key] != path) || path in c.values then None
      else Some(Candidates(c.values[path := field.s], c.scopes[key := path]))
  }

  function Collect(rules: Rules, v: Value, path: string, c: Candidates, depth: nat): Option<Candidates>
    decreases v, 1
  {
    if depth > MAX_DEPTH then None
    else match v
      case Obj(fields) => CollectFields(rules, fields, SortedKeys(fields.Keys), path, c, depth)
      case Arr(items) => CollectItems(rules, items, |items|, path, c, depth)
      case _ => Some(c)
  }

  function CollectFields(rules: Rules, fields: Fields, keys: seq<string>, path: string, c: Candidates, depth: nat)
    : Option<Candidates>
    requires forall k :: k in keys ==> k in fields
    decreases Obj(fields), 0, |keys|
  {
    if keys == [] then Some(c)
    else
      var n := |keys| - 1;
      var before :- CollectFields(rules, fields, keys[..n], path, c, depth);
      var here :- CandidateAt(rules, keys[n], fields[keys[n]], JoinPath(path, keys[n]), before);
      Collect(rules, fields[keys[n]], JoinPath(path, keys[n]), here, depth + 1)
  }

  function CollectItems(rules: Rules, items: seq<Value>, n: nat, path: string, c: Candidates, depth: nat)
    : Option<Candidates>
    requires n <= |items|
    decreases Arr(items), 0, n
  {
    if n == 0 then Some(c)
    else
      var before :- CollectItems(rules, items, n - 1, path, c, depth);
      Collect(rules, items[n - 1], JoinPath(path, Itoa(n - 1)), before, depth + 1)
  }

  predicate Masks(rules: Rules, values: map<string, string>, field: Value, path: string) {
    path in values && field.Str? && ParsePlaceholder(rules, field.s).Plain?
  }

  function ApplyMask(rules: Rules, v: Value, path: string, values: map<string, string>, depth: nat): Option<Value>
    decreases v, 1
  {
    if depth > MAX_DEPTH then None
    else match v
      case Obj(fields) =>
        if forall k :: k in fields ==> MaskField(rules, fields, k, path, values, depth).Some? then
          Some(Obj(map k | k in fields :: MaskField(rules, fields, k, path, values, depth).value))
        else None
      case Arr(items) =>
        if forall i :: 0 <= i < |items| ==> ApplyMask(rules, items[i], JoinPath(path, Itoa(i)), values, depth + 1).Some? then
          Some(Arr(seq(|items|, i requires 0 <= i < |items| =>
            ApplyMask(rules, items[i], JoinPath(path, Itoa(i)), values, depth + 1).value)))
        else None
      case _ => Some(v)
  }

  function MaskField(rules: Rules, fields: Fields, k: string, path: string, values: map<string, string>, depth: nat): Option<Value>
    requires k in fields
    decreases Obj(fields), 0
  {
    var here := JoinPath(path, k);
    if Masks(rules, values, fields[k], here) then Some(Str(CURRENT_SCOPE))
    else if here in values && fields[k].Str? && ParsePlaceholder(rules, fields[k].s).Malformed? then None
    else ApplyMask(rules, fields[k], here, values, depth + 1)
  }

  /** The masked payload and the values that were put into the store. */
  function Mask(rules: Rules, v: Value): Option<(Value, map<string, string>)> {
    var c :- Collect(rules, v, "", Candidates(map[], map[]), 0);
    var masked :- ApplyMask(rules, v, "", c.values, 0);
    Some((masked, c.values))
  }

  // ----- detection -----

  function DetectField(rules: Rules, key: string, field: Value, path: string): Option<set<string>> {
    if !rules.likelyKey(key) || !field.Str? then Some({})
    else
      var p := ParsePlaceholder(rules, field.s);
      if p.Malformed? then None
      else Some(if p.Plain? && rules.likelyValue(field.s) then {path} else {})
  }

  function Detect(rules: Rules, v: Value, path: string, found: set<string>, depth: nat): Option<set<string>>
    decreases v, 1
  {
    if depth > MAX_DEPTH then None
    else match v
      case Obj(fields) => DetectFields(rules, fields, SortedKeys(fields.Keys), path, found, depth)
      case Arr(items) => DetectItems(rules, items, |items|, path, found, depth)
      case _ => Some(found)
  }

  function DetectFields(rules: Rules, fields: Fields, keys: seq<string>, path: string, found: set<string>, depth: nat)
    : Option<set<string>>
    requires forall k :: k in keys ==> k in fields
    decreases Obj(fields), 0, |keys|
  {
    if keys == [] then Some(found)
    else
      var n := |keys| - 1;
      var before :- DetectFields(rules, fields, keys[..n], path, found, depth);
      var here :- DetectField(rules, keys[n], fields[keys[n]], JoinPath(path, keys[n]));
      Detect(rules, fields[keys[n]], JoinPath(path, keys[n]), before + here, depth + 1)
  }

  function DetectItems(rules: Rules, items: seq<Value>, n: nat, path: string, found: set<string>, depth: nat)
    : Option<set<string>>
    requires n <= |items|
    decreases Arr(items), 0, n
  {
    if n == 0 then Some(found)
    else
      var before :- DetectItems(rules, items, n - 1, path, found, depth);
      Detect(rules, items[n - 1], JoinPath(path, Itoa(n - 1)), before, depth + 1)
  }

  // ----- attribute paths -----

  /** Attribute paths are empty, or start with a slash and do not end in white space. */
  predicate WellFormed(path: string) {
    path != "" ==> path[0] == '/' && !EndsInSpace(path)
  }

  lemma WellFormedTrimmed(path: string)
    requires WellFormed(path)
    ensures TrimSpace(path) == path
  {
    TrimSpaceFixed(path);
  }

  lemma EscapedKeyEnd(key: string)
    requires TrimSpace(key) != ""
    ensures var e := JsonPointer.EscapeToken(TrimSpace(key));
            e != "" && !EndsInSpace(e) && '/' !in e
  {
    TrimSpaceTrimmed(key);
    JsonPointer.EscapeIsPerCharacter(TrimSpace(key));
    JsonPointer.EscapeKeepsEnd(TrimSpace(key));
    JsonPointer.UnescapeOfEscape(TrimSpace(key));
  }

  lemma JoinWellFormed(prefix: string, key: string)
    requires WellFormed(prefix)
    ensures WellFormed(JoinPath(prefix, key))
    ensures TrimSpace(key) != "" ==> JoinPath(prefix, key) == prefix + "/" + JsonPointer.EscapeToken(TrimSpace(key))
  {
    hide TrimSpace, JsonPointer.EscapeToken, IsSpace;
    WellFormedTrimmed(prefix);
    if TrimSpace(key) != "" {
      EscapedKeyEnd(key);
    }
  }

  /** Two keys joined to the same path differ in surrounding white space only. */
  lemma SamePathSameKey(p: string, j: string, q: string, k: string)
    requires WellFormed(p) && WellFormed(q) && TrimSpace(j) != "" && JoinPath(p, j) == JoinPath(q, k)
    ensures TrimSpace(j) == TrimSpace(k)
  {
    JoinWellFormed(p, j);
    JoinWellFormed(q, k);
    EscapedKeyEnd(j);
    var a, b := JsonPointer.EscapeToken(TrimSpace(j)), JsonPointer.EscapeToken(TrimSpace(k));
    if TrimSpace(k) != "" {
      EscapedKeyEnd(k);
      LastSegmentUnique(p, a, q, b);
      JsonPointer.EscapeIsPerCharacter(TrimSpace(j));
      JsonPointer.EscapeIsPerCharacter(TrimSpace(k));
      JsonPointer.UnescapeOfEscape(TrimSpace(j));
      JsonPointer.UnescapeOfEscape(TrimSpace(k));
    }
  }

  lemma LastSegmentUnique(p: string, a: string, q: string, b: string)
    requires p + "/" + a == q + "/" + b && '/' !in a && '/' !in b
    ensures a == b
  {
    var s := p + "/" + a;
    assert s[|p|] == '/' && s[|q|] == '/';
    assert forall i :: |p| < i < |s| ==> s[i] == a[i - |p| - 1];
    assert forall i :: |q| < i < |s| ==> s[i] == b[i - |q| - 1];
    assert |p| == |q|;
    assert a == s[|p| + 1..] && b == s[|q| + 1..];
  }

  // ----- what placeholders parse to -----

  lemma SpaceThen(s: string)
    requires s != "" && Trimmed(s)
    ensures TrimSpace(" " + s) == s
  {
    var t := " " + s;
    assert t[1..] == s && t[0] == ' ' && IsSpace(' ');
    hide IsSpace;
    assert TrimLeft(s, IsSpace) == s;
    assert TrimLeft(t, IsSpace) == TrimLeft(t[1..], IsSpace);
  }

  lemma Braced(inner: string)
    ensures var s := "{{" + inner + "}}";
            |s| == |inner| + 4 && "{{" <= s && HasSuffix(s, "}}") && s[2..|s| - 2] == inner && Trimmed(s)
  {
    var s := "{{" + inner + "}}";
    assert s[..2] == "{{" && s[|s| - 2..] == "}}" && s[2..|s| - 2] == inner;
    assert s[0] == '{' && s[|s| - 1] == '}';
  }

  lemma SecretThen(argument: string)
    requires argument != "" && Trimmed(argument)
    ensures var inner := "secret " + argument;
            |inner| > 6 && "secret" <= inner && IsAsciiSpace(inner[6]) && inner[6..] == " " + argument && Trimmed(inner)
  {
    var inner := "secret " + argument;
    assert inner[..6] == "secret" && inner[6] == ' ' && inner[6..] == " " + argument;
    assert inner[0] == 's' && inner[|inner| - 1] == argument[|argument| - 1];
  }

  /** How the text between the double braces is read. */
  lemma ParseInner(rules: Rules, argument: string)
    requires argument != "" && Trimmed(argument)
    ensures ParsePlaceholder(rules, "{{" + ("secret " + argument) + "}}") == ParseArgument(rules, argument)
  {
    var inner := "secret " + argument;
    var s := "{{" + inner + "}}";
    hide IsSpace, TrimSpace, ParseArgument, Trimmed, IsAsciiSpace;
    Braced(inner);
    SecretThen(argument);
    TrimSpaceFixed(s);
    TrimSpaceFixed(inner);
    SpaceThen(argument);
  }

  lemma ParseCurrentScope(rules: Rules)
    ensures ParsePlaceholder(rules, CURRENT_SCOPE) == Current
  {
    var dot := ".";
    assert |dot| == 1 && dot[0] == '.' && !IsSpace('.') && Trimmed(dot);
    assert "{{" + ("secret " + dot) + "}}" == CURRENT_SCOPE;
    hide ParsePlaceholder, IsSpace, Trimmed;
    ParseInner(rules, dot);
  }

  lemma ParseExplicitScope(rules: Rules, key: string)
    requires Lawful(rules) && Trimmed(key) && key != ""
    ensures ParsePlaceholder(rules, "{{secret " + rules.quote(key) + "}}") == Explicit(key)
  {
    hide Lawful, ParsePlaceholder, TrimSpace;
    var q := rules.quote(key);
    QuoteLaw(rules, key);
    assert !IsSpace('\"') && Trimmed(q);
    assert "{{" + ("secret " + q) + "}}" == "{{secret " + q + "}}";
    TrimSpaceFixed(key);
    ParseInner(rules, q);
  }

  lemma ExplicitKeysTrimmed(rules: Rules, s: string)
    requires ParsePlaceholder(rules, s).Explicit?
    ensures Trimmed(ParsePlaceholder(rules, s).key)
  {
    var trimmed := TrimSpace(s);
    var inner := TrimSpace(trimmed[2..|trimmed| - 2]);
    var argument := TrimSpace(inner[6..]);
    TrimSpaceTrimmed(inner[6..]);
    if argument[0] == '\"' {
      TrimSpaceTrimmed(rules.unquote(argument).value);
    }
  }

  // ----- normalizing placeholders -----

  /** Rewriting with f first makes no difference to g. */
  ghost predicate Transparent(f: Rewrite, g: Rewrite) {
    forall path, s :: WellFormed(path) && f(path, s).Some? ==> g(path, f(path, s).value) == g(path, s)
  }

  lemma {:induction false} WalkAfterWalk(v: Value, path: string, depth: nat, f: Rewrite, g: Rewrite)
    requires Transparent(f, g) && WellFormed(path) && Walk(v, path, depth, f).Some?
    ensures Walk(Walk(v, path, depth, f).value, path, depth, g) == Walk(v, path, depth, g)
    decreases v, 1
  {
    match v
    case Obj(_) => WalkAfterWalkFields(v, path, depth, f, g);
    case Arr(_) => WalkAfterWalkItems(v, path, depth, f, g);
    case _ =>
  }

  lemma WalkSameFields(a: Fields, b: Fields, path: string, depth: nat, g: Rewrite)
    requires a.Keys == b.Keys
    requires forall k :: k in a ==> Walk(a[k], JoinPath(path, k), depth + 1, g) == Walk(b[k], JoinPath(path, k), depth + 1, g)
    ensures Walk(Obj(a), path, depth, g) == Walk(Obj(b), path, depth, g)
  {
    hide JoinPath;
    if Walk(Obj(a), path, depth, g).Some? {
      assert Walk(Obj(a), path, depth, g).value.fields == Walk(Obj(b), path, depth, g).value.fields;
    }
  }

  lemma WalkSameItems(a: seq<Value>, b: seq<Value>, path: string, depth: nat, g: Rewrite)
    requires |a| == |b|
    requires forall i :: 0 <= i < |a| ==>
               Walk(a[i], JoinPath(path, Itoa(i)), depth + 1, g) == Walk(b[i], JoinPath(path, Itoa(i)), depth + 1, g)
    ensures Walk(Arr(a), path, depth, g) == Walk(Arr(b), path, depth, g)
  {
    hide JoinPath, Itoa;
    if Walk(Arr(a), path, depth, g).Some? {
      assert Walk(Arr(a), path, depth, g).value.items == Walk(Arr(b), path, depth, g).value.items;
    }
  }

  lemma {:induction false} WalkAfterWalkFields(v: Value, path: string, depth: nat, f: Rewrite, g: Rewrite)
    requires v.Obj? && Transparent(f, g) && WellFormed(path) && Walk(v, path, depth, f).Some?
    ensures Walk(Walk(v, path, depth, f).value, path, depth, g) == Walk(v, path, depth, g)
    decreases v, 0
  {
    var fields, walked := v.fields, Walk(v, path, depth, f).value.fields;
    forall k | k in fields
      ensures Walk(walked[k], JoinPath(path, k), depth + 1, g) == Walk(fields[k], JoinPath(path, k), depth + 1, g)
    {
      JoinWellFormed(path, k);
      WalkAfterWalk(fields[k], JoinPath(path, k), depth + 1, f, g);
    }
    WalkSameFields(walked, fields, path, depth, g);
    hide Walk;
  }

  lemma {:induction false} WalkAfterWalkItems(v: Value, path: string, depth: nat, f: Rewrite, g: Rewrite)
    requires v.Arr? && Transparent(f, g) && WellFormed(path) && Walk(v, path, depth, f).Some?
    ensures Walk(Walk(v, path, depth, f).value, path, depth, g) == Walk(v, path, depth, g)
    decreases v, 0
  {
    var items, walked := v.items, Walk(v, path, depth, f).value.items;
    hide Itoa;
    forall i | 0 <= i < |items|
      ensures Walk(walked[i], JoinPath(path, Itoa(i)), depth + 1, g) == Walk(items[i], JoinPath(path, Itoa(i)), depth + 1, g)
    {
      JoinWellFormed(path, Itoa(i));
      WalkAfterWalk(items[i], JoinPath(path, Itoa(i)), depth + 1, f, g);
    }
    WalkSameItems(walked, items, path, depth, g);
    hide Walk;
  }

  /** A normalized string is a placeholder for the same attribute, or the same plain text. */
  lemma NormalizedText(rules: Rules, path: string, s: string)
    requires Lawful(rules) && WellFormed(path) && NormalizeText(rules)(path, s).Some?
    ensures var t := NormalizeText(rules)(path, s).value;
            var p, q := ParsePlaceholder(rules, s), ParsePlaceholder(rules, t);
            (p.Plain? <==> q.Plain?) && (p.Plain? ==> t == s) && (!p.Plain? ==> Attribute(q, path) == Attribute(p, path))
  {
    hide ParsePlaceholder, IsSpace, TrimSpace;
    var p := ParsePlaceholder(rules, s);
    if !p.Plain? {
      var attribute := Attribute(p, path).value;
      WellFormedTrimmed(path);
      if p.Current? {
        ParseCurrentScope(rules);
      } else {
        ExplicitKeysTrimmed(rules, s);
        TrimSpaceFixed(p.key);
        ParseExplicitScope(rules, attribute);
      }
    }
  }

  lemma NormalizeTransparent(rules: Rules, resource: string, store: map<string, string>)
    requires Lawful(rules)
    ensures Transparent(NormalizeText(rules), ResolveText(rules, resource, store))
    ensures Transparent(NormalizeText(rules), NormalizeText(rules))
  {
    hide ParsePlaceholder, Attribute, WellFormed;
    forall path, s | WellFormed(path) && NormalizeText(rules)(path, s).Some?
      ensures var t := NormalizeText(rules)(path, s).value;
              ResolveText(rules, resource, store)(path, t) == ResolveText(rules, resource, store)(path, s) &&
              NormalizeText(rules)(path, t) == NormalizeText(rules)(path, s)
    {
      NormalizedText(rules, path, s);
    }
  }

  /** Normalizing twice is normalizing once, and does not change what a payload resolves to. */
  lemma NormalizationSound(rules: Rules, v: Value, resource: string, store: map<string, string>)
    requires Lawful(rules) && NormalizePlaceholders(rules, v).Some?
    ensures var n := NormalizePlaceholders(rules, v).value;
            NormalizePlaceholders(rules, n) == Some(n) &&
            Resolve(rules, n, resource, store) == Resolve(rules, v, resource, store)
  {
    NormalizeTransparent(rules, resource, store);
    WalkAfterWalk(v, "", 0, NormalizeText(rules), ResolveText(rules, resource, store));
    WalkAfterWalk(v, "", 0, NormalizeText(rules), NormalizeText(rules));
  }

  // ----- masking -----

  ghost predicate Extends(b: map<string, string>, a: map<string, string>) {
    forall p :: p in a ==> p in b && b[p] == a[p]
  }

  /** A path of a field whose key looks like a secret. */
  ghost predicate LikelyPath(rules: Rules, p: string) {
    exists q, j :: WellFormed(q) && rules.likelyKey(j) && p == JoinPath(q, j)
  }

  ghost predicate LikelyPaths(rules: Rules, values: map<string, string>) {
    forall p :: p in values ==> LikelyPath(rules, p)
  }

  /** A field that masking can deal with, its plain secret being among the values. */
  ghost predicate FieldCovered(rules: Rules, k: string, field: Value, here: string, values: map<string, string>) {
    rules.likelyKey(k) ==>
      field.Null? ||
      (field.Str? && !ParsePlaceholder(rules, field.s).Malformed? &&
       (ParsePlaceholder(rules, field.s).Plain? ==> here in values && values[here] == field.s))
  }

  ghost predicate Covered(rules: Rules, v: Value, path: string, values: map<string, string>)
    decreases v
  {
    match v
    case Obj(fields) =>
      forall k :: k in fields ==>
        FieldCovered(rules, k, fields[k], JoinPath(path, k), values) && Covered(rules, fields[k], JoinPath(path, k), values)
    case Arr(items) => forall i :: 0 <= i < |items| ==> Covered(rules, items[i], JoinPath(path, Itoa(i)), values)
    case _ => true
  }

  ghost predicate Shallow(v: Value, depth: nat)
    decreases v
  {
    depth <= MAX_DEPTH &&
    match v
    case Obj(fields) => forall k :: k in fields ==> Shallow(fields[k], depth + 1)
    case Arr(items) => forall i :: 0 <= i < |items| ==> Shallow(items[i], depth + 1)
    case _ => true
  }

  lemma {:induction false} CoveredGrows(rules: Rules, v: Value, path: string, a: map<string, string>, b: map<string, string>)
    requires Covered(rules, v, path, a) && Extends(b, a)
    ensures Covered(rules, v, path, b)
    decreases v
  {
    hide JoinPath, ParsePlaceholder, Itoa;
    match v
    case Obj(fields) =>
      forall k | k in fields
        ensures FieldCovered(rules, k, fields[k], JoinPath(path, k), b) && Covered(rules, fields[k], JoinPath(path, k), b)
      {
        CoveredGrows(rules, fields[k], JoinPath(path, k), a, b);
      }
    case Arr(items) =>
      forall i | 0 <= i < |items|
        ensures Covered(rules, items[i], JoinPath(path, Itoa(i)), b)
      {
        CoveredGrows(rules, items[i], JoinPath(path, Itoa(i)), a, b);
      }
    case _ =>
  }

  /** What one field contributes is kept, and covers the field. */
  lemma CandidateCovers(rules: Rules, k: string, field: Value, path: string, c: Candidates)
    requires WellFormed(path) && LikelyPaths(rules, c.values)
    requires CandidateAt(rules, k, field, JoinPath(path, k), c).Some?
    ensures var c' := CandidateAt(rules, k, field, JoinPath(path, k), c).value;
            Extends(c'.values, c.values) && LikelyPaths(rules, c'.values) &&
            FieldCovered(rules, k, field, JoinPath(path, k), c'.values)
  {
    hide JoinPath, ParsePlaceholder, WellFormed;
    if rules.likelyKey(k) {
      assert LikelyPath(rules, JoinPath(path, k));
    }
  }

  /** Everything that collecting from v promises. */
  ghost predicate Collected(rules: Rules, v: Value, path: string, c: Candidates, depth: nat, c': Candidates) {
    Extends(c'.values, c.values) && LikelyPaths(rules, c'.values) && Covered(rules, v, path, c'.values) && Shallow(v, depth)
  }

  lemma {:induction false} CollectCovers(rules: Rules, v: Value, path: string, c: Candidates, depth: nat)
    requires WellFormed(path) && LikelyPaths(rules, c.values) && Collect(rules, v, path, c, depth).Some?
    ensures Collected(rules, v, path, c, depth, Collect(rules, v, path, c, depth).value)
    decreases v, 1
  {
    match v
    case Obj(fields) =>
      CollectFieldsCover(rules, fields, SortedKeys(fields.Keys), path, c, depth);
      var after := CollectFields(rules, fields, SortedKeys(fields.Keys), path, c, depth).value;
      assert forall k :: k in fields ==> FieldDone(rules, fields, k, path, after.values, depth);
    case Arr(items) =>
      CollectItemsCover(rules, items, |items|, path, c, depth);
    case _ =>
  }

  ghost predicate FieldDone(rules: Rules, fields: Fields, k: string, path: string, values: map<string, string>, depth: nat)
    requires k in fields
  {
    FieldCovered(rules, k, fields[k], JoinPath(path, k), values) &&
    Covered(rules, fields[k], JoinPath(path, k), values) && Shallow(fields[k], depth + 1)
  }

  lemma FieldDoneGrows(rules: Rules, fields: Fields, k: string, path: string, a: map<string, string>, b: map<string, string>, depth: nat)
    requires k in fields && FieldDone(rules, fields, k, path, a, depth) && Extends(b, a)
    ensures FieldDone(rules, fields, k, path, b, depth)
  {
    CoveredGrows(rules, fields[k], JoinPath(path, k), a, b);
  }

  /** Collecting from one more field. */
  lemma {:induction false} CollectFieldCovers(rules: Rules, fields: Fields, k: string, path: string, c: Candidates, depth: nat)
    requires WellFormed(path) && LikelyPaths(rules, c.values) && k in fields
    requires CandidateAt(rules, k, fields[k], JoinPath(path, k), c).Some?
    requires var here := CandidateAt(rules, k, fields[k], JoinPath(path, k), c).value;
             Collect(rules, fields[k], JoinPath(path, k), here, depth + 1).Some?
    ensures var here := CandidateAt(rules, k, fields[k], JoinPath(path, k), c).value;
            var after := Collect(rules, fields[k], JoinPath(path, k), here, depth + 1).value;
            Extends(after.values, c.values) && LikelyPaths(rules, after.values) &&
            FieldDone(rules, fields, k, path, after.values, depth)
    decreases Obj(fields), 0, 0
  {
    hide JoinPath, ParsePlaceholder, WellFormed, CandidateAt, Collect, Covered, Shallow, LikelyPaths, TrimSpace;
    var here := CandidateAt(rules, k, fields[k], JoinPath(path, k), c).value;
    CandidateCovers(rules, k, fields[k], path, c);
    JoinWellFormed(path, k);
    CollectCovers(rules, fields[k], JoinPath(path, k), here, depth + 1);
  }

  lemma {:induction false} CollectFieldsCover(rules: Rules, fields: Fields, keys: seq<string>, path: string, c: Candidates, depth: nat)
    requires WellFormed(path) && LikelyPaths(rules, c.values) && forall k :: k in keys ==> k in fields
    requires CollectFields(rules, fields, keys, path, c, depth).Some?
    ensures var c' := CollectFields(rules, fields, keys, path, c, depth).value;
            Extends(c'.values, c.values) && LikelyPaths(rules, c'.values) &&
            forall k :: k in keys ==> FieldDone(rules, fields, k, path, c'.values, depth)
    decreases Obj(fields), 0, |keys|
  {
    hide JoinPath, WellFormed, CandidateAt, Collect, FieldDone, LikelyPaths;
    if keys != [] {
      var n := |keys| - 1;
      assert keys[n] in keys && keys == keys[..n] + [keys[n]];
      CollectFieldsCover(rules, fields, keys[..n], path, c, depth);
      var before := CollectFields(rules, fields, keys[..n], path, c, depth).value;
      CollectFieldCovers(rules, fields, keys[n], path, before, depth);
      var after := CollectFields(rules, fields, keys, path, c, depth).value;
      forall k | k in keys[..n]
        ensures FieldDone(rules, fields, k, path, after.values, depth)
      {
        FieldDoneGrows(rules, fields, k, path, before.values, after.values, depth);
      }
    }
  }

  lemma {:induction false} CollectItemsCover(rules: Rules, items: seq<Value>, n: nat, path: string, c: Candidates, depth: nat)
    requires WellFormed(path) && LikelyPaths(rules, c.values) && n <= |items|
    requires CollectItems(rules, items, n, path, c, depth).Some?
    ensures var c' := CollectItems(rules, items, n, path, c, depth).value;
            Extends(c'.values, c.values) && LikelyPaths(rules, c'.values) &&
            forall i :: 0 <= i < n ==> Covered(rules, items[i], JoinPath(path, Itoa(i)), c'.values) && Shallow(items[i], depth + 1)
    decreases Arr(items), 0, n
  {
    hide JoinPath, WellFormed, Collect, Covered, Shallow, LikelyPaths, Itoa, TrimSpace;
    if n > 0 {
      CollectItemsCover(rules, items, n - 1, path, c, depth);
      var before := CollectItems(rules, items, n - 1, path, c, depth).value;
      JoinWellFormed(path, Itoa(n - 1));
      CollectCovers(rules, items[n - 1], JoinPath(path, Itoa(n - 1)), before, depth + 1);
      var after := CollectItems(rules, items, n, path, c, depth).value;
      forall i | 0 <= i < n - 1
        ensures Covered(rules, items[i], JoinPath(path, Itoa(i)), after.values)
      {
        CoveredGrows(rules, items[i], JoinPath(path, Itoa(i)), before.values, after.values);
      }
    }
  }

  /** A masked position belongs to a key that looks like a secret. */
  lemma MaskedKeyLikely(rules: Rules, k: string, path: string, values: map<string, string>)
    requires Lawful(rules) && WellFormed(path) && LikelyPaths(rules, values) && JoinPath(path, k) in values
    ensures rules.likelyKey(k)
  {
    hide JoinPath, WellFormed, Lawful, TrimSpace;
    assert LikelyPath(rules, JoinPath(path, k));
    var q, j :| WellFormed(q) && rules.likelyKey(j) && JoinPath(path, k) == JoinPath(q, j);
    LikelyKeyHasText(rules, j);
    SamePathSameKey(q, j, path, k);
    LikelyKeyTrims(rules, j, k);
  }

  ghost predicate Maskable(rules: Rules, v: Value, path: string, values: map<string, string>) {
    Lawful(rules) && WellFormed(path) && LikelyPaths(rules, values) && Covered(rules, v, path, values)
  }

  lemma {:induction false} MaskSucceeds(rules: Rules, v: Value, path: string, values: map<string, string>, depth: nat)
    requires Maskable(rules, v, path, values) && Shallow(v, depth)
    ensures ApplyMask(rules, v, path, values, depth).Some?
    decreases v
  {
    hide JoinPath, ParsePlaceholder, WellFormed, Lawful, LikelyPaths, Itoa;
    match v
    case Obj(fields) =>
      forall k | k in fields
        ensures MaskField(rules, fields, k, path, values, depth).Some?
      {
        JoinWellFormed(path, k);
        MaskSucceeds(rules, fields[k], JoinPath(path, k), values, depth + 1);
        if JoinPath(path, k) in values {
          MaskedKeyLikely(rules, k, path, values);
        }
      }
    case Arr(items) =>
      forall i | 0 <= i < |items|
        ensures ApplyMask(rules, items[i], JoinPath(path, Itoa(i)), values, depth + 1).Some?
      {
        JoinWellFormed(path, Itoa(i));
        MaskSucceeds(rules, items[i], JoinPath(path, Itoa(i)), values, depth + 1);
      }
    case _ =>
  }

  /** The store holds every masked value under the key that its placeholder resolves to. */
  ghost predicate InStore(resource: string, values: map<string, string>, store: map<string, string>) {
    forall p :: p in values ==> StoreKey(resource, p) in store && store[StoreKey(resource, p)] == values[p]
  }

  lemma MaskedTextResolves(rules: Rules, here: string, resource: string, values: map<string, string>, store: map<string, string>)
    requires WellFormed(here) && here != "" && here in values && InStore(resource, values, store)
    ensures ResolveText(rules, resource, store)(here, CURRENT_SCOPE) == Some(values[here])
  {
    hide ParsePlaceholder, StoreKey, TrimSpace, WellFormed;
    ParseCurrentScope(rules);
    WellFormedTrimmed(here);
  }

  lemma {:induction false} MaskResolves(rules: Rules, v: Value, path: string, values: map<string, string>, depth: nat,
                                        resource: string, store: map<string, string>)
    requires Maskable(rules, v, path, values) && InStore(resource, values, store)
    requires ApplyMask(rules, v, path, values, depth).Some?
    ensures Walk(ApplyMask(rules, v, path, values, depth).value, path, depth, ResolveText(rules, resource, store))
            == Walk(v, path, depth, ResolveText(rules, resource, store))
    decreases v, 1
  {
    match v
    case Obj(fields) =>
      var g, masked := ResolveText(rules, resource, store), ApplyMask(rules, v, path, values, depth).value.fields;
      forall k | k in fields
        ensures Walk(masked[k], JoinPath(path, k), depth + 1, g) == Walk(fields[k], JoinPath(path, k), depth + 1, g)
      {
        MaskedFieldResolves(rules, fields, k, path, values, depth, resource, store);
      }
      WalkSameFields(masked, fields, path, depth, g);
    case Arr(items) =>
      var g, masked := ResolveText(rules, resource, store), ApplyMask(rules, v, path, values, depth).value.items;
      forall i | 0 <= i < |items|
        ensures Walk(masked[i], JoinPath(path, Itoa(i)), depth + 1, g) == Walk(items[i], JoinPath(path, Itoa(i)), depth + 1, g)
      {
        JoinWellFormed(path, Itoa(i));
        MaskResolves(rules, items[i], JoinPath(path, Itoa(i)), values, depth + 1, resource, store);
      }
      WalkSameItems(masked, items, path, depth, g);
    case _ =>
  }

  lemma {:induction false} MaskedFieldResolves(rules: Rules, fields: Fields, k: string, path: string, values: map<string, string>,
                                               depth: nat, resource: string, store: map<string, string>)
    requires Maskable(rules, Obj(fields), path, values) && InStore(resource, values, store)
    requires k in fields && MaskField(rules, fields, k, path, values, depth).Some?
    ensures Walk(MaskField(rules, fields, k, path, values, depth).value, JoinPath(path, k), depth + 1, ResolveText(rules, resource, store))
            == Walk(fields[k], JoinPath(path, k), depth + 1, ResolveText(rules, resource, store))
    decreases Obj(fields), 0
  {
    var here := JoinPath(path, k);
    assert Covered(rules, fields[k], here, values) && FieldCovered(rules, k, fields[k], here, values);
    hide Walk, ApplyMask, TrimSpace, JoinPath, ParsePlaceholder, FieldCovered, WellFormed, Lawful, LikelyPaths, ResolveText;
    JoinWellFormed(path, k);
    if Masks(rules, values, fields[k], here) {
      MaskedStringResolves(rules, k, fields[k], path, values, depth + 1, resource, store);
    } else {
      MaskResolves(rules, fields[k], here, values, depth + 1, resource, store);
    }
  }

  lemma MaskedStringResolves(rules: Rules, k: string, field: Value, path: string, values: map<string, string>,
                             depth: nat, resource: string, store: map<string, string>)
    requires Lawful(rules) && WellFormed(path) && LikelyPaths(rules, values) && InStore(resource, values, store)
    requires FieldCovered(rules, k, field, JoinPath(path, k), values) && Masks(rules, values, field, JoinPath(path, k))
    ensures Walk(Str(CURRENT_SCOPE), JoinPath(path, k), depth, ResolveText(rules, resource, store))
            == Walk(field, JoinPath(path, k), depth, ResolveText(rules, resource, store))
  {
    hide TrimSpace, JoinPath, ParsePlaceholder, WellFormed, Lawful, LikelyPaths, ResolveText;
    MaskedKeyLikely(rules, k, path, values);
    LikelyKeyHasText(rules, k);
    JoinWellFormed(path, k);
    MaskedTextResolves(rules, JoinPath(path, k), resource, values, store);
    PlainResolves(rules, JoinPath(path, k), field.s, resource, store);
  }

  lemma PlainResolves(rules: Rules, path: string, s: string, resource: string, store: map<string, string>)
    requires ParsePlaceholder(rules, s).Plain?
    ensures ResolveText(rules, resource, store)(path, s) == Some(s)
  {
  }

  // ----- nothing is left behind -----

  /** No field with a secret-looking key holds plain text or a malformed placeholder. */
  ghost predicate Quiet(rules: Rules, v: Value)
    decreases v
  {
    match v
    case Obj(fields) => forall k :: k in fields ==> QuietField(rules, k, fields[k]) && Quiet(rules, fields[k])
    case Arr(items) => forall i :: 0 <= i < |items| ==> Quiet(rules, items[i])
    case _ => true
  }

  ghost predicate QuietField(rules: Rules, k: string, field: Value) {
    rules.likelyKey(k) ==>
      field.Null? ||
      (field.Str? && !ParsePlaceholder(rules, field.s).Malformed? && !ParsePlaceholder(rules, field.s).Plain?)
  }

  lemma {:induction false} MaskedIsQuiet(rules: Rules, v: Value, path: string, values: map<string, string>, depth: nat)
    requires Maskable(rules, v, path, values) && ApplyMask(rules, v, path, values, depth).Some?
    ensures Quiet(rules, ApplyMask(rules, v, path, values, depth).value)
    ensures Shallow(ApplyMask(rules, v, path, values, depth).value, depth) <==> Shallow(v, depth)
    decreases v
  {
    ParseCurrentScope(rules);
    hide JoinPath, ParsePlaceholder, WellFormed, Lawful, LikelyPaths, Itoa;
    match v
    case Obj(fields) =>
      var masked := ApplyMask(rules, v, path, values, depth).value.fields;
      forall k | k in fields
        ensures QuietField(rules, k, masked[k]) && Quiet(rules, masked[k])
        ensures Shallow(masked[k], depth + 1) <==> Shallow(fields[k], depth + 1)
      {
        JoinWellFormed(path, k);
        if !Masks(rules, values, fields[k], JoinPath(path, k)) {
          MaskedIsQuiet(rules, fields[k], JoinPath(path, k), values, depth + 1);
        }
      }
    case Arr(items) =>
      var masked := ApplyMask(rules, v, path, values, depth).value.items;
      forall i | 0 <= i < |items|
        ensures Quiet(rules, masked[i])
        ensures Shallow(masked[i], depth + 1) <==> Shallow(items[i], depth + 1)
      {
        JoinWellFormed(path, Itoa(i));
        MaskedIsQuiet(rules, items[i], JoinPath(path, Itoa(i)), values, depth + 1);
      }
    case _ =>
  }

  lemma {:induction false} QuietHasNothing(rules: Rules, v: Value, path: string, c: Candidates, found: set<string>, depth: nat)
    requires Quiet(rules, v) && Shallow(v, depth)
    ensures Collect(rules, v, path, c, depth) == Some(c)
    ensures Detect(rules, v, path, found, depth) == Some(found)
    decreases v, 1
  {
    match v
    case Obj(fields) => QuietFieldsHaveNothing(rules, fields, SortedKeys(fields.Keys), path, c, found, depth);
    case Arr(items) => QuietItemsHaveNothing(rules, items, |items|, path, c, found, depth);
    case _ =>
  }

  lemma {:induction false} QuietFieldsHaveNothing(rules: Rules, fields: Fields, keys: seq<string>, path: string,
                                                  c: Candidates, found: set<string>, depth: nat)
    requires Quiet(rules, Obj(fields)) && Shallow(Obj(fields), depth) && forall k :: k in keys ==> k in fields
    ensures CollectFields(rules, fields, keys, path, c, depth) == Some(c)
    ensures DetectFields(rules, fields, keys, path, found, depth) == Some(found)
    decreases Obj(fields), 0, |keys|
  {
    if keys != [] {
      var n := |keys| - 1;
      assert keys[n] in keys;
      QuietFieldsHaveNothing(rules, fields, keys[..n], path, c, found, depth);
      QuietHasNothing(rules, fields[keys[n]], JoinPath(path, keys[n]), c, found, depth + 1);
      assert QuietField(rules, keys[n], fields[keys[n]]);
      hide JoinPath, ParsePlaceholder, Collect, Detect;
      assert DetectField(rules, keys[n], fields[keys[n]], JoinPath(path, keys[n])) == Some({});
      assert found + {} == found;
    }
  }

  lemma {:induction false} QuietItemsHaveNothing(rules: Rules, items: seq<Value>, n: nat, path: string,
                                                 c: Candidates, found: set<string>, depth: nat)
    requires Quiet(rules, Arr(items)) && Shallow(Arr(items), depth) && n <= |items|
    ensures CollectItems(rules, items, n, path, c, depth) == Some(c)
    ensures DetectItems(rules, items, n, path, found, depth) == Some(found)
    decreases Arr(items), 0, n
  {
    hide JoinPath, Itoa, Collect, Detect;
    if n > 0 {
      QuietItemsHaveNothing(rules, items, n - 1, path, c, found, depth);
      QuietHasNothing(rules, items[n - 1], JoinPath(path, Itoa(n - 1)), c, found, depth + 1);
    }
  }

  /** Masking succeeds as soon as its candidates are collected; the masked payload resolves, under
      any store that holds the masked values, to exactly what the original resolves to. */
  lemma MaskingInvisible(rules: Rules, v: Value, resource: string, store: map<string, string>)
    requires Lawful(rules) && Collect(rules, v, "", Candidates(map[], map[]), 0).Some?
    ensures Mask(rules, v).Some?
    ensures InStore(resource, Mask(rules, v).value.1, store) ==>
              Resolve(rules, Mask(rules, v).value.0, resource, store) == Resolve(rules, v, resource, store)
  {
    var c := Candidates(map[], map[]);
    CollectCovers(rules, v, "", c, 0);
    var values := Collect(rules, v, "", c, 0).value.values;
    MaskSucceeds(rules, v, "", values, 0);
    if InStore(resource, values, store) {
      MaskResolves(rules, v, "", values, 0, resource, store);
    }
  }

  /** Nothing is detected in a masked payload, and masking it again changes and stores nothing. */
  lemma MaskingLeavesNothing(rules: Rules, v: Value)
    requires Lawful(rules) && Mask(rules, v).Some?
    ensures var masked := Mask(rules, v).value.0;
            Detect(rules, masked, "", {}, 0) == Some({}) && Mask(rules, masked) == Some((masked, map[]))
  {
    var c := Candidates(map[], map[]);
    CollectCovers(rules, v, "", c, 0);
    var values := Collect(rules, v, "", c, 0).value.values;
    MaskedIsQuiet(rules, v, "", values, 0);
    var masked := ApplyMask(rules, v, "", values, 0).value;
    QuietHasNothing(rules, masked, "", c, {}, 0);
    NoValuesNoMask(rules, masked, "", 0);
  }

  lemma {:induction false} NoValuesNoMask(rules: Rules, v: Value, path: string, depth: nat)
    requires Shallow(v, depth)
    ensures ApplyMask(rules, v, path, map[], depth) == Some(v)
    decreases v
  {
    hide JoinPath, ParsePlaceholder, Itoa;
    match v
    case Obj(fields) =>
      forall k | k in fields
        ensures MaskField(rules, fields, k, path, map[], depth) == Some(fields[k])
      {
        NoValuesNoMask(rules, fields[k], JoinPath(path, k), depth + 1);
      }
      assert ApplyMask(rules, v, path, map[], depth).value.fields == fields;
    case Arr(items) =>
      forall i | 0 <= i < |items|
        ensures ApplyMask(rules, items[i], JoinPath(path, Itoa(i)), map[], depth + 1) == Some(items[i])
      {
        NoValuesNoMask(rules, items[i], JoinPath(path, Itoa(i)), depth + 1);
      }
      assert ApplyMask(rules, v, path, map[], depth).value.items == items;
    case _ =>
  }

  // ----- the operations as they run -----

  lemma FieldFails(v: Value, k: string, path: string, depth: nat, f: Rewrite)
    requires v.Obj? && k in v.fields && Walk(v.fields[k], JoinPath(path, k), depth + 1, f).None?
    ensures Walk(v, path, depth, f).None?
  {
  }

  /** One resolution run: values that were read once are taken from the cache. */
  class Resolution {
    const rules: Rules
    const resource: string
    const store: map<string, string>
    var cache: map<string, string>

    constructor (rules: Rules, resource: string, store: map<string, string>)
      ensures this.rules == rules && this.resource == resource && this.store == store && Valid()
    {
      this.rules, this.resource, this.store, this.cache := rules, resource, store, map[];
    }

    /** The cache agrees with the store. */
    ghost predicate Valid()
      reads this
    {
      forall k :: k in cache ==> k in store && cache[k] == store[k]
    }

    method ResolveString(s: string, path: string) returns (r: Option<string>)
      requires Valid()
      modifies this
      ensures Valid() && r == ResolveText(rules, resource, store)(path, s)
    {
      hide ParsePlaceholder, StoreKey, Attribute;
      var p := ParsePlaceholder(rules, s);
      if p.Plain? {
        return Some(s);
      }
      var attribute := Attribute(p, path);
      if attribute.None? {
        return None;
      }
      var key := StoreKey(resource, attribute.value);
      if key in cache {
        return Some(cache[key]);
      }
      if key !in store {
        return None;
      }
      cache := cache[key := store[key]];
      return Some(store[key]);
    }

    method ResolvePayloadValue(v: Value, path: string, depth: nat) returns (r: Option<Value>)
      requires Valid()
      modifies this
      ensures Valid() && r == Walk(v, path, depth, ResolveText(rules, resource, store))
      decreases v, 1
    {
      if depth > MAX_DEPTH {
        return None;
      }
      match v {
        case Obj(fields) => r := ResolveFields(fields, path, depth);
        case Arr(items) => r := ResolveItems(items, path, depth);
        case Str(s) =>
          var text := ResolveString(s, path);
          r := if text.Some? then Some(Str(text.value)) else None;
        case _ => r := Some(v);
      }
    }

    method ResolveFields(fields: Fields, path: string, depth: nat) returns (r: Option<Value>)
      requires Valid() && depth <= MAX_DEPTH
      modifies this
      ensures Valid() && r == Walk(Obj(fields), path, depth, ResolveText(rules, resource, store))
      decreases Obj(fields), 0
    {
      ghost var f := ResolveText(rules, resource, store);
      var keys := SortedKeys(fields.Keys);
      var result: Fields := map[];
      hide JoinPath, ResolveText, SortedKeys;
      for i := 0 to |keys|
        invariant Valid()
        invariant forall k :: k in result <==> k in keys[..i]
        invariant forall k :: k in result ==> k in fields && Walk(fields[k], JoinPath(path, k), depth + 1, f) == Some(result[k])
      {
        var key := keys[i];
        assert key in keys && keys[..i + 1] == keys[..i] + [key];
        var child := ResolvePayloadValue(fields[key], JoinPath(path, key), depth + 1);
        if child.None? {
          FieldFails(Obj(fields), key, path, depth, f);
          return None;
        }
        result := result[key := child.value];
      }
      assert keys[..|keys|] == keys;
      r := Some(Obj(result));
      assert result.Keys == fields.Keys;
      assert Walk(Obj(fields), path, depth, f).Some? && Walk(Obj(fields), path, depth, f).value.fields == result;
    }

    method ResolveItems(items: seq<Value>, path: string, depth: nat) returns (r: Option<Value>)
      requires Valid() && depth <= MAX_DEPTH
      modifies this
      ensures Valid() && r == Walk(Arr(items), path, depth, ResolveText(rules, resource, store))
      decreases Arr(items), 0
    {
      ghost var f := ResolveText(rules, resource, store);
      var result: seq<Value> := [];
      hide JoinPath, ResolveText, Itoa;
      for i := 0 to |items|
        invariant Valid() && |result| == i
        invariant forall j :: 0 <= j < i ==> Walk(items[j], JoinPath(path, Itoa(j)), depth + 1, f) == Some(result[j])
      {
        var child := ResolvePayloadValue(items[i], JoinPath(path, Itoa(i)), depth + 1);
        if child.None? {
          return None;
        }
        result := result + [child.value];
      }
      r := Some(Arr(result));
      assert Walk(Arr(items), path, depth, f).Some? && Walk(Arr(items), path, depth, f).value.items == result;
    }
  }

  method NormalizePlaceholdersValue(rules: Rules, v: Value, path: string, depth: nat) returns (r: Option<Value>)
    ensures r == Walk(v, path, depth, NormalizeText(rules))
    decreases v, 1
  {
    if depth > MAX_DEPTH {
      return None;
    }
    match v {
      case Obj(fields) => r := NormalizeFields(rules, fields, path, depth);
      case Arr(items) => r := NormalizeItems(rules, items, path, depth);
      case Str(s) =>
        var text := NormalizeText(rules)(path, s);
        r := if text.Some? then Some(Str(text.value)) else None;
      case _ => r := Some(v);
    }
  }

  method NormalizeFields(rules: Rules, fields: Fields, path: string, depth: nat) returns (r: Option<Value>)
    requires depth <= MAX_DEPTH
    ensures r == Walk(Obj(fields), path, depth, NormalizeText(rules))
    decreases Obj(fields), 0
  {
    hide JoinPath, NormalizeText, SortedKeys;
    var keys := SortedKeys(fields.Keys);
    var result: Fields := map[];
    for i := 0 to |keys|
      invariant forall k :: k in result <==> k in keys[..i]
      invariant forall k :: k in result ==>
                  k in fields && Walk(fields[k], JoinPath(path, k), depth + 1, NormalizeText(rules)) == Some(result[k])
    {
      var key := keys[i];
      assert key in keys && keys[..i + 1] == keys[..i] + [key];
      var child := NormalizePlaceholdersValue(rules, fields[key], JoinPath(path, key), depth + 1);
      if child.None? {
        FieldFails(Obj(fields), key, path, depth, NormalizeText(rules));
        return None;
      }
      result := result[key := child.value];
    }
    assert keys[..|keys|] == keys;
    assert result.Keys == fields.Keys;
    WalkOfFields(fields, result, path, depth, NormalizeText(rules));
    r := Some(Obj(result));
  }

  method NormalizeItems(rules: Rules, items: seq<Value>, path: string, depth: nat) returns (r: Option<Value>)
    requires depth <= MAX_DEPTH
    ensures r == Walk(Arr(items), path, depth, NormalizeText(rules))
    decreases Arr(items), 0
  {
    hide JoinPath, NormalizeText, Itoa;
    var result: seq<Value> := [];
    for i := 0 to |items|
      invariant |result| == i
      invariant forall j :: 0 <= j < i ==>
                  Walk(items[j], JoinPath(path, Itoa(j)), depth + 1, NormalizeText(rules)) == Some(result[j])
    {
      var child := NormalizePlaceholdersValue(rules, items[i], JoinPath(path, Itoa(i)), depth + 1);
      if child.None? {
        return None;
      }
      result := result + [child.value];
    }
    WalkOfItems(items, result, path, depth, NormalizeText(rules));
    r := Some(Arr(result));
  }

  lemma WalkOfFields(fields: Fields, result: Fields, path: string, depth: nat, f: Rewrite)
    requires depth <= MAX_DEPTH && result.Keys == fields.Keys
    requires forall k :: k in fields ==> Walk(fields[k], JoinPath(path, k), depth + 1, f) == Some(result[k])
    ensures Walk(Obj(fields), path, depth, f) == Some(Obj(result))
  {
    hide JoinPath;
    assert Walk(Obj(fields), path, depth, f).Some? && Walk(Obj(fields), path, depth, f).value.fields == result;
  }

  lemma WalkOfItems(items: seq<Value>, result: seq<Value>, path: string, depth: nat, f: Rewrite)
    requires depth <= MAX_DEPTH && |result| == |items|
    requires forall i :: 0 <= i < |items| ==> Walk(items[i], JoinPath(path, Itoa(i)), depth + 1, f) == Some(result[i])
    ensures Walk(Arr(items), path, depth, f) == Some(Arr(result))
  {
    hide JoinPath, Itoa;
    assert Walk(Arr(items), path, depth, f).Some? && Walk(Arr(items), path, depth, f).value.items == result;
  }

  /** The candidate and scope maps that the recursion fills. */
  class MaskCollector {
    const rules: Rules
    var found: Candidates

    constructor (rules: Rules)
      ensures this.rules == rules && found == Candidates(map[], map[])
    {
      this.rules, this.found := rules, Candidates(map[], map[]);
    }

    method CollectMaskCandidates(v: Value, path: string, depth: nat) returns (ok: bool)
      modifies this
      ensures ok <==> Collect(rules, v, path, old(found), depth).Some?
      ensures ok ==> Collect(rules, v, path, old(found), depth) == Some(found)
      decreases v, 1
    {
      if depth > MAX_DEPTH {
        return false;
      }
      match v {
        case Obj(fields) => ok := CollectKeys(fields, path, depth);
        case Arr(items) => ok := CollectElements(items, path, depth);
        case _ => ok := true;
      }
    }

    method CollectKeys(fields: Fields, path: string, depth: nat) returns (ok: bool)
      modifies this
      ensures ok <==> CollectFields(rules, fields, SortedKeys(fields.Keys), path, old(found), depth).Some?
      ensures ok ==> CollectFields(rules, fields, SortedKeys(fields.Keys), path, old(found), depth) == Some(found)
      decreases Obj(fields), 0
    {
      var keys := SortedKeys(fields.Keys);
      hide JoinPath, CandidateAt, Collect, SortedKeys;
      for i := 0 to |keys|
        invariant forall k :: k in keys[..i] ==> k in fields
        invariant CollectFields(rules, fields, keys[..i], path, old(found), depth) == Some(found)
      {
        var key := keys[i];
        assert key in keys && keys[..i + 1] == keys[..i] + [key] && keys[..i + 1][..i] == keys[..i];
        FieldsNeedPrefix(rules, fields, keys, i + 1, path, old(found), depth);
        var here := CandidateAt(rules, key, fields[key], JoinPath(path, key), found);
        if here.None? {
          return false;
        }
        found := here.value;
        var more := CollectMaskCandidates(fields[key], JoinPath(path, key), depth + 1);
        if !more {
          return false;
        }
      }
      assert keys[..|keys|] == keys;
      ok := true;
    }

    method CollectElements(items: seq<Value>, path: string, depth: nat) returns (ok: bool)
      modifies this
      ensures ok <==> CollectItems(rules, items, |items|, path, old(found), depth).Some?
      ensures ok ==> CollectItems(rules, items, |items|, path, old(found), depth) == Some(found)
      decreases Arr(items), 0
    {
      hide JoinPath, Collect, Itoa;
      for i := 0 to |items|
        invariant CollectItems(rules, items, i, path, old(found), depth) == Some(found)
      {
        ItemsNeedPrefix(rules, items, i + 1, path, old(found), depth);
        var more := CollectMaskCandidates(items[i], JoinPath(path, Itoa(i)), depth + 1);
        if !more {
          return false;
        }
      }
      ok := true;
    }
  }

  lemma {:induction false} FieldsNeedPrefix(rules: Rules, fields: Fields, keys: seq<string>, i: nat, path: string, c: Candidates, depth: nat)
    requires i <= |keys| && forall k :: k in keys ==> k in fields
    ensures CollectFields(rules, fields, keys, path, c, depth).Some? ==> CollectFields(rules, fields, keys[..i], path, c, depth).Some?
    decreases |keys|
  {
    hide JoinPath, CandidateAt, Collect;
    if i < |keys| {
      FieldsNeedPrefix(rules, fields, keys[..|keys| - 1], i, path, c, depth);
      assert keys[..|keys| - 1][..i] == keys[..i];
    } else {
      assert keys[..i] == keys;
    }
  }

  lemma {:induction false} ItemsNeedPrefix(rules: Rules, items: seq<Value>, i: nat, path: string, c: Candidates, depth: nat)
    requires i <= |items|
    ensures CollectItems(rules, items, |items|, path, c, depth).Some? ==> CollectItems(rules, items, i, path, c, depth).Some?
  {
    ItemsNeedPrefixUpTo(rules, items, i, |items|, path, c, depth);
  }

  lemma {:induction false} ItemsNeedPrefixUpTo(rules: Rules, items: seq<Value>, i: nat, n: nat, path: string, c: Candidates, depth: nat)
    requires i <= n <= |items|
    ensures CollectItems(rules, items, n, path, c, depth).Some? ==> CollectItems(rules, items, i, path, c, depth).Some?
    decreases n
  {
    hide JoinPath, Collect, Itoa;
    if i < n {
      ItemsNeedPrefixUpTo(rules, items, i, n - 1, path, c, depth);
    }
  }

  /** applyMask: fills fresh containers. */
  method MaskValue(rules: Rules, v: Value, path: string, values: map<string, string>, depth: nat) returns (r: Option<Value>)
    ensures r == ApplyMask(rules, v, path, values, depth)
    decreases v, 1
  {
    if depth > MAX_DEPTH {
      return None;
    }
    match v {
      case Obj(fields) => r := MaskFields(rules, fields, path, values, depth);
      case Arr(items) => r := MaskItems(rules, items, path, values, depth);
      case _ => r := Some(v);
    }
  }

  method MaskFields(rules: Rules, fields: Fields, path: string, values: map<string, string>, depth: nat) returns (r: Option<Value>)
    requires depth <= MAX_DEPTH
    ensures r == ApplyMask(rules, Obj(fields), path, values, depth)
    decreases Obj(fields), 0
  {
    hide JoinPath, ParsePlaceholder, SortedKeys;
    var keys := SortedKeys(fields.Keys);
    var result: Fields := map[];
    for i := 0 to |keys|
      invariant forall k :: k in result <==> k in keys[..i]
      invariant forall k :: k in result ==> k in fields && MaskField(rules, fields, k, path, values, depth) == Some(result[k])
    {
      var key := keys[i];
      assert key in keys && keys[..i + 1] == keys[..i] + [key];
      var here, field := JoinPath(path, key), fields[key];
      var child: Option<Value>;
      if here in values && field.Str? && !ParsePlaceholder(rules, field.s).Current? && !ParsePlaceholder(rules, field.s).Explicit? {
        child := if ParsePlaceholder(rules, field.s).Malformed? then None else Some(Str(CURRENT_SCOPE));
      } else {
        child := MaskValue(rules, field, here, values, depth + 1);
      }
      assert child == MaskField(rules, fields, key, path, values, depth);
      if child.None? {
        return None;
      }
      result := result[key := child.value];
    }
    assert keys[..|keys|] == keys;
    r := Some(Obj(result));
    assert result.Keys == fields.Keys;
    MaskOfFields(rules, fields, result, path, values, depth);
  }

  method MaskItems(rules: Rules, items: seq<Value>, path: string, values: map<string, string>, depth: nat) returns (r: Option<Value>)
    requires depth <= MAX_DEPTH
    ensures r == ApplyMask(rules, Arr(items), path, values, depth)
    decreases Arr(items), 0
  {
    hide JoinPath, Itoa, MaskField;
    var result: seq<Value> := [];
    for i := 0 to |items|
      invariant |result| == i
      invariant forall j :: 0 <= j < i ==> ApplyMask(rules, items[j], JoinPath(path, Itoa(j)), values, depth + 1) == Some(result[j])
    {
      var child := MaskValue(rules, items[i], JoinPath(path, Itoa(i)), values, depth + 1);
      if child.None? {
        return None;
      }
      result := result + [child.value];
    }
    r := Some(Arr(result));
    assert ApplyMask(rules, Arr(items), path, values, depth).Some?;
    assert ApplyMask(rules, Arr(items), path, values, depth).value.items == result;
  }

  lemma MaskOfFields(rules: Rules, fields: Fields, result: Fields, path: string, values: map<string, string>, depth: nat)
    requires depth <= MAX_DEPTH && result.Keys == fields.Keys
    requires forall k :: k in fields ==> MaskField(rules, fields, k, path, values, depth) == Some(result[k])
    ensures ApplyMask(rules, Obj(fields), path, values, depth) == Some(Obj(result))
  {
    hide JoinPath, MaskField;
    assert ApplyMask(rules, Obj(fields), path, values, depth).Some?;
    assert ApplyMask(rules, Obj(fields), path, values, depth).value.fields == result;
  }

  /** The set of paths that detection fills. */
  class DetectionCollector {
    const rules: Rules
    var found: set<string>

    constructor (rules: Rules)
      ensures this.rules == rules && found == {}
    {
      this.rules, this.found := rules, {};
    }

    method CollectDetectedCandidates(v: Value, path: string, depth: nat) returns (ok: bool)
      modifies this
      ensures ok <==> Detect(rules, v, path, old(found), depth).Some?
      ensures ok ==> Detect(rules, v, path, old(found), depth) == Some(found)
      decreases v, 1
    {
      if depth > MAX_DEPTH {
        return false;
      }
      match v {
        case Obj(fields) => ok := DetectKeys(fields, path, depth);
        case Arr(items) => ok := DetectElements(items, path, depth);
        case _ => ok := true;
      }
    }

    method DetectKeys(fields: Fields, path: string, depth: nat) returns (ok: bool)
      modifies this
      ensures ok <==> DetectFields(rules, fields, SortedKeys(fields.Keys), path, old(found), depth).Some?
      ensures ok ==> DetectFields(rules, fields, SortedKeys(fields.Keys), path, old(found), depth) == Some(found)
      decreases Obj(fields), 0
    {
      var keys := SortedKeys(fields.Keys);
      hide JoinPath, DetectField, Detect, SortedKeys;
      for i := 0 to |keys|
        invariant forall k :: k in keys[..i] ==> k in fields
        invariant DetectFields(rules, fields, keys[..i], path, old(found), depth) == Some(found)
      {
        var key := keys[i];
        assert key in keys && keys[..i + 1] == keys[..i] + [key] && keys[..i + 1][..i] == keys[..i];
        DetectFieldsNeedPrefix(rules, fields, keys, i + 1, path, old(found), depth);
        var here := DetectField(rules, key, fields[key], JoinPath(path, key));
        if here.None? {
          return false;
        }
        found := found + here.value;
        var more := CollectDetectedCandidates(fields[key], JoinPath(path, key), depth + 1);
        if !more {
          return false;
        }
      }
      assert keys[..|keys|] == keys;
      ok := true;
    }

    method DetectElements(items: seq<Value>, path: string, depth: nat) returns (ok: bool)
      modifies this
      ensures ok <==> DetectItems(rules, items, |items|, path, old(found), depth).Some?
      ensures ok ==> DetectItems(rules, items, |items|, path, old(found), depth) == Some(found)
      decreases Arr(items), 0
    {
      hide JoinPath, Detect, Itoa;
      for i := 0 to |items|
        invariant DetectItems(rules, items, i, path, old(found), depth) == Some(found)
      {
        DetectItemsNeedPrefix(rules, items, i + 1, |items|, path, old(found), depth);
        var more := CollectDetectedCandidates(items[i], JoinPath(path, Itoa(i)), depth + 1);
        if !more {
          return false;
        }
      }
      ok := true;
    }
  }

  lemma {:induction false} DetectFieldsNeedPrefix(rules: Rules, fields: Fields, keys: seq<string>, i: nat, path: string,
                                                  found: set<string>, depth: nat)
    requires i <= |keys| && forall k :: k in keys ==> k in fields
    ensures DetectFields(rules, fields, keys, path, found, depth).Some? ==>
              DetectFields(rules, fields, keys[..i], path, found, depth).Some?
    decreases |keys|
  {
    hide JoinPath, DetectField, Detect;
    if i < |keys| {
      DetectFieldsNeedPrefix(rules, fields, keys[..|keys| - 1], i, path, found, depth);
      assert keys[..|keys| - 1][..i] == keys[..i];
    } else {
      assert keys[..i] == keys;
    }
  }

  lemma {:induction false} DetectItemsNeedPrefix(rules: Rules, items: seq<Value>, i: nat, n: nat, path: string,
                                                 found: set<string>, depth: nat)
    requires i <= n <= |items|
    ensures DetectItems(rules, items, n, path, found, depth).Some? ==> DetectItems(rules, items, i, path, found, depth).Some?
    decreases n
  {
    hide JoinPath, Detect, Itoa;
    if i < n {
      DetectItemsNeedPrefix(rules, items, i, n - 1, path, found, depth);
    }
  }

  // ----- the store before and after masking -----

  /** A string of the payload is a placeholder for the store key. */
  ghost predicate Refers(rules: Rules, resource: string, v: Value, path: string, key: string) {
    match v
    case Obj(fields) => exists k :: k in fields && Refers(rules, resource, fields[k], JoinPath(path, k), key)
    case Arr(items) => exists i :: 0 <= i < |items| && Refers(rules, resource, items[i], JoinPath(path, Itoa(i)), key)
    case Str(s) => TextRefers(rules, resource, s, path, key)
    case _ => false
  }

  ghost predicate TextRefers(rules: Rules, resource: string, s: string, path: string, key: string) {
    var p := ParsePlaceholder(rules, s);
    !p.Plain? && Attribute(p, path).Some? && StoreKey(resource, Attribute(p, path).value) == key
  }

  /** Every key that the payload refers to has the same secret in both stores. */
  ghost predicate SameSecrets(rules: Rules, resource: string, v: Value, path: string, a: map<string, string>, b: map<string, string>) {
    forall key :: Refers(rules, resource, v, path, key) ==> key in a && key in b && a[key] == b[key]
  }

  lemma SameSecretsChild(rules: Rules, resource: string, v: Value, path: string, a: map<string, string>, b: map<string, string>)
    ensures v.Obj? ==> (SameSecrets(rules, resource, v, path, a, b) <==>
                        forall k :: k in v.fields ==> SameSecrets(rules, resource, v.fields[k], JoinPath(path, k), a, b))
    ensures v.Arr? ==> (SameSecrets(rules, resource, v, path, a, b) <==>
                        forall i :: 0 <= i < |v.items| ==> SameSecrets(rules, resource, v.items[i], JoinPath(path, Itoa(i)), a, b))
  {
    hide JoinPath, Itoa, TextRefers;
    if v.Obj? && SameSecrets(rules, resource, v, path, a, b) {
      forall k | k in v.fields
        ensures SameSecrets(rules, resource, v.fields[k], JoinPath(path, k), a, b)
      {
        forall key | Refers(rules, resource, v.fields[k], JoinPath(path, k), key)
          ensures key in a && key in b && a[key] == b[key]
        {
          assert Refers(rules, resource, v, path, key);
        }
      }
    }
    if v.Arr? && SameSecrets(rules, resource, v, path, a, b) {
      forall i | 0 <= i < |v.items|
        ensures SameSecrets(rules, resource, v.items[i], JoinPath(path, Itoa(i)), a, b)
      {
        forall key | Refers(rules, resource, v.items[i], JoinPath(path, Itoa(i)), key)
          ensures key in a && key in b && a[key] == b[key]
        {
          assert Refers(rules, resource, v, path, key);
        }
      }
    }
  }

  /** What resolves under one store resolves to the same under another exactly when the keys that it
      refers to have the same secrets there. */
  lemma {:induction false} ResolvesSameIff(rules: Rules, resource: string, v: Value, path: string, depth: nat,
                                           a: map<string, string>, b: map<string, string>)
    requires Walk(v, path, depth, ResolveText(rules, resource, a)).Some?
    ensures Walk(v, path, depth, ResolveText(rules, resource, b)) == Walk(v, path, depth, ResolveText(rules, resource, a)) <==>
              SameSecrets(rules, resource, v, path, a, b)
    decreases v
  {
    var f, g := ResolveText(rules, resource, a), ResolveText(rules, resource, b);
    SameSecretsChild(rules, resource, v, path, a, b);
    match v
    case Obj(fields) =>
      hide JoinPath, ResolveText, SameSecrets;
      forall k | k in fields
        ensures Walk(fields[k], JoinPath(path, k), depth + 1, g) == Walk(fields[k], JoinPath(path, k), depth + 1, f) <==>
                  SameSecrets(rules, resource, fields[k], JoinPath(path, k), a, b)
      {
        ResolvesSameIff(rules, resource, fields[k], JoinPath(path, k), depth + 1, a, b);
      }
      WalkFieldsSameIff(fields, path, depth, f, g);
    case Arr(items) =>
      hide JoinPath, ResolveText, SameSecrets, Itoa;
      forall i | 0 <= i < |items|
        ensures Walk(items[i], JoinPath(path, Itoa(i)), depth + 1, g) == Walk(items[i], JoinPath(path, Itoa(i)), depth + 1, f) <==>
                  SameSecrets(rules, resource, items[i], JoinPath(path, Itoa(i)), a, b)
      {
        ResolvesSameIff(rules, resource, items[i], JoinPath(path, Itoa(i)), depth + 1, a, b);
      }
      WalkItemsSameIff(items, path, depth, f, g);
    case Str(s) => TextSameIff(rules, resource, s, path, a, b);
    case _ =>
  }

  lemma WalkFieldsSameIff(fields: Fields, path: string, depth: nat, f: Rewrite, g: Rewrite)
    requires Walk(Obj(fields), path, depth, f).Some?
    ensures Walk(Obj(fields), path, depth, g) == Walk(Obj(fields), path, depth, f) <==>
              forall k :: k in fields ==> Walk(fields[k], JoinPath(path, k), depth + 1, g) == Walk(fields[k], JoinPath(path, k), depth + 1, f)
  {
    hide JoinPath;
    var w := Walk(Obj(fields), path, depth, f).value.fields;
    if Walk(Obj(fields), path, depth, g) == Some(Obj(w)) {
      assert forall k :: k in fields ==> Walk(fields[k], JoinPath(path, k), depth + 1, g).value == w[k];
    } else if forall k :: k in fields ==> Walk(fields[k], JoinPath(path, k), depth + 1, g) == Walk(fields[k], JoinPath(path, k), depth + 1, f) {
      WalkOfFields(fields, w, path, depth, g);
    }
  }

  lemma WalkItemsSameIff(items: seq<Value>, path: string, depth: nat, f: Rewrite, g: Rewrite)
    requires Walk(Arr(items), path, depth, f).Some?
    ensures Walk(Arr(items), path, depth, g) == Walk(Arr(items), path, depth, f) <==>
              forall i :: 0 <= i < |items| ==>
                Walk(items[i], JoinPath(path, Itoa(i)), depth + 1, g) == Walk(items[i], JoinPath(path, Itoa(i)), depth + 1, f)
  {
    hide JoinPath, Itoa;
    var w := Walk(Arr(items), path, depth, f).value.items;
    if Walk(Arr(items), path, depth, g) == Some(Arr(w)) {
      assert forall i :: 0 <= i < |items| ==> Walk(items[i], JoinPath(path, Itoa(i)), depth + 1, g).value == w[i];
    } else if forall i :: 0 <= i < |items| ==>
                Walk(items[i], JoinPath(path, Itoa(i)), depth + 1, g) == Walk(items[i], JoinPath(path, Itoa(i)), depth + 1, f) {
      WalkOfItems(items, w, path, depth, g);
    }
  }

  lemma TextSameIff(rules: Rules, resource: string, s: string, path: string, a: map<string, string>, b: map<string, string>)
    requires ResolveText(rules, resource, a)(path, s).Some?
    ensures ResolveText(rules, resource, b)(path, s) == ResolveText(rules, resource, a)(path, s) <==>
              SameSecrets(rules, resource, Str(s), path, a, b)
  {
    hide ParsePlaceholder, Attribute, StoreKey;
    var p := ParsePlaceholder(rules, s);
    if !p.Plain? {
      var key := StoreKey(resource, Attribute(p, path).value);
      assert Refers(rules, resource, Str(s), path, key);
    }
  }

  /** What does not resolve under a store does not resolve under one with fewer keys. */
  lemma {:induction false} FailsWithFewer(rules: Rules, resource: string, v: Value, path: string, depth: nat,
                                          a: map<string, string>, b: map<string, string>)
    requires b.Keys <= a.Keys && Walk(v, path, depth, ResolveText(rules, resource, a)).None?
    ensures Walk(v, path, depth, ResolveText(rules, resource, b)).None?
    decreases v
  {
    hide JoinPath, Itoa, ParsePlaceholder, Attribute, StoreKey;
    match v
    case Obj(fields) =>
      if depth <= MAX_DEPTH {
        var k :| k in fields && Walk(fields[k], JoinPath(path, k), depth + 1, ResolveText(rules, resource, a)).None?;
        FailsWithFewer(rules, resource, fields[k], JoinPath(path, k), depth + 1, a, b);
      }
    case Arr(items) =>
      if depth <= MAX_DEPTH {
        var i :| 0 <= i < |items| && Walk(items[i], JoinPath(path, Itoa(i)), depth + 1, ResolveText(rules, resource, a)).None?;
        FailsWithFewer(rules, resource, items[i], JoinPath(path, Itoa(i)), depth + 1, a, b);
      }
    case _ =>
  }

  /** The store after the values have been stored. */
  ghost predicate StoredOver(resource: string, values: map<string, string>, before: map<string, string>, after: map<string, string>) {
    InStore(resource, values, after) &&
    forall key :: (forall k :: k in values ==> StoreKey(resource, k) != key) ==>
      (key in after <==> key in before) && (key in after ==> after[key] == before[key])
  }

  /** No placeholder of the payload refers to a masked attribute whose secret was missing or another
      one before. */
  ghost predicate NoClash(rules: Rules, v: Value, resource: string, values: map<string, string>, before: map<string, string>) {
    forall p :: p in values && Refers(rules, resource, v, "", StoreKey(resource, p)) ==>
      StoreKey(resource, p) in before && before[StoreKey(resource, p)] == values[p]
  }

  /** The payload resolves after masking to what it resolved to before, exactly when it does not
      resolve at all or no placeholder clashes with a masked value. */
  lemma MaskedStoreIff(rules: Rules, v: Value, resource: string, values: map<string, string>,
                       before: map<string, string>, after: map<string, string>)
    requires StoredOver(resource, values, before, after)
    ensures Resolve(rules, v, resource, after) == Resolve(rules, v, resource, before) <==>
              Resolve(rules, v, resource, after).None? || NoClash(rules, v, resource, values, before)
  {
    hide StoreKey, Walk, ResolveText, Refers, StoredOver, NoClash, SameSecrets;
    if Resolve(rules, v, resource, after).None? {
      KeysStay(resource, values, before, after);
      FailsWithFewer(rules, resource, v, "", 0, after, before);
    } else {
      ResolvesSameIff(rules, resource, v, "", 0, after, before);
      AllReferencesStored(rules, resource, v, "", 0, after);
      SameSecretsIffNoClash(rules, v, resource, values, before, after);
    }
  }

  lemma KeysStay(resource: string, values: map<string, string>, before: map<string, string>, after: map<string, string>)
    requires StoredOver(resource, values, before, after)
    ensures before.Keys <= after.Keys
  {
    hide StoreKey;
    forall key | key in before
      ensures key in after
    {
      if p :| p in values && StoreKey(resource, p) == key {
      }
    }
  }

  lemma SameSecretsIffNoClash(rules: Rules, v: Value, resource: string, values: map<string, string>,
                              before: map<string, string>, after: map<string, string>)
    requires StoredOver(resource, values, before, after)
    requires forall key :: Refers(rules, resource, v, "", key) ==> key in after
    ensures SameSecrets(rules, resource, v, "", after, before) <==> NoClash(rules, v, resource, values, before)
  {
    hide StoreKey, Refers;
    if NoClash(rules, v, resource, values, before) {
      forall key | Refers(rules, resource, v, "", key)
        ensures key in after && key in before && after[key] == before[key]
      {
        if p :| p in values && StoreKey(resource, p) == key {
        }
      }
    }
  }

  /** What resolves refers to stored keys only. */
  lemma {:induction false} AllReferencesStored(rules: Rules, resource: string, v: Value, path: string, depth: nat, store: map<string, string>)
    requires Walk(v, path, depth, ResolveText(rules, resource, store)).Some?
    ensures forall key :: Refers(rules, resource, v, path, key) ==> key in store
  {
    ResolvesSameIff(rules, resource, v, path, depth, store, store);
  }

  /** Keys that differ in surrounding white space share an attribute: a placeholder under one refers
      to the value masked under the other. */
  lemma SharedAttribute(rules: Rules, resource: string, fields: Fields, j: string, k: string)
    requires j in fields && fields[j] == Str(CURRENT_SCOPE) && TrimSpace(j) == TrimSpace(k) != ""
    ensures Refers(rules, resource, Obj(fields), "", StoreKey(resource, JoinPath("", k)))
  {
    hide StoreKey, TrimSpace, TextRefers, JoinPath;
    SameJoin("", j, k);
    JoinWellFormed("", k);
    CurrentRefers(rules, resource, JoinPath("", k));
    assert Refers(rules, resource, fields[j], JoinPath("", j), StoreKey(resource, JoinPath("", k)));
  }

  lemma SameJoin(prefix: string, j: string, k: string)
    requires TrimSpace(j) == TrimSpace(k) != ""
    ensures JoinPath(prefix, j) == JoinPath(prefix, k) != ""
  {
    hide TrimSpace, JsonPointer.EscapeToken;
  }

  lemma CurrentRefers(rules: Rules, resource: string, path: string)
    requires WellFormed(path) && path != ""
    ensures TextRefers(rules, resource, CURRENT_SCOPE, path, StoreKey(resource, path))
  {
    hide StoreKey, TrimSpace, ParsePlaceholder, WellFormed;
    ParseCurrentScope(rules);
    WellFormedTrimmed(path);
  }

  /** A blank key does not count as a step: what lies below it has the paths of the root. */
  lemma BlankKeyShares(rules: Rules, resource: string, fields: Fields, blank: string, key: string)
    requires blank in fields && TrimSpace(blank) == "" && Refers(rules, resource, fields[blank], "", key)
    ensures Refers(rules, resource, Obj(fields), "", key)
  {
    assert JoinPath("", blank) == "";
  }

  /** The payload of a plain value under k and a placeholder under j, which differ in surrounding
      white space. */
  function Aliased(j: string, k: string, x: string): Value {
    Obj(map[j := Str(CURRENT_SCOPE), k := Str(x)])
  }

  lemma AliasedKeys(rules: Rules, j: string, k: string, x: string)
    requires Lawful(rules) && rules.likelyKey(k) && ParsePlaceholder(rules, x).Plain? && j != k && TrimSpace(j) == TrimSpace(k)
    ensures var here := JoinPath("", k);
            here != "" && WellFormed(here) && JoinPath("", j) == here && rules.likelyKey(j) &&
            ParsePlaceholder(rules, CURRENT_SCOPE) == Current
  {
    hide TrimSpace, ParsePlaceholder, JoinPath, WellFormed, Lawful;
    LikelyKeyHasText(rules, k);
    LikelyKeyTrims(rules, k, j);
    SameJoin("", j, k);
    assert WellFormed("") by { EmptyWellFormed(); }
    JoinWellFormed("", k);
    ParseCurrentScope(rules);
  }

  lemma TwoKeys(j: string, k: string, x: string)
    requires j != k
    ensures var keys := SortedKeys(Aliased(j, k, x).fields.Keys); keys == [j, k] || keys == [k, j]
  {
    hide SortedKeys;
    var keys := SortedKeys(Aliased(j, k, x).fields.Keys);
    assert Aliased(j, k, x).fields.Keys == {j, k};
    assert |keys| == 2 && keys[0] in keys && keys[1] in keys && j in keys && k in keys;
  }

  lemma EmptyWellFormed()
    ensures WellFormed("")
  {
  }

  /** Only the plain value is a candidate. */
  lemma AliasedCandidates(rules: Rules, j: string, k: string, x: string)
    requires Lawful(rules) && rules.likelyKey(k) && ParsePlaceholder(rules, x).Plain? && j != k && TrimSpace(j) == TrimSpace(k)
    ensures Collect(rules, Aliased(j, k, x), "", Candidates(map[], map[]), 0) ==
            Some(Candidates(map[JoinPath("", k) := x], map[k := JoinPath("", k)]))
  {
    hide TrimSpace, ParsePlaceholder, JoinPath, WellFormed, Lawful, SortedKeys;
    AliasedKeys(rules, j, k, x);
    TwoKeys(j, k, x);
    var fields := Aliased(j, k, x).fields;
    var keys := SortedKeys(fields.Keys);
    var none := Candidates(map[], map[]);
    assert keys[..1] == [keys[0]] && [keys[0]][..0] == [];
    assert CollectFields(rules, fields, [], "", none, 0) == Some(none);
    var all := Candidates(map[JoinPath("", k) := x], map[k := JoinPath("", k)]);
    assert CollectFields(rules, fields, [keys[0]], "", none, 0) == Some(if keys[0] == k then all else none);
    assert CollectFields(rules, fields, keys, "", none, 0) == Some(all);
  }

  /** Before masking, the placeholder stands for the secret that the store has under that attribute,
      if any; afterwards it stands for the masked value. */
  lemma AliasedChanges(rules: Rules, resource: string, j: string, k: string, x: string,
                       before: map<string, string>, after: map<string, string>)
    requires Lawful(rules) && rules.likelyKey(k) && ParsePlaceholder(rules, x).Plain? && j != k && TrimSpace(j) == TrimSpace(k)
    requires StoredOver(resource, map[JoinPath("", k) := x], before, after)
    requires StoreKey(resource, JoinPath("", k)) !in before || before[StoreKey(resource, JoinPath("", k))] != x
    ensures Mask(rules, Aliased(j, k, x)).Some? && Mask(rules, Aliased(j, k, x)).value.1 == map[JoinPath("", k) := x]
    ensures Resolve(rules, Aliased(j, k, x), resource, after) != Resolve(rules, Aliased(j, k, x), resource, before)
  {
    hide TrimSpace, ParsePlaceholder, JoinPath, WellFormed, Lawful, StoreKey, Collect, ApplyMask, StoredOver, NoClash, Refers;
    var v, here := Aliased(j, k, x), JoinPath("", k);
    var values := map[here := x];
    AliasedKeys(rules, j, k, x);
    AliasedCandidates(rules, j, k, x);
    MaskingInvisible(rules, v, resource, after);
    LikelyKeyHasText(rules, k);
    SharedAttribute(rules, resource, v.fields, j, k);
    AliasedResolves(rules, resource, j, k, x, before, after);
    MaskedStoreIff(rules, v, resource, values, before, after);
    assert !NoClash(rules, v, resource, values, before) by { Clashes(rules, v, resource, here, x, before); }
  }

  lemma Clashes(rules: Rules, v: Value, resource: string, here: string, x: string, before: map<string, string>)
    requires Refers(rules, resource, v, "", StoreKey(resource, here))
    requires StoreKey(resource, here) !in before || before[StoreKey(resource, here)] != x
    ensures !NoClash(rules, v, resource, map[here := x], before)
  {
    hide Refers, StoreKey;
    assert here in map[here := x];
  }

  lemma AliasedResolves(rules: Rules, resource: string, j: string, k: string, x: string,
                        before: map<string, string>, after: map<string, string>)
    requires Lawful(rules) && rules.likelyKey(k) && ParsePlaceholder(rules, x).Plain? && j != k && TrimSpace(j) == TrimSpace(k)
    requires StoredOver(resource, map[JoinPath("", k) := x], before, after)
    ensures Resolve(rules, Aliased(j, k, x), resource, after).Some?
  {
    hide TrimSpace, ParsePlaceholder, JoinPath, WellFormed, Lawful, StoreKey, ResolveText, InStore, Walk;
    AliasedKeys(rules, j, k, x);
    var here := JoinPath("", k);
    var values := map[here := x];
    assert here in values && values[here] == x;
    assert InStore(resource, values, after);
    hide StoredOver;
    MaskedTextResolves(rules, here, resource, values, after);
    PlainResolves(rules, here, x, resource, after);
    var f := ResolveText(rules, resource, after);
    WalkOfText(CURRENT_SCOPE, x, here, 1, f);
    WalkOfText(x, x, here, 1, f);
    var fields, result := Aliased(j, k, x).fields, map[j := Str(x), k := Str(x)];
    assert fields.Keys == result.Keys && fields[j] == Str(CURRENT_SCOPE) && fields[k] == Str(x);
    hide Aliased;
    WalkOfFields(fields, result, "", 0, f);
    assert Aliased(j, k, x) == Obj(fields);
  }

  lemma WalkOfText(s: string, t: string, path: string, depth: nat, f: Rewrite)
    requires depth <= MAX_DEPTH && f(path, s) == Some(t)
    ensures Walk(Str(s), path, depth, f) == Some(Str(t))
  {
  }

  /** The secret store of one resource, and which of the next writes fail. */
  class SecretStore {
    var secrets: map<string, string>
    var faults: seq<bool>

    constructor (faults: seq<bool>)
      ensures secrets == map[] && this.faults == faults
    {
      this.secrets, this.faults := map[], faults;
    }

    method Store(key: string, value: string) returns (ok: bool)
      modifies this
      ensures ok <==> old(faults) == [] || !old(faults)[0]
      ensures secrets == if ok then old(secrets)[key := value] else old(secrets)
      ensures faults == if old(faults) == [] then [] else old(faults)[1..]
    {
      ok := faults == [] || !faults[0];
      if ok {
        secrets := secrets[key := value];
      }
      faults := if faults == [] then [] else faults[1..];
    }
  }

  /** The values under the first n keys. */
  function FirstValues(values: map<string, string>, n: nat): map<string, string>
    requires n <= |values|
  {
    var keys := SortedKeys(values.Keys);
    map k | k in keys[..n] :: values[k]
  }

  lemma StoredOneMore(resource: string, values: map<string, string>, key: string, value: string,
                      before: map<string, string>, after: map<string, string>)
    requires StoredOver(resource, values, before, after)
    ensures StoredOver(resource, values[key := value], before, after[StoreKey(resource, key) := value])
  {
    hide StoreKey;
    var more, next := values[key := value], after[StoreKey(resource, key) := value];
    forall k | k in more
      ensures StoreKey(resource, k) in next && next[StoreKey(resource, k)] == more[k]
    {
      StoreKeyInjective(resource, k, key);
    }
    forall other | forall k :: k in more ==> StoreKey(resource, k) != other
      ensures (other in next <==> other in before) && (other in next ==> next[other] == before[other])
    {
      assert key in more && forall k :: k in values ==> k in more;
    }
  }

  lemma FirstValuesNext(values: map<string, string>, i: nat)
    requires i < |values|
    ensures var key := SortedKeys(values.Keys)[i];
            key in values && FirstValues(values, i + 1) == FirstValues(values, i)[key := values[key]]
  {
    hide SortedKeys;
    var keys := SortedKeys(values.Keys);
    assert keys[i] in keys && keys[..i + 1] == keys[..i] + [keys[i]];
  }

  /** Stores the collected values in key order; every other secret stays as it was. A fault of the
      store ends it, and then the values of the first keys have been stored. */
  method StoreAll(store: SecretStore, resource: string, values: map<string, string>) returns (ok: bool)
    modifies store
    ensures old(store.faults) == [] ==> ok
    ensures ok ==> StoredOver(resource, values, old(store.secrets), store.secrets)
    ensures !ok ==> exists n :: 0 <= n < |values| && StoredOver(resource, FirstValues(values, n), old(store.secrets), store.secrets)
  {
    var keys := SortedKeys(values.Keys);
    hide StoreKey, SortedKeys, StoredOver;
    assert StoredOver(resource, FirstValues(values, 0), store.secrets, store.secrets) by { NothingStored(resource, values, store.secrets); }
    for i := 0 to |keys|
      invariant old(store.faults) == [] ==> store.faults == []
      invariant StoredOver(resource, FirstValues(values, i), old(store.secrets), store.secrets)
    {
      FirstValuesNext(values, i);
      StoredOneMore(resource, FirstValues(values, i), keys[i], values[keys[i]], old(store.secrets), store.secrets);
      ok := store.Store(StoreKey(resource, keys[i]), values[keys[i]]);
      if !ok {
        return false;
      }
    }
    assert FirstValues(values, |values|) == values by { AllValues(values); }
    ok := true;
  }

  lemma NothingStored(resource: string, values: map<string, string>, store: map<string, string>)
    ensures StoredOver(resource, FirstValues(values, 0), store, store)
  {
  }

  lemma AllValues(values: map<string, string>)
    ensures FirstValues(values, |values|) == values
  {
    hide SortedKeys;
    var keys := SortedKeys(values.Keys);
    assert keys[..|keys|] == keys;
  }

  /** Collects the candidates, stores each of them, and returns the masked payload. */
  method MaskPayload(rules: Rules, v: Value, store: SecretStore, resource: string) returns (r: Option<Value>)
    requires Lawful(rules)
    modifies store
    ensures r.Some? ==> Mask(rules, v).Some?
    ensures old(store.faults) == [] && Mask(rules, v).Some? ==> r.Some?
    ensures Mask(rules, v).None? ==> store.secrets == old(store.secrets)
    ensures Mask(rules, v).Some? && r.None? ==>
              exists n :: 0 <= n < |Mask(rules, v).value.1| &&
                          StoredOver(resource, FirstValues(Mask(rules, v).value.1, n), old(store.secrets), store.secrets)
    ensures r.Some? ==> r.value == Mask(rules, v).value.0
    ensures r.Some? ==> StoredOver(resource, Mask(rules, v).value.1, old(store.secrets), store.secrets)
    ensures r.Some? ==> Resolve(rules, r.value, resource, store.secrets) == Resolve(rules, v, resource, store.secrets)
    ensures r.Some? ==>
              (Resolve(rules, r.value, resource, store.secrets) == Resolve(rules, v, resource, old(store.secrets)) <==>
               Resolve(rules, v, resource, store.secrets).None? ||
               NoClash(rules, v, resource, Mask(rules, v).value.1, old(store.secrets)))
  {
    hide StoreKey, Collect, ApplyMask, Resolve, Lawful, InStore, NoClash, FirstValues;
    var collector := new MaskCollector(rules);
    var ok := collector.CollectMaskCandidates(v, "", 0);
    if !ok {
      return None;
    }
    var values := collector.found.values;
    MaskingInvisible(rules, v, resource, store.secrets);
    var stored := StoreAll(store, resource, values);
    if !stored {
      return None;
    }
    MaskingInvisible(rules, v, resource, store.secrets);
    MaskedStoreIff(rules, v, resource, values, old(store.secrets), store.secrets);
    r := MaskValue(rules, v, "", values, 0);
  }

  lemma StoreKeyInjective(resource: string, a: string, b: string)
    ensures StoreKey(resource, a) == StoreKey(resource, b) ==> a == b
  {
    hide TrimSpace;
    var front := TrimSpace(resource) + ":";
    assert (front + a)[|front|..] == a && (front + b)[|front|..] == b;
  }
}

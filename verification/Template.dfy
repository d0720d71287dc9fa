/** Identity templates: compiling, rendering and the reported pointers
    (metadata/identitytemplate/template.go). */
module Template {
  import opened Payload
  import opened Text
  import opened JsonPointer

  datatype Token = Token(text: string, quoted: bool)

  datatype Node =
    | Literal(value: string)
    | Pointer(pointer: string)
    | Helper(name: string, args: seq<Node>)

  datatype Piece = Plain(text: string) | Expression(node: Node)

  datatype Compiled = Compiled(pieces: seq<Piece>, pointers: seq<string>)

  // ----- tokens -----

  predicate IsBlank(c: char) {
    c == ' ' || c == '\t' || c == '\n' || c == '\r'
  }

  predicate IsQuote(c: char) {
    c == '"' || c == '\''
  }

  /** The tokens still to come: the token read so far, the open quote, whether a quote was seen
      since the last token, and whether the next character is escaped. An empty quoted string is
      no token, and leaves its mark on the next one. */
  function Scan(s: string, current: string, quote: Option<char>, quoted: bool, escaped: bool): Option<seq<Token>>
    decreases |s|
  {
    if s == [] then
      if escaped || quote.Some? then None else Some(if current == "" then [] else [Token(current, quoted)])
    else if quote.Some? then
      if escaped then Scan(s[1..], current + [s[0]], quote, quoted, false)
      else if s[0] == '\\' then Scan(s[1..], current, quote, quoted, true)
      else if s[0] == quote.value then Scan(s[1..], current, None, quoted, false)
      else Scan(s[1..], current + [s[0]], quote, quoted, false)
    else if IsQuote(s[0]) then Scan(s[1..], current, Some(s[0]), true, escaped)
    else if IsBlank(s[0]) then
      if current == "" then Scan(s[1..], current, None, quoted, escaped)
      else
        var rest :- Scan(s[1..], "", None, false, escaped);
        Some([Token(current, quoted)] + rest)
    else Scan(s[1..], current + [s[0]], None, quoted, escaped)
  }

  function Before(tokens: seq<Token>, rest: Option<seq<Token>>): Option<seq<Token>> {
    match rest
    case Some(ts) => Some(tokens + ts)
    case None => None
  }

  lemma BeforeNothing(r: Option<seq<Token>>)
    ensures Before([], r) == r
  {
    if r.Some? {
      assert [] + r.value == r.value;
    }
  }

  method Tokenize(raw: string) returns (r: Option<seq<Token>>)
    ensures r == Scan(raw, "", None, false, false)
  {
    var tokens: seq<Token> := [];
    var current, quote, quoted, escaped := "", None, false, false;
    assert raw[0..] == raw;
    BeforeNothing(Scan(raw, current, quote, quoted, escaped));
    for i := 0 to |raw|
      invariant Scan(raw, "", None, false, false) == Before(tokens, Scan(raw[i..], current, quote, quoted, escaped))
    {
      var c := raw[i];
      assert raw[i..][1..] == raw[i + 1..];
      if quote.Some? {
        if escaped {
          current, escaped := current + [c], false;
        } else if c == '\\' {
          escaped := true;
        } else if c == quote.value {
          quote := None;
        } else {
          current := current + [c];
        }
      } else if IsQuote(c) {
        quote, quoted := Some(c), true;
      } else if IsBlank(c) {
        if current != "" {
          ghost var rest := Scan(raw[i + 1..], "", None, false, escaped);
          assert rest.Some? ==> tokens + ([Token(current, quoted)] + rest.value) == tokens + [Token(current, quoted)] + rest.value;
          tokens, current, quoted := tokens + [Token(current, quoted)], "", false;
        }
      } else {
        current := current + [c];
      }
    }
    assert raw[|raw|..] == [];
    if escaped || quote.Some? {
      return None;
    }
    assert tokens + [] == tokens;
    r := Some(if current == "" then tokens else tokens + [Token(current, quoted)]);
  }

  // ----- expressions -----

  predicate IsWordStart(c: char) {
    'a' <= c <= 'z' || 'A' <= c <= 'Z' || c == '_'
  }

  predicate IsIdentifier(s: string) {
    s != "" && IsWordStart(s[0]) && forall i :: 0 <= i < |s| ==> IsWordStart(s[i]) || IsDigit(s[i])
  }

  /** The pointer that a token names, if it names one; a malformed pointer names none. */
  function TokenPointer(t: Token): Option<string> {
    var trimmed := TrimSpace(t.text);
    if t.quoted then None
    else if "/" <= trimmed then if Parse(trimmed).None? then None else Some(trimmed)
    else if IsIdentifier(trimmed) then Some(Print([trimmed]))
    else None
  }

  function HelperName(name: string): string {
    var trimmed := TrimSpace(name);
    if trimmed == "to_uppercase" then "uppercase"
    else if trimmed == "to_lowercase" then "lowercase"
    else trimmed
  }

  predicate Supported(name: string, arity: nat) {
    if name == "uppercase" || name == "lowercase" || name == "trim" then arity == 1
    else if name == "substring" then arity == 2 || arity == 3
    else name == "default" && arity >= 2
  }

  /** What a helper takes the token for. */
  function Argument(t: Token): Node {
    var pointer := TokenPointer(t);
    if pointer.Some? then Pointer(pointer.value) else Literal(t.text)
  }

  function Arguments(tokens: seq<Token>): seq<Node> {
    seq(|tokens|, i requires 0 <= i < |tokens| => Argument(tokens[i]))
  }

  /** A token on its own is a pointer or a quoted literal; several are a helper and its arguments. */
  function ParseExpression(raw: string): Option<Node> {
    var tokens :- Scan(raw, "", None, false, false);
    if tokens == [] then None
    else if |tokens| == 1 then
      var node := Argument(tokens[0]);
      if node.Literal? && !tokens[0].quoted then None else Some(node)
    else
      var name := HelperName(tokens[0].text);
      if !Supported(name, |tokens| - 1) then None else Some(Helper(name, Arguments(tokens[1..])))
  }

  // ----- compilation -----

  /** strings.Index of a doubled character. */
  function FindPair(s: string, c: char): (r: Option<nat>)
    ensures r.Some? ==> r.value + 2 <= |s|
  {
    if |s| < 2 then None
    else if s[0] == c && s[1] == c then Some(0)
    else
      var rest := FindPair(s[1..], c);
      if rest.Some? then Some(rest.value + 1) else None
  }

  function PlainPiece(s: string): seq<Piece> {
    if s == "" then [] else [Plain(s)]
  }

  function Pieces(s: string): Option<seq<Piece>>
    decreases |s|
  {
    var start := FindPair(s, '{');
    if start.None? then Some(PlainPiece(s))
    else
      var rest := s[start.value + 2..];
      var end :- FindPair(rest, '}');
      var raw := TrimSpace(rest[..end]);
      if raw == "" then None
      else
        var node :- ParseExpression(raw);
        var tail :- Pieces(rest[end + 2..]);
        Some(PlainPiece(s[..start.value]) + [Expression(node)] + tail)
  }

  /** A bare pointer stands for the template of that pointer. */
  function Expanded(raw: string): string {
    var trimmed := TrimSpace(raw);
    if trimmed == "" || FindPair(trimmed, '{').Some? || Parse(trimmed).None? then raw else "{{" + trimmed + "}}"
  }

  function AddPointer(pointers: seq<string>, pointer: string): seq<string> {
    var trimmed := TrimSpace(pointer);
    if trimmed == "" || trimmed in pointers then pointers else pointers + [trimmed]
  }

  function AddPointers(pointers: seq<string>, n: Node): seq<string>
    decreases n, if n.Helper? then |n.args| + 1 else 0
  {
    match n
    case Literal(_) => pointers
    case Pointer(pointer) => AddPointer(pointers, pointer)
    case Helper(_, args) => AddArguments(pointers, n, |args|)
  }

  function AddArguments(pointers: seq<string>, n: Node, count: nat): seq<string>
    requires n.Helper? && count <= |n.args|
    decreases n, count
  {
    if count == 0 then pointers else AddPointers(AddArguments(pointers, n, count - 1), n.args[count - 1])
  }

  function AddAll(pointers: seq<string>, pieces: seq<Piece>): seq<string> {
    if pieces == [] then pointers
    else
      var before := AddAll(pointers, pieces[..|pieces| - 1]);
      var last := pieces[|pieces| - 1];
      if last.Expression? then AddPointers(before, last.node) else before
  }

  /** The pieces of the template, and the pointers of its expressions in order of first occurrence. */
  function Compile(raw: string): Option<Compiled> {
    var pieces :- Pieces(Expanded(raw));
    Some(Compiled(pieces, AddAll([], pieces)))
  }

  function PiecesBefore(pieces: seq<Piece>, rest: Option<seq<Piece>>): Option<seq<Piece>> {
    match rest
    case Some(ps) => Some(pieces + ps)
    case None => None
  }

  lemma PiecesBeforeTwice(a: seq<Piece>, b: seq<Piece>, rest: Option<seq<Piece>>)
    ensures PiecesBefore(a + b, rest) == PiecesBefore(a, PiecesBefore(b, rest))
    ensures PiecesBefore([], rest) == rest
  {
    if rest.Some? {
      assert a + b + rest.value == a + (b + rest.value);
      assert [] + rest.value == rest.value;
    }
  }

  lemma AddAllSnoc(pieces: seq<Piece>, last: Piece)
    ensures AddAll([], pieces + [last]) ==
            if last.Expression? then AddPointers(AddAll([], pieces), last.node) else AddAll([], pieces)
  {
    assert (pieces + [last])[..|pieces|] == pieces;
  }

  method CompileTemplate(raw: string) returns (r: Option<Compiled>)
    ensures r == Compile(raw)
  {
    hide Parse, TrimSpace, ParseExpression, AddPointers, AddAll, Expanded, FindPair, Pieces;
    var source := Expanded(raw);
    var pieces: seq<Piece> := [];
    var pointers: seq<string> := [];
    var offset := 0;
    NoPointers();
    assert source[0..] == source;
    PiecesBeforeTwice([], [], Pieces(source));
    while true
      invariant 0 <= offset <= |source|
      invariant Pieces(source) == PiecesBefore(pieces, Pieces(source[offset..]))
      invariant pointers == AddAll([], pieces)
      decreases |source| - offset
    {
      var here := source[offset..];
      var start := FindPair(here, '{');
      PiecesStep(here);
      if start.None? {
        if offset < |source| {
          AddAllSnoc(pieces, Plain(here));
          pieces := pieces + [Plain(here)];
        } else {
          assert here == "" && pieces + [] == pieces;
        }
        break;
      }
      var rest := here[start.value + 2..];
      var end := FindPair(rest, '}');
      if end.None? {
        return None;
      }
      var rawExpression := TrimSpace(rest[..end.value]);
      if rawExpression == "" {
        return None;
      }
      var node := ParseExpression(rawExpression);
      if node.None? {
        return None;
      }
      ghost var tail := rest[end.value + 2..];
      ghost var front := PlainPiece(here[..start.value]);
      PiecesBeforeTwice(pieces, front, PiecesBefore([Expression(node.value)], Pieces(tail)));
      PiecesBeforeTwice(pieces + front, [Expression(node.value)], Pieces(tail));
      if start.value > 0 {
        AddAllSnoc(pieces, Plain(here[..start.value]));
        pieces := pieces + [Plain(here[..start.value])];
      } else {
        assert pieces + front == pieces;
      }
      AddAllSnoc(pieces, Expression(node.value));
      pieces := pieces + [Expression(node.value)];
      pointers := AddPointers(pointers, node.value);
      offset := offset + start.value + 2 + end.value + 2;
      assert source[offset..] == tail;
    }
    r := Some(Compiled(pieces, pointers));
  }

  /** One step of the compilation. */
  lemma PiecesStep(s: string)
    ensures var start := FindPair(s, '{');
            Pieces(s) ==
            if start.None? then Some(PlainPiece(s))
            else
              var rest := s[start.value + 2..];
              var end := FindPair(rest, '}');
              if end.None? || TrimSpace(rest[..end.value]) == "" || ParseExpression(TrimSpace(rest[..end.value])).None? then None
              else
                PiecesBefore(PlainPiece(s[..start.value]),
                             PiecesBefore([Expression(ParseExpression(TrimSpace(rest[..end.value])).value)], Pieces(rest[end.value + 2..])))
  {
    hide FindPair, TrimSpace, ParseExpression;
    var start := FindPair(s, '{');
    if start.Some? {
      var rest := s[start.value + 2..];
      var end := FindPair(rest, '}');
      if end.Some? {
        var tail := Pieces(rest[end.value + 2..]);
        var node := ParseExpression(TrimSpace(rest[..end.value]));
        if tail.Some? && node.Some? {
          assert PlainPiece(s[..start.value]) + [Expression(node.value)] + tail.value ==
                 PlainPiece(s[..start.value]) + ([Expression(node.value)] + tail.value);
        }
      }
    }
  }

  lemma NoPointers()
    ensures AddAll([], []) == []
  {
  }

  // ----- rendering -----

  /** Library functions: case mapping and the text of scalars other than strings. */
  datatype Host = Host(upper: string -> string, lower: string -> string, scalar: Value -> Option<string>)

  /** Failures without their messages. A slice whose end has wrapped around panics. */
  datatype Rendering = Rendered(text: string) | Missing | Failed | Panics

  function OrMissing(text: string): Rendering {
    if TrimSpace(text) == "" then Missing else Rendered(text)
  }

  function ScalarString(host: Host, v: Value): Option<string> {
    if v.Str? then Some(TrimSpace(v.s)) else host.scalar(v)
  }

  /** A helper argument that has to have a value. */
  function Required(r: Rendering): Rendering {
    match r
    case Rendered(text) => if TrimSpace(text) == "" then Failed else r
    case Missing => Failed
    case _ => r
  }

  function Substring(value: string, start: Option<int>, length: Option<Option<int>>): Rendering {
    if start.None? || start.value < 0 || start.value > |value| then Failed
    else if length.None? then OrMissing(value[start.value..])
    else if length.value.None? || length.value.value < 0 then Failed
    else
      var end := Wrap(start.value + length.value.value);
      if end > |value| then Failed
      else if end < start.value then Panics
      else OrMissing(value[start.value..end])
  }

  function Eval(host: Host, n: Node, v: Value): Rendering {
    match n
    case Literal(value) => OrMissing(value)
    case Pointer(pointer) =>
      (match Parse(pointer)
       case None => Failed
       case Some(tokens) => PointerText(host, Lookup(v, tokens)))
    case Helper(name, args) => Combine(host, name, seq(|args|, i requires 0 <= i < |args| => Eval(host, args[i], v)))
  }

  /** What a helper makes of its arguments. An argument that a helper does not get to is not looked at. */
  function Combine(host: Host, name: string, args: seq<Rendering>): Rendering {
    if name == "default" then FirstPresent(args)
    else if !Supported(name, |args|) then Failed
    else
      var first := Required(args[0]);
      if !first.Rendered? then first
      else if name == "uppercase" then Rendered(host.upper(first.text))
      else if name == "lowercase" then Rendered(host.lower(first.text))
      else if name == "trim" then OrMissing(TrimSpace(first.text))
      else
        var start := Required(args[1]);
        if !start.Rendered? then start
        else if Atoi(start.text).None? || !(0 <= Atoi(start.text).value <= |first.text|) then Failed
        else if |args| == 2 then Substring(first.text, Atoi(start.text), None)
        else
          var length := Required(args[2]);
          if !length.Rendered? then length
          else Substring(first.text, Atoi(start.text), Some(Atoi(length.text)))
  }

  function PointerText(host: Host, found: Option<Value>): Rendering {
    if found.None? || found.value.Null? then Missing
    else
      var text := ScalarString(host, found.value);
      if text.None? then Failed else OrMissing(text.value)
  }

  /** The first argument that has a value. */
  function FirstPresent(args: seq<Rendering>): Rendering {
    if args == [] then Missing
    else if args[0].Missing? || (args[0].Rendered? && TrimSpace(args[0].text) == "") then FirstPresent(args[1..])
    else args[0]
  }

  /** A rendered template is a text; an expression without a value fails it. */
  function Render(host: Host, pieces: seq<Piece>, v: Value): Rendering {
    if pieces == [] then Rendered("")
    else
      var here := if pieces[0].Plain? then Rendered(pieces[0].text) else Eval(host, pieces[0].node, v);
      if here.Missing? then Failed
      else if !here.Rendered? then here
      else
        var rest := Render(host, pieces[1..], v);
        if rest.Rendered? then Rendered(here.text + rest.text) else rest
  }

  /** Renders piece by piece. */
  method RenderTemplate(host: Host, pieces: seq<Piece>, v: Value) returns (r: Rendering)
    ensures r == Render(host, pieces, v)
  {
    hide Eval;
    var text := "";
    assert pieces[0..] == pieces;
    FrontNothing(Render(host, pieces, v));
    for i := 0 to |pieces|
      invariant Render(host, pieces, v) == Front(text, Render(host, pieces[i..], v))
    {
      assert pieces[i..][1..] == pieces[i + 1..] && pieces[i..][0] == pieces[i];
      var here := if pieces[i].Plain? then Rendered(pieces[i].text) else Eval(host, pieces[i].node, v);
      if here.Missing? {
        return Failed;
      }
      if !here.Rendered? {
        return here;
      }
      ghost var rest := Render(host, pieces[i + 1..], v);
      assert Render(host, pieces[i..], v) == Front(here.text, rest);
      FrontTwice(text, here.text, rest);
      text := text + here.text;
    }
    assert pieces[|pieces|..] == [];
    assert text + "" == text;
    r := Rendered(text);
  }

  lemma FrontNothing(r: Rendering)
    ensures Front("", r) == r
  {
    assert r.Rendered? ==> "" + r.text == r.text;
  }

  lemma FrontTwice(a: string, b: string, r: Rendering)
    ensures Front(a, Front(b, r)) == Front(a + b, r)
  {
    assert r.Rendered? ==> a + (b + r.text) == a + b + r.text;
  }

  function Front(text: string, r: Rendering): Rendering {
    if r.Rendered? then Rendered(text + r.text) else r
  }

  // ----- what rendering depends on -----

  /** The pointer occurs in the node. */
  ghost predicate Mentions(n: Node, p: string) {
    match n
    case Literal(_) => false
    case Pointer(pointer) => p == pointer
    case Helper(_, args) => exists i :: 0 <= i < |args| && Mentions(args[i], p)
  }

  /** The payloads look the same at every one of the pointers. */
  ghost predicate AgreeAt(u: Value, v: Value, pointers: seq<string>) {
    forall p :: p in pointers && Parse(p).Some? ==> Lookup(u, Parse(p).value) == Lookup(v, Parse(p).value)
  }

  lemma {:induction false} EvalDepends(host: Host, n: Node, pointers: seq<string>, u: Value, v: Value)
    requires AgreeAt(u, v, pointers) && forall p :: Mentions(n, p) ==> p in pointers
    ensures Eval(host, n, u) == Eval(host, n, v)
  {
    hide Parse, Lookup, OrMissing, PointerText, Combine;
    if n.Pointer? {
      assert Mentions(n, n.pointer);
    }
    if n.Helper? {
      forall i | 0 <= i < |n.args|
        ensures Eval(host, n.args[i], u) == Eval(host, n.args[i], v)
      {
        assert forall p :: Mentions(n.args[i], p) ==> Mentions(n, p);
        EvalDepends(host, n.args[i], pointers, u, v);
      }
      assert seq(|n.args|, i requires 0 <= i < |n.args| => Eval(host, n.args[i], u)) ==
             seq(|n.args|, i requires 0 <= i < |n.args| => Eval(host, n.args[i], v));
    }
  }

  /** A pointer as the compiler writes it: trimmed and not empty. */
  predicate Settled(p: string) {
    p != "" && TrimSpace(p) == p
  }

  /** No argument of a helper is a helper. */
  predicate Flat(n: Node) {
    n.Helper? ==> Supported(n.name, |n.args|) && forall i :: 0 <= i < |n.args| ==> !n.args[i].Helper?
  }

  ghost predicate AllSettled(n: Node) {
    forall p :: Mentions(n, p) ==> Settled(p)
  }

  lemma ArgumentSettled(t: Token)
    ensures AllSettled(Argument(t)) && !Argument(t).Helper?
  {
    hide TrimSpace, Print, Parse, IsIdentifier, IsSpace;
    var trimmed := TrimSpace(t.text);
    TrimSpaceTrimmed(t.text);
    TrimSpaceFixed(trimmed);
    if IsIdentifier(trimmed) {
      KeyPointerSettled(trimmed);
    }
  }

  lemma KeyPointerSettled(key: string)
    requires Trimmed(key)
    ensures Settled(Print([key]))
  {
    hide Print, TrimSpace;
    PrintEnd([key]);
    TrimSpaceFixedIff(Print([key]));
  }

  /** A compiled expression mentions trimmed pointers only, and helpers are not nested. */
  lemma ParsedSettled(raw: string)
    requires ParseExpression(raw).Some?
    ensures AllSettled(ParseExpression(raw).value) && Flat(ParseExpression(raw).value)
  {
    hide Scan, Argument, Settled, HelperName, Supported;
    var tokens := Scan(raw, "", None, false, false).value;
    forall i | 0 <= i < |tokens|
      ensures AllSettled(Argument(tokens[i])) && !Argument(tokens[i]).Helper?
    {
      ArgumentSettled(tokens[i]);
    }
  }

  /** Collecting adds exactly the pointers that occur. */
  lemma {:induction false} AddPointersExact(pointers: seq<string>, n: Node, q: string)
    requires AllSettled(n)
    ensures q in AddPointers(pointers, n) <==> q in pointers || Mentions(n, q)
    decreases n, if n.Helper? then |n.args| + 1 else 0
  {
    hide TrimSpace;
    match n
    case Literal(_) =>
    case Pointer(p) =>
      assert Mentions(n, p);
    case Helper(_, args) =>
      AddArgumentsExact(pointers, n, |args|, q);
  }

  lemma {:induction false} AddArgumentsExact(pointers: seq<string>, n: Node, count: nat, q: string)
    requires n.Helper? && count <= |n.args| && AllSettled(n)
    ensures q in AddArguments(pointers, n, count) <==> q in pointers || exists i :: 0 <= i < count && Mentions(n.args[i], q)
    decreases n, count
  {
    hide TrimSpace, AddPointers;
    if count > 0 {
      AddArgumentsExact(pointers, n, count - 1, q);
      assert forall p :: Mentions(n.args[count - 1], p) ==> Mentions(n, p);
      AddPointersExact(AddArguments(pointers, n, count - 1), n.args[count - 1], q);
    }
  }

  /** Some expression of the template mentions the pointer. */
  ghost predicate Occurs(pieces: seq<Piece>, p: string) {
    exists i :: 0 <= i < |pieces| && pieces[i].Expression? && Mentions(pieces[i].node, p)
  }

  ghost predicate PiecesSettled(pieces: seq<Piece>) {
    forall i :: 0 <= i < |pieces| && pieces[i].Expression? ==> AllSettled(pieces[i].node)
  }

  lemma {:induction false} AddAllExact(pieces: seq<Piece>, q: string)
    requires PiecesSettled(pieces)
    ensures q in AddAll([], pieces) <==> Occurs(pieces, q)
  {
    hide AddPointers, Mentions, AllSettled;
    if pieces != [] {
      var n := |pieces| - 1;
      AddAllExact(pieces[..n], q);
      if pieces[n].Expression? {
        AddPointersExact(AddAll([], pieces[..n]), pieces[n].node, q);
      }
      assert Occurs(pieces, q) <==> Occurs(pieces[..n], q) || (pieces[n].Expression? && Mentions(pieces[n].node, q));
    }
  }

  lemma {:induction false} PiecesAreSettled(s: string)
    requires Pieces(s).Some?
    ensures PiecesSettled(Pieces(s).value)
    decreases |s|
  {
    hide FindPair, TrimSpace, ParseExpression, AllSettled;
    PiecesStep(s);
    var start := FindPair(s, '{');
    if start.Some? {
      var rest := s[start.value + 2..];
      var end := FindPair(rest, '}').value;
      PiecesAreSettled(rest[end + 2..]);
      ParsedSettled(TrimSpace(rest[..end]));
    }
  }

  /** A compiled template reports exactly the pointers that occur in its expressions. */
  lemma PointersAreExact(raw: string, q: string)
    requires Compile(raw).Some?
    ensures q in Compile(raw).value.pointers <==> Occurs(Compile(raw).value.pieces, q)
  {
    hide Expanded, AddAll, PiecesSettled, Occurs;
    PiecesAreSettled(Expanded(raw));
    AddAllExact(Compile(raw).value.pieces, q);
  }

  lemma {:induction false} PiecesDepend(host: Host, pieces: seq<Piece>, pointers: seq<string>, u: Value, v: Value)
    requires AgreeAt(u, v, pointers) && forall p :: Occurs(pieces, p) ==> p in pointers
    ensures Render(host, pieces, u) == Render(host, pieces, v)
  {
    hide Eval, AgreeAt, Mentions;
    if pieces != [] {
      forall p | Occurs(pieces[1..], p)
        ensures Occurs(pieces, p)
      {
      }
      PiecesDepend(host, pieces[1..], pointers, u, v);
      if pieces[0].Expression? {
        assert forall p :: Mentions(pieces[0].node, p) ==> Occurs(pieces, p);
        EvalDepends(host, pieces[0].node, pointers, u, v);
      }
    }
  }

  /** Payloads that look the same at every reported pointer render alike: to the same text or to
      the same failure. */
  lemma RenderDependsOnPointers(host: Host, raw: string, u: Value, v: Value)
    requires Compile(raw).Some? && AgreeAt(u, v, Compile(raw).value.pointers)
    ensures Render(host, Compile(raw).value.pieces, u) == Render(host, Compile(raw).value.pieces, v)
  {
    hide Compile, Occurs, AgreeAt, Render;
    forall p | Occurs(Compile(raw).value.pieces, p)
      ensures p in Compile(raw).value.pointers
    {
      PointersAreExact(raw, p);
    }
    PiecesDepend(host, Compile(raw).value.pieces, Compile(raw).value.pointers, u, v);
  }

  // ----- lone pointers and empty quotes -----

  predicate PlainText(s: string) {
    forall i :: 0 <= i < |s| ==> !IsBlank(s[i]) && !IsQuote(s[i])
  }

  lemma {:induction false} ScanPlain(s: string, current: string, quoted: bool, rest: string)
    requires PlainText(s)
    ensures Scan(s + rest, current, None, quoted, false) == Scan(rest, current + s, None, quoted, false)
    decreases |s|
  {
    if s == [] {
      assert s + rest == rest && current + s == current;
    } else {
      assert (s + rest)[1..] == s[1..] + rest;
      assert current + [s[0]] + s[1..] == current + s;
      ScanPlain(s[1..], current + [s[0]], quoted, rest);
    }
  }

  /** After an empty quoted string, a pointer is taken for a literal. */
  lemma EmptyQuoteHidesPointer(helper: string, p: string, quote: char)
    requires PlainText(helper) && PlainText(p) && helper != "" && p != "" && IsQuote(quote)
    ensures Scan(helper + [' ', quote, quote, ' '] + p, "", None, false, false) == Some([Token(helper, false), Token(p, true)])
    ensures Argument(Token(p, true)) == Literal(p)
  {
    hide Scan, PlainText, IsQuote, TrimSpace;
    var quotes := [quote, quote] + ([' '] + p);
    assert helper + [' ', quote, quote, ' '] + p == helper + ([' '] + quotes);
    ScanPlain(helper, "", false, [' '] + quotes);
    assert "" + helper == helper;
    ScanBlank(quotes, helper, false);
    ScanQuotes([' '] + p, "", false, quote);
    ScanBlank(p, "", true);
    ScanPlain(p, "", true, "");
    assert p + "" == p && "" + p == p;
    ScanEnd(p, true);
    assert [Token(helper, false)] + [Token(p, true)] == [Token(helper, false), Token(p, true)];
  }

  lemma ScanBlank(rest: string, current: string, quoted: bool)
    ensures Scan([' '] + rest, current, None, quoted, false) ==
            if current == "" then Scan(rest, "", None, quoted, false)
            else Before([Token(current, quoted)], Scan(rest, "", None, false, false))
  {
    assert ([' '] + rest)[1..] == rest;
  }

  lemma ScanQuotes(rest: string, current: string, quoted: bool, quote: char)
    requires IsQuote(quote)
    ensures Scan([quote, quote] + rest, current, None, quoted, false) == Scan(rest, current, None, true, false)
  {
    assert ([quote, quote] + rest)[1..] == [quote] + rest;
    assert ([quote] + rest)[1..] == rest;
  }

  lemma ScanEnd(current: string, quoted: bool)
    requires current != ""
    ensures Scan("", current, None, quoted, false) == Some([Token(current, quoted)])
  {
  }

  lemma {:induction false} FindPairFirst(s: string, c: char, rest: string)
    requires FindPair(s, c).None? && (s != "" ==> s[|s| - 1] != c)
    ensures FindPair(s + [c, c] + rest, c) == Some(|s|)
  {
    var t := s + [c, c] + rest;
    if s != "" {
      assert t[1..] == s[1..] + [c, c] + rest;
      assert t[0] == s[0] && (|s| > 1 ==> t[1] == s[1]);
      FindPairFirst(s[1..], c, rest);
    }
  }

  /** A pointer on its own compiles to the expression of that pointer, as its template does, and
      renders to the text of what it resolves to. */
  lemma LonePointer(host: Host, p: string, v: Value)
    requires Settled(p) && "/" <= p && Parse(p).Some? && PlainText(p)
    requires FindPair(p, '{').None? && FindPair(p, '}').None? && p[|p| - 1] != '}'
    ensures Compile(p) == Some(Compiled([Expression(Pointer(p))], [p]))
    ensures Compile("{{" + p + "}}") == Compile(p)
    ensures var text := PointerText(host, Lookup(v, Parse(p).value));
            Render(host, [Expression(Pointer(p))], v) == if text.Missing? then Failed else text
  {
    hide Parse, TrimSpace, AddAll, FindPair, Pieces, Lookup, PointerText, PlainText, ParseExpression;
    assert Expanded(p) == "{{" + p + "}}";
    PlainPointer(p);
    OneExpression(p);
    BracesStay(p);
    assert AddPointers([], Pointer(p)) == [p];
    RenderOne(host, Expression(Pointer(p)), v);
  }

  lemma RenderOne(host: Host, piece: Piece, v: Value)
    requires piece.Expression?
    ensures var r := Eval(host, piece.node, v);
            Render(host, [piece], v) == if r.Missing? then Failed else r
  {
    hide Eval;
    assert [piece][1..] == [];
    var r := Eval(host, piece.node, v);
    assert r.Rendered? ==> r.text + "" == r.text;
  }

  /** A text that starts with an expression is no bare pointer. */
  lemma BracesStay(e: string)
    ensures Expanded("{{" + e + "}}") == "{{" + e + "}}"
  {
    hide Parse, IsSpace;
    var source := "{{" + e + "}}";
    NoSpaceInBraces();
    assert source[0] == '{' && source[|source| - 1] == '}';
    TrimSpaceFixed(source);
  }

  lemma NoSpaceInBraces()
    ensures !IsSpace('{') && !IsSpace('}')
  {
  }

  lemma BracesFound(e: string)
    ensures FindPair("{{" + e, '{') == Some(0)
  {
  }

  /** A text that is one expression has one piece, if the expression compiles. */
  lemma OnePiece(e: string)
    requires Settled(e) && FindPair(e, '}').None? && e[|e| - 1] != '}'
    ensures Pieces("{{" + e + "}}") == if ParseExpression(e).Some? then Some([Expression(ParseExpression(e).value)]) else None
  {
    hide TrimSpace, ParseExpression, FindPair, Pieces;
    var rest := e + "}}";
    var source := "{{" + rest;
    assert source == "{{" + e + "}}" && source[2..] == rest && source[..0] == "";
    BracesFound(rest);
    FindPairFirst(e, '}', "");
    assert e + ['}', '}'] + "" == rest;
    assert rest[..|e|] == e && rest[|e| + 2..] == "";
    PiecesStep(source);
    PiecesOfNothing();
    if ParseExpression(e).Some? {
      var node := Expression(ParseExpression(e).value);
      assert [] + ([node] + []) == [node];
    }
  }

  /** A template that is one expression compiles if and only if the expression does. */
  lemma OneExpression(e: string)
    requires Settled(e) && FindPair(e, '}').None? && e[|e| - 1] != '}'
    ensures Compile("{{" + e + "}}") ==
            if ParseExpression(e).Some? then
              Some(Compiled([Expression(ParseExpression(e).value)], AddPointers([], ParseExpression(e).value)))
            else None
  {
    hide ParseExpression, AddAll, AddPointers, FindPair, Pieces, Expanded, Settled;
    OnePiece(e);
    BracesStay(e);
    if ParseExpression(e).Some? {
      var node := Expression(ParseExpression(e).value);
      AddAllSnoc([], node);
      NoPointers();
      assert [] + [node] == [node];
    }
  }

  lemma PlainPointer(p: string)
    requires Settled(p) && "/" <= p && Parse(p).Some? && PlainText(p)
    ensures ParseExpression(p) == Some(Pointer(p))
  {
    hide Parse, TrimSpace, Scan;
    ScanPlain(p, "", false, "");
    ScanEnd(p, false);
    assert p + "" == p && "" + p == p;
  }

  lemma PiecesOfNothing()
    ensures Pieces("") == Some([])
  {
  }
}

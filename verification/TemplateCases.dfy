/** Identity templates in particular: which words lose their meaning to an empty quoted string,
    which pointers are taken for literals, when a template panics, and which pointers stand for
    themselves (metadata/identitytemplate/template.go). */
module TemplateCases {
  import opened Payload
  import opened Text
  import opened JsonPointer
  import opened Template

  // ----- the scanner, character by character -----

  datatype Scanner = Scanner(tokens: seq<Token>, current: string, quote: Option<char>, quoted: bool, escaped: bool)

  function Advance(st: Scanner, c: char): Scanner {
    if st.quote.Some? then
      if st.escaped then st.(current := st.current + [c], escaped := false)
      else if c == '\\' then st.(escaped := true)
      else if c == st.quote.value then st.(quote := None)
      else st.(current := st.current + [c])
    else if IsQuote(c) then st.(quote := Some(c), quoted := true)
    else if IsBlank(c) then
      if st.current == "" then st
      else st.(tokens := st.tokens + [Token(st.current, st.quoted)], current := "", quoted := false)
    else st.(current := st.current + [c])
  }

  /** The scanner after a prefix of the text. */
  function Scanned(s: string): Scanner {
    if s == [] then Scanner([], "", None, false, false) else Advance(Scanned(s[..|s| - 1]), s[|s| - 1])
  }

  lemma BeforeTwice(a: seq<Token>, b: seq<Token>, r: Option<seq<Token>>)
    ensures Before(a, Before(b, r)) == Before(a + b, r)
  {
    if r.Some? {
      assert a + (b + r.value) == a + b + r.value;
    }
  }

  lemma {:induction false} ScanFrom(s: string, i: nat)
    requires i <= |s|
    ensures var st := Scanned(s[..i]);
            Scan(s, "", None, false, false) == Before(st.tokens, Scan(s[i..], st.current, st.quote, st.quoted, st.escaped)) &&
            (st.quote.None? ==> !st.escaped)
  {
    if i == 0 {
      assert s[..0] == [] && s[0..] == s;
      BeforeNothing(Scan(s, "", None, false, false));
    } else {
      ScanFrom(s, i - 1);
      var st := Scanned(s[..i - 1]);
      assert s[..i][..i - 1] == s[..i - 1];
      assert s[i - 1..][1..] == s[i..] && s[i - 1..][0] == s[i - 1];
      var rest := Scan(s[i..], "", None, false, false);
      BeforeTwice(st.tokens, [Token(st.current, st.quoted)], rest);
    }
  }

  // ----- empty quoted strings -----

  /** Blanks and empty quoted strings. */
  predicate Gap(g: string) {
    var n := |g|;
    n == 0 || (IsBlank(g[n - 1]) && Gap(g[..n - 1])) ||
    (n >= 2 && IsQuote(g[n - 1]) && g[n - 2] == g[n - 1] && Gap(g[..n - 2]))
  }

  predicate HasQuote(g: string) {
    exists i :: 0 <= i < |g| && IsQuote(g[i])
  }

  /** The text starts here, or the character before is the blank that ends a token. */
  predicate Boundary(s: string, e: nat)
    requires e <= |s|
  {
    e == 0 || (IsBlank(s[e - 1]) && |Scanned(s[..e]).tokens| > |Scanned(s[..e - 1]).tokens|)
  }

  lemma BoundaryInPrefix(s: string, n: nat, e: nat)
    requires e <= n <= |s| && Boundary(s[..n], e)
    ensures Boundary(s, e)
  {
    if e > 0 {
      assert s[..n][..e] == s[..e] && s[..n][..e - 1] == s[..e - 1];
    }
  }

  lemma HasQuoteNext(g: string, c: char)
    ensures HasQuote(g + [c]) <==> HasQuote(g) || IsQuote(c)
  {
    if HasQuote(g) {
      var i :| 0 <= i < |g| && IsQuote(g[i]);
      assert (g + [c])[i] == g[i];
    }
    assert (g + [c])[|g|] == c;
  }

  /** Between tokens there is a gap since the last token, and the mark for quotes says whether the
      gap has an empty quoted string; an open quote that holds nothing stands behind such a gap. */
  lemma {:induction false} GapBefore(p: string) returns (e: nat)
    requires Scanned(p).current == "" && !Scanned(p).escaped
    ensures e <= |p| && Boundary(p, e)
    ensures Scanned(p).quote.None? ==> Gap(p[e..]) && (Scanned(p).quoted <==> HasQuote(p[e..]))
    ensures Scanned(p).quote.Some? ==>
              e < |p| && IsQuote(p[|p| - 1]) && p[|p| - 1] == Scanned(p).quote.value && Scanned(p).quoted && Gap(p[e..|p| - 1])
  {
    hide Gap, HasQuote, Boundary;
    if p == [] {
      NoGap(p);
      return 0;
    }
    var n := |p| - 1;
    var before, c := p[..n], p[n];
    var prev := Scanned(before);
    assert Scanned(p) == Advance(prev, c);
    hide Scanned;
    if prev.quote.None? && IsBlank(c) && prev.current != "" {
      assert p[..|p|] == p && p[|p|..] == [];
      TokenEnds(p);
      NoGap([]);
      return |p|;
    }
    NotEscaped(before);
    e := GapBefore(before);
    BoundaryInPrefix(p, n, e);
    var g := before[e..];
    assert p[e..] == g + [c] && p[e..n] == g;
    if prev.quote.Some? {
      var h := before[e..n - 1];
      assert p[e..] == h + [c, c];
      GapQuotes(h, c);
    } else {
      HasQuoteNext(g, c);
      GapBlank(g, c);
    }
  }

  lemma NoGap(p: string)
    requires p == []
    ensures Gap(p) && !HasQuote(p) && Boundary(p, 0) && Gap(p[0..]) && !HasQuote(p[0..])
  {
  }

  lemma GapBlank(g: string, c: char)
    requires Gap(g)
    ensures IsBlank(c) ==> Gap(g + [c])
  {
    assert (g + [c])[..|g|] == g;
  }

  lemma GapQuotes(h: string, c: char)
    requires Gap(h) && IsQuote(c)
    ensures Gap(h + [c, c]) && HasQuote(h + [c, c])
  {
    var g := h + [c, c];
    assert g[..|h|] == h && g[|h|] == c && g[|h| + 1] == c;
  }

  lemma TokenEnds(p: string)
    requires p != [] && IsBlank(p[|p| - 1])
    requires Scanned(p[..|p| - 1]).quote.None? && Scanned(p[..|p| - 1]).current != ""
    ensures Boundary(p, |p|)
  {
    assert p[..|p|] == p;
  }

  /** Outside quotes nothing is escaped. */
  lemma NotEscaped(s: string)
    ensures Scanned(s).quote.None? ==> !Scanned(s).escaped
  {
    ScanFrom(s, |s|);
    assert s[..|s|] == s;
  }

  /** A new token begins here. */
  predicate Begins(s: string, i: nat)
    requires i <= |s|
  {
    Scanned(s[..i]).quote.None? && Scanned(s[..i]).current == ""
  }

  /** In every text that scans, a word without quotes is marked as quoted if and only if an empty
      quoted string stands between it and the token before it: what lies between that token, which
      ends at e, and the word is blanks and empty quoted strings. */
  lemma WordQuotedIff(s: string, i: nat, j: nat) returns (e: nat)
    requires i < j <= |s| && Begins(s, i) && PlainText(s[i..j]) && (j == |s| || IsBlank(s[j]))
    requires Scan(s, "", None, false, false).Some?
    ensures e <= i && Boundary(s, e) && Gap(s[e..i])
    ensures var tokens := Scan(s, "", None, false, false).value;
            var k := |Scanned(s[..i]).tokens|;
            k < |tokens| && tokens[k] == Token(s[i..j], HasQuote(s[e..i]))
  {
    hide Scan, PlainText, Gap;
    NotEscaped(s[..i]);
    e := GapBefore(s[..i]);
    BoundaryInPrefix(s, i, e);
    assert s[..i][e..] == s[e..i];
    var st := Scanned(s[..i]);
    var word, rest := s[i..j], s[j..];
    ScanFrom(s, i);
    Cut(s, i, j);
    ScanPlain(word, "", st.quoted, rest);
    assert "" + word == word;
    WordEnds(word, st.quoted, rest);
  }

  lemma Cut(s: string, i: nat, j: nat)
    requires i <= j <= |s|
    ensures s[i..] == s[i..j] + s[j..]
  {
  }

  lemma WordEnds(word: string, quoted: bool, rest: string)
    requires word != "" && (rest == "" || IsBlank(rest[0]))
    ensures var r := Scan(rest, word, None, quoted, false); r.Some? ==> r.value != [] && r.value[0] == Token(word, quoted)
  {
  }

  // ----- expressions given by their words -----

  predicate IsPlainWord(w: string) {
    w != "" && PlainText(w)
  }

  function Unquoted(words: seq<string>): (r: seq<Token>)
    ensures |r| == |words| && forall i :: 0 <= i < |r| ==> r[i] == Token(words[i], false)
  {
    seq(|words|, i requires 0 <= i < |words| => Token(words[i], false))
  }

  lemma {:induction false} ScanWords(words: seq<string>)
    requires words != [] && forall w :: w in words ==> IsPlainWord(w)
    ensures Scan(Join(words, ' '), "", None, false, false) == Some(Unquoted(words))
  {
    hide Scan, PlainText, Join;
    var w := words[0];
    assert w in words;
    assert "" + w == w && w + "" == w;
    JoinStep(words);
    if |words| == 1 {
      ScanPlain(w, "", false, "");
      ScanEnd(w, false);
      assert Unquoted(words) == [Token(w, false)];
    } else {
      var rest := words[1..];
      ScanWords(rest);
      ScanPlain(w, "", false, [' '] + Join(rest, ' '));
      assert Join(words, ' ') == w + ([' '] + Join(rest, ' '));
      ScanBlank(Join(rest, ' '), w, false);
      assert Unquoted(words) == [Token(w, false)] + Unquoted(rest);
    }
  }

  lemma JoinStep(words: seq<string>)
    requires words != []
    ensures Join(words, ' ') == if |words| == 1 then words[0] else words[0] + [' '] + Join(words[1..], ' ')
  {
  }

  /** An expression of at least two plain words is a helper and its arguments. */
  lemma HelperExpression(words: seq<string>)
    requires |words| >= 2 && forall w :: w in words ==> IsPlainWord(w)
    ensures ParseExpression(Join(words, ' ')) ==
            if Supported(HelperName(words[0]), |words| - 1)
            then Some(Helper(HelperName(words[0]), Arguments(Unquoted(words)[1..]))) else None
  {
    hide Scan, IsPlainWord;
    ScanWords(words);
  }

  // ----- malformed pointers -----

  /** A helper argument that starts with a slash is taken for a literal exactly when it is quoted
      or malformed: the error about a malformed pointer is lost. */
  lemma SlashArgumentIff(t: Token)
    requires "/" <= TrimSpace(t.text)
    ensures Argument(t) == Literal(t.text) <==> t.quoted || Parse(TrimSpace(t.text)).None?
    ensures Argument(t) == Pointer(TrimSpace(t.text)) <==> !t.quoted && Parse(TrimSpace(t.text)).Some?
  {
  }

  /** So in every helper expression that compiles, for each argument. */
  lemma SlashArgumentsIff(raw: string, k: nat)
    requires ParseExpression(raw).Some? && ParseExpression(raw).value.Helper? && k < |ParseExpression(raw).value.args|
    ensures var tokens := Scan(raw, "", None, false, false);
            tokens.Some? && k + 1 < |tokens.value| &&
            var t, arg := tokens.value[k + 1], ParseExpression(raw).value.args[k];
            "/" <= TrimSpace(t.text) ==>
              (arg == Literal(t.text) <==> t.quoted || Parse(TrimSpace(t.text)).None?) &&
              (arg == Pointer(TrimSpace(t.text)) <==> !t.quoted && Parse(TrimSpace(t.text)).Some?)
  {
    hide Scan, TrimSpace, Parse, Argument, HelperName, Supported;
    var tokens := Scan(raw, "", None, false, false).value;
    if |tokens| == 1 {
      ArgumentSettled(tokens[0]);
    } else if "/" <= TrimSpace(tokens[k + 1].text) {
      SlashArgumentIff(tokens[k + 1]);
    }
  }

  /** On its own, a malformed pointer is refused. */
  lemma MalformedAlone(p: string)
    requires IsPlainWord(p) && Settled(p) && "/" <= p && Parse(p).None?
    ensures ParseExpression(p) == None
  {
    hide Parse, TrimSpace, Scan, PlainText;
    ScanPlain(p, "", false, "");
    ScanEnd(p, false);
    assert p + "" == p && "" + p == p;
  }

  /** As an argument of a helper it is not: a default with a malformed pointer compiles, reports
      the other pointer only, and renders the malformed one, whatever the payload. */
  lemma MalformedSwallowed(host: Host, p: string, q: string, v: Value)
    requires IsPlainWord(p) && Settled(p) && "/" <= p && Parse(p).None?
    requires IsPlainWord(q) && Settled(q) && "/" <= q && Parse(q).Some?
    ensures var n := Helper("default", [Literal(p), Pointer(q)]);
            ParseExpression(Join(["default", p, q], ' ')) == Some(n) &&
            AddPointers([], n) == [q] && Eval(host, n, v) == Rendered(p)
  {
    hide Parse, TrimSpace, PlainText, Scan, HelperName, AddPointers, Eval, IsPlainWord, Join, Argument;
    var words := ["default", p, q];
    LettersArePlain("default");
    HelperExpression(words);
    SlashArgumentIff(Token(p, false));
    SlashArgumentIff(Token(q, false));
    assert Unquoted(words)[1..] == [Token(p, false), Token(q, false)];
    assert Arguments(Unquoted(words)[1..]) == [Literal(p), Pointer(q)];
    DefaultOfTwo(host, p, q, v);
  }

  lemma DefaultOfTwo(host: Host, p: string, q: string, v: Value)
    requires Settled(p) && Settled(q)
    ensures var n := Helper("default", [Literal(p), Pointer(q)]); AddPointers([], n) == [q] && Eval(host, n, v) == Rendered(p)
  {
    hide TrimSpace, Parse;
    var n := Helper("default", [Literal(p), Pointer(q)]);
    assert AddArguments([], n, 0) == [];
    assert AddArguments([], n, 1) == [];
    assert AddArguments([], n, 2) == [q];
    assert Eval(host, n.args[0], v) == Rendered(p);
  }

  /** A word of small letters is a plain word, an identifier and a helper name as it is. */
  lemma LettersArePlain(w: string)
    requires w != "" && forall i :: 0 <= i < |w| ==> 'a' <= w[i] <= 'z'
    ensures IsPlainWord(w) && Settled(w) && IsIdentifier(w) && HelperName(w) == w
  {
    hide TrimSpace;
    LetterIsNoSpace(w[0]);
    LetterIsNoSpace(w[|w| - 1]);
    hide IsSpace;
    TrimSpaceFixed(w);
    assert "to_uppercase"[2] == '_' && "to_lowercase"[2] == '_';
  }

  lemma LetterIsNoSpace(c: char)
    requires 'a' <= c <= 'z'
    ensures !IsSpace(c)
  {
  }

  lemma {:induction false} MalformedToken(x: string)
    requires '/' !in x && UnescapeToken(x).None? && Settled("/" + x)
    ensures Parse("/" + x) == None
  {
    hide TrimSpace;
    var p := "/" + x;
    assert p[1..] == x;
    SplitWithout(x, '/');
    assert UnescapeAll([x]) == None;
  }

  lemma WellFormedToken(x: string)
    requires '/' !in x && '~' !in x && Settled("/" + x)
    ensures Parse("/" + x) == Some([x])
  {
    hide TrimSpace;
    var p := "/" + x;
    assert p[1..] == x;
    SplitWithout(x, '/');
    NothingToUnescape(x);
    assert [x][1..] == [] && [x] + [] == [x];
    assert UnescapeAll([]) == Some([]);
  }

  lemma {:induction false} NothingToUnescape(x: string)
    requires '~' !in x
    ensures UnescapeToken(x) == Some(x)
  {
    if x != [] {
      NothingToUnescape(x[1..]);
      assert x == [x[0]] + x[1..];
    }
  }

  /** The template {{default p q}} with such pointers. */
  lemma MalformedTemplate(host: Host, p: string, q: string, v: Value)
    requires IsPlainWord(p) && Settled(p) && "/" <= p && Parse(p).None? && '}' !in p
    requires IsPlainWord(q) && Settled(q) && "/" <= q && Parse(q).Some? && '}' !in q
    ensures var e := Join(["default", p, q], ' ');
            var pieces := [Expression(Helper("default", [Literal(p), Pointer(q)]))];
            Compile("{{" + e + "}}") == Some(Compiled(pieces, [q])) && Render(host, pieces, v) == Rendered(p)
  {
    hide Parse, Compile, Pieces, ParseExpression, AddPointers, Eval, PlainText, Join, Settled, IsPlainWord, FindPair, Render;
    var e := Join(["default", p, q], ' ');
    DefaultText(e, p, q);
    MalformedSwallowed(host, p, q, v);
    NoBraces(e);
    OneExpression(e);
    RenderOne(host, Expression(Helper("default", [Literal(p), Pointer(q)])), v);
  }

  lemma DefaultText(e: string, p: string, q: string)
    requires e == Join(["default", p, q], ' ') && Settled(q) && '}' !in p && '}' !in q
    ensures Settled(e) && '}' !in e && e[|e| - 1] != '}'
  {
    hide TrimSpace;
    assert ["default", p, q][1..] == [p, q] && [p, q][1..] == [q];
    assert Join([p, q], ' ') == p + [' '] + q;
    assert e == "default" + [' '] + (p + [' '] + q);
    assert e[0] == 'd' && e[|e| - 1] == q[|q| - 1];
    TrimSpaceFixedIff(q);
    TrimSpaceFixed(e);
  }

  /** There are such pointers: "/a~2" and "/b". */
  lemma MalformedExample()
    ensures var p := "/a~2"; IsPlainWord(p) && Settled(p) && "/" <= p && Parse(p).None? && '}' !in p
    ensures var q := "/b"; IsPlainWord(q) && Settled(q) && "/" <= q && Parse(q).Some? && '}' !in q
  {
    hide TrimSpace, UnescapeToken, Parse;
    var x := ['a', '~', '2'];
    assert "/" + x == "/a~2" && "/" + ['b'] == "/b";
    BadEscape('a', '2');
    TrimSpaceFixed("/a~2");
    TrimSpaceFixed("/b");
    MalformedToken(x);
    WellFormedToken(['b']);
  }

  lemma BadEscape(a: char, d: char)
    requires a != '~' && d != '0' && d != '1'
    ensures UnescapeToken([a, '~', d]) == None
  {
    assert [a, '~', d][1..] == ['~', d];
  }

  lemma {:induction false} NoBraces(e: string)
    requires '}' !in e
    ensures FindPair(e, '}').None?
  {
    if |e| >= 2 {
      NoBraces(e[1..]);
    }
  }

  // ----- panics -----

  /** The three arguments have values, the start lies in the text, the length is not negative, and
      their sum is past the largest int. */
  predicate Overruns(args: seq<Rendering>) {
    |args| == 3 && Required(args[0]).Rendered? && Required(args[1]).Rendered? && Required(args[2]).Rendered? &&
    var value, start, length := args[0].text, Atoi(args[1].text), Atoi(args[2].text);
    start.Some? && length.Some? && 0 <= start.value <= |value| && 0 <= length.value && start.value + length.value > MAX_INT
  }

  lemma CombinePanicsIff(host: Host, name: string, args: seq<Rendering>)
    requires forall i :: 0 <= i < |args| ==> !args[i].Panics?
    ensures Combine(host, name, args) == Panics <==> name == "substring" && Overruns(args)
  {
    hide TrimSpace;
    assert forall i :: 0 <= i < |args| ==> Required(args[i]).Rendered? ==> Required(args[i]) == args[i];
    if name == "default" {
      FirstPresentCalm(args);
    } else if Supported(name, |args|) {
      AtoiRange();
      assert name == "substring" || name == "uppercase" || name == "lowercase" || name == "trim";
    }
  }

  lemma AtoiRange()
    ensures forall s :: Atoi(s).Some? ==> -MAX_INT - 1 <= Atoi(s).value <= MAX_INT
  {
  }

  lemma {:induction false} FirstPresentCalm(args: seq<Rendering>)
    requires forall i :: 0 <= i < |args| ==> !args[i].Panics?
    ensures !FirstPresent(args).Panics?
  {
    hide TrimSpace;
    if args != [] {
      FirstPresentCalm(args[1..]);
    }
  }

  function Values(host: Host, args: seq<Node>, v: Value): (r: seq<Rendering>)
    ensures |r| == |args| && forall i :: 0 <= i < |r| ==> r[i] == Eval(host, args[i], v)
  {
    seq(|args|, i requires 0 <= i < |args| => Eval(host, args[i], v))
  }

  /** A compiled expression panics exactly when it is a substring whose arguments overrun. */
  lemma EvalPanicsIff(host: Host, n: Node, v: Value)
    requires Flat(n)
    ensures Eval(host, n, v) == Panics <==> n.Helper? && n.name == "substring" && Overruns(Values(host, n.args, v))
  {
    hide TrimSpace, Parse, Lookup, Combine, Overruns;
    if n.Helper? {
      var rs := Values(host, n.args, v);
      assert rs == seq(|n.args|, i requires 0 <= i < |n.args| => Eval(host, n.args[i], v));
      CombinePanicsIff(host, n.name, rs);
    }
  }

  /** A template panics exactly when its first expression that has no value panics. */
  lemma {:induction false} RenderPanicsIff(host: Host, pieces: seq<Piece>, v: Value)
    ensures Render(host, pieces, v) == Panics <==> exists i :: PanicsAt(host, pieces, v, i)
  {
    hide Eval;
    if pieces != [] {
      var rest := pieces[1..];
      RenderPanicsIff(host, rest, v);
      var first := pieces[0];
      if first.Plain? || Eval(host, first.node, v).Rendered? {
        if i :| PanicsAt(host, rest, v, i) {
          PanicsAtNext(host, pieces, v, i);
        }
        if i :| PanicsAt(host, pieces, v, i) {
          PanicsAtNext(host, pieces, v, i - 1);
        }
      } else if Eval(host, first.node, v) == Panics {
        assert PanicsAt(host, pieces, v, 0);
      } else {
        assert forall i :: PanicsAt(host, pieces, v, i) ==> i == 0;
      }
    }
  }

  /** The piece panics and those before it have values. */
  ghost predicate PanicsAt(host: Host, pieces: seq<Piece>, v: Value, i: int) {
    0 <= i < |pieces| && pieces[i].Expression? && Eval(host, pieces[i].node, v) == Panics &&
    forall j :: 0 <= j < i && pieces[j].Expression? ==> Eval(host, pieces[j].node, v).Rendered?
  }

  lemma PanicsAtNext(host: Host, pieces: seq<Piece>, v: Value, i: nat)
    requires pieces != [] && (pieces[0].Expression? ==> Eval(host, pieces[0].node, v).Rendered?)
    ensures PanicsAt(host, pieces[1..], v, i) <==> PanicsAt(host, pieces, v, i + 1)
  {
    hide Eval;
    var rest := pieces[1..];
    assert forall j :: 0 <= j < |rest| ==> rest[j] == pieces[j + 1];
    if PanicsAt(host, pieces, v, i + 1) {
      forall j | 0 <= j < i && rest[j].Expression?
        ensures Eval(host, rest[j].node, v).Rendered?
      {
        assert pieces[j + 1].Expression?;
      }
    }
    if PanicsAt(host, rest, v, i) {
      forall j | 0 <= j < i + 1 && pieces[j].Expression?
        ensures Eval(host, pieces[j].node, v).Rendered?
      {
        assert j > 0 ==> rest[j - 1] == pieces[j];
      }
    }
  }

  lemma DigitIsNothingElse(c: char)
    requires IsDigit(c)
    ensures !IsSpace(c) && !IsBlank(c) && !IsQuote(c) && !IsWordStart(c) && c != '/' && c != '}' && c != '+' && c != '-'
  {
  }

  lemma DigitsAreLiteral(d: string)
    requires AllDigits(d) && DigitsValue(d) <= MAX_INT
    ensures IsPlainWord(d) && Settled(d) && Argument(Token(d, false)) == Literal(d) && '}' !in d
    ensures Atoi(d) == Some(DigitsValue(d)) && OrMissing(d) == Rendered(d)
  {
    hide TrimSpace, DigitsValue, IsSpace, IsDigit, IsBlank, IsQuote, IsWordStart, Parse, Print;
    forall i | 0 <= i < |d|
      ensures !IsSpace(d[i]) && !IsBlank(d[i]) && !IsQuote(d[i]) && !IsWordStart(d[i])
      ensures d[i] != '/' && d[i] != '}' && d[i] != '+' && d[i] != '-'
    {
      DigitIsNothingElse(d[i]);
    }
    TrimSpaceFixed(d);
  }

  lemma KeyIsPointer(key: string)
    requires IsIdentifier(key) && Settled(key)
    ensures Argument(Token(key, false)) == Pointer(Print([key]))
  {
    hide TrimSpace, Print, Parse;
    assert key[0] != '/';
  }

  lemma NameIsPointer(host: Host, key: string, text: string)
    requires IsIdentifier(key) && Settled(key) && Settled(text)
    ensures Eval(host, Pointer(Print([key])), Obj(map[key := Str(text)])) == Rendered(text)
  {
    hide TrimSpace, Print, Parse, EndsInSpace, Lookup;
    NoSpaceAtTheEnd(key);
    ParseOfPrint([key]);
    LookupKey(key, Str(text));
  }

  lemma NoSpaceAtTheEnd(key: string)
    requires Settled(key)
    ensures !EndsInSpace(key)
  {
    TrimSpaceFixedIff(key);
  }

  lemma LookupKey(key: string, x: Value)
    ensures Lookup(Obj(map[key := x]), [key]) == Some(x)
  {
    assert [key][1..] == [];
  }

  lemma SubstringParses(key: string, start: string, length: string)
    requires IsIdentifier(key) && IsPlainWord(key) && Settled(key)
    requires AllDigits(start) && AllDigits(length) && DigitsValue(start) <= MAX_INT && DigitsValue(length) <= MAX_INT
    ensures ParseExpression(Join(["substring", key, start, length], ' ')) ==
            Some(Helper("substring", [Pointer(Print([key])), Literal(start), Literal(length)]))
  {
    hide TrimSpace, Print, Parse, Join, Argument, HelperName, IsPlainWord, Settled, ParseExpression, IsIdentifier, AllDigits, DigitsValue;
    var words := ["substring", key, start, length];
    DigitsAreLiteral(start);
    DigitsAreLiteral(length);
    LettersArePlain(words[0]);
    KeyIsPointer(key);
    HelperExpression(words);
    var tokens := [Token(key, false), Token(start, false), Token(length, false)];
    assert Unquoted(words)[1..] == tokens;
    assert Arguments(tokens) == [Pointer(Print([key])), Literal(start), Literal(length)];
  }

  lemma SubstringOverruns(host: Host, key: string, text: string, start: string, length: string)
    requires IsIdentifier(key) && IsPlainWord(key) && Settled(key) && Settled(text)
    requires AllDigits(start) && AllDigits(length) && DigitsValue(start) <= |text| && DigitsValue(start) <= MAX_INT
    requires DigitsValue(length) <= MAX_INT < DigitsValue(start) + DigitsValue(length)
    ensures Eval(host, Helper("substring", [Pointer(Print([key])), Literal(start), Literal(length)]), Obj(map[key := Str(text)])) == Panics
  {
    hide TrimSpace, Print, Parse, Argument, Eval, IsPlainWord, OrMissing, Overruns, Settled, IsIdentifier, AllDigits, DigitsValue;
    DigitsAreLiteral(start);
    DigitsAreLiteral(length);
    NameIsPointer(host, key, text);
    var args := [Pointer(Print([key])), Literal(start), Literal(length)];
    var v := Obj(map[key := Str(text)]);
    EvalOfLiteral(host, start, v);
    EvalOfLiteral(host, length, v);
    OverrunsHere(Values(host, args, v), text, start, length);
    EvalPanicsIff(host, Helper("substring", args), v);
  }

  /** The template {{substring name 1 9223372036854775807}} panics on every payload with a name. */
  lemma SubstringPanics(host: Host, text: string)
    requires Settled(text)
    ensures var e := Join(["substring", "name", Itoa(1), Itoa(MAX_INT)], ' ');
            Compile("{{" + e + "}}").Some? &&
            Render(host, Compile("{{" + e + "}}").value.pieces, Obj(map["name" := Str(text)])) == Panics
  {
    hide TrimSpace, Print, Compile, Parse, Itoa, Join, Eval, IsPlainWord, Settled, ParseExpression, IsIdentifier, AllDigits, DigitsValue, Render, HelperName, FindPair;
    var key, start, length := "name", Itoa(1), Itoa(MAX_INT);
    var e := Join(["substring", key, start, length], ' ');
    ItoaDigits(1);
    ItoaDigits(MAX_INT);
    LettersArePlain(key);
    SubstringParses(key, start, length);
    NotEmpty(text);
    SubstringOverruns(host, key, text, start, length);
    SubstringText(e, key, start, length);
    NoBraces(e);
    OneExpression(e);
    RenderOne(host, Expression(Helper("substring", [Pointer(Print([key])), Literal(start), Literal(length)])), Obj(map[key := Str(text)]));
  }

  lemma NotEmpty(text: string)
    requires Settled(text)
    ensures |text| >= 1
  {
  }

  lemma SubstringText(e: string, key: string, start: string, length: string)
    requires e == Join(["substring", key, start, length], ' ') && IsIdentifier(key)
    requires AllDigits(start) && AllDigits(length) && DigitsValue(start) <= MAX_INT && DigitsValue(length) <= MAX_INT
    ensures Settled(e) && '}' !in e && e[|e| - 1] != '}'
  {
    hide TrimSpace, IsSpace, DigitsValue;
    DigitsAreLiteral(start);
    DigitsAreLiteral(length);
    JoinStep([length]);
    JoinStep([start, length]);
    assert [start, length][1..] == [length];
    JoinStep([key, start, length]);
    assert [key, start, length][1..] == [start, length];
    JoinStep(["substring", key, start, length]);
    assert ["substring", key, start, length][1..] == [key, start, length];
    var tail := key + [' '] + (start + [' '] + length);
    assert e == "substring" + [' '] + tail;
    assert '}' !in key && '}' !in tail;
    assert e[0] == 's' && e[|e| - 1] == length[|length| - 1];
    LetterIsNoSpace('s');
    DigitIsNothingElse(length[|length| - 1]);
    TrimSpaceFixed(e);
  }

  lemma EvalOfLiteral(host: Host, d: string, v: Value)
    ensures Eval(host, Literal(d), v) == OrMissing(d)
  {
  }

  lemma OverrunsHere(args: seq<Rendering>, text: string, start: string, length: string)
    requires args == [Rendered(text), Rendered(start), Rendered(length)] && Settled(text) && Settled(start) && Settled(length)
    requires Atoi(start).Some? && Atoi(length).Some? && 0 <= Atoi(start).value <= |text| && 0 <= Atoi(length).value
    requires Atoi(start).value + Atoi(length).value > MAX_INT
    ensures Overruns(args)
  {
    hide TrimSpace, Atoi;
  }

  // ----- lone pointers -----

  /** Tokens are no longer than the text, and shorter where a blank or a quote is dropped. */
  lemma {:induction false} TokensNoLonger(s: string, current: string, quote: Option<char>, quoted: bool, escaped: bool, t: Token)
    requires Scan(s, current, quote, quoted, escaped).Some? && t in Scan(s, current, quote, quoted, escaped).value
    ensures |t.text| <= |current| + |s|
    ensures quote.Some? || !PlainText(s) ==> |t.text| < |current| + |s|
    decreases |s|
  {
    if s != [] {
      var c, rest := s[0], s[1..];
      assert PlainText(s) <==> !IsBlank(c) && !IsQuote(c) && PlainText(rest) by { PlainTextStep(s); }
      hide PlainText;
      if quote.Some? {
        if escaped {
          TokensNoLonger(rest, current + [c], quote, quoted, false, t);
        } else if c == '\\' {
          TokensNoLonger(rest, current, quote, quoted, true, t);
        } else if c == quote.value {
          TokensNoLonger(rest, current, None, quoted, false, t);
        } else {
          TokensNoLonger(rest, current + [c], quote, quoted, false, t);
        }
      } else if IsQuote(c) {
        TokensNoLonger(rest, current, Some(c), true, escaped, t);
      } else if IsBlank(c) {
        if current == "" {
          TokensNoLonger(rest, current, None, quoted, escaped, t);
        } else if t != Token(current, quoted) {
          TokensNoLonger(rest, "", None, false, escaped, t);
        }
      } else {
        TokensNoLonger(rest, current + [c], None, quoted, escaped, t);
      }
    }
  }

  lemma PlainTextStep(s: string)
    requires s != []
    ensures PlainText(s) <==> !IsBlank(s[0]) && !IsQuote(s[0]) && PlainText(s[1..])
  {
    if PlainText(s[1..]) && !IsBlank(s[0]) && !IsQuote(s[0]) {
      forall i | 0 <= i < |s|
        ensures !IsBlank(s[i]) && !IsQuote(s[i])
      {
        assert i > 0 ==> s[1..][i - 1] == s[i];
      }
    }
  }

  /** A token that has been begun is the next one. */
  lemma {:induction false} BegunTokenNext(s: string, current: string, quote: Option<char>, quoted: bool, escaped: bool)
    requires current != "" && Scan(s, current, quote, quoted, escaped).Some?
    ensures var ts := Scan(s, current, quote, quoted, escaped).value; ts != [] && current <= ts[0].text
    decreases |s|
  {
    if s != [] {
      var c, rest := s[0], s[1..];
      if quote.Some? {
        if escaped {
          BegunTokenNext(rest, current + [c], quote, quoted, false);
        } else if c == '\\' {
          BegunTokenNext(rest, current, quote, quoted, true);
        } else if c == quote.value {
          BegunTokenNext(rest, current, None, quoted, false);
        } else {
          BegunTokenNext(rest, current + [c], quote, quoted, false);
        }
      } else if IsQuote(c) {
        BegunTokenNext(rest, current, Some(c), true, escaped);
      } else if !IsBlank(c) {
        BegunTokenNext(rest, current + [c], None, quoted, escaped);
      }
    }
  }

  lemma FirstTokenOf(raw: string)
    requires "/" <= raw && Scan(raw, "", None, false, false).Some?
    ensures var ts := Scan(raw, "", None, false, false).value; ts != [] && "/" <= ts[0].text
  {
    assert Scan(raw, "", None, false, false) == Scan(raw[1..], "" + [raw[0]], None, false, false);
    assert "" + [raw[0]] == "/";
    hide Scan;
    BegunTokenNext(raw[1..], "/", None, false, false);
  }

  /** An expression that starts with a slash and means a pointer means one that is no longer than
      itself, and itself only if it is plain. */
  lemma PointerNoLonger(raw: string)
    requires "/" <= raw && ParseExpression(raw).Some? && ParseExpression(raw).value.Pointer?
    ensures var x := ParseExpression(raw).value.pointer; |x| <= |raw| && (|x| == |raw| ==> PlainText(raw))
  {
    hide Scan, PlainText, TrimSpace, Print, Parse;
    FirstTokenOf(raw);
    var t := Scan(raw, "", None, false, false).value[0];
    TokensNoLonger(raw, "", None, false, false, t);
    TrimKeepsSlash(t.text);
  }

  /** The pointer has no blank, no quote and no doubled brace, and does not end in a closing one. */
  predicate Standing(p: string) {
    PlainText(p) && FindPair(p, '{').None? && FindPair(p, '}').None? && (p != "" ==> p[|p| - 1] != '}')
  }

  lemma {:induction false} FindPairEarlier(s: string, c: char)
    requires FindPair(s, c).Some? || (s != "" && s[|s| - 1] == c)
    ensures var k := FindPair(s + [c, c], c); k.Some? && k.value < |s|
  {
    var t := s + [c, c];
    assert t[0] == s[0] && t[1] == if |s| > 1 then s[1] else c;
    if !(t[0] == c && t[1] == c) {
      assert t[1..] == s[1..] + [c, c];
      FindPairEarlier(s[1..], c);
    }
  }

  lemma FindPairFound(s: string, c: char)
    ensures var k := FindPair(s, c); k.Some? ==> s[k.value] == c
  {
    if |s| >= 2 && !(s[0] == c && s[1] == c) {
      FindPairFound(s[1..], c);
    }
  }

  /** Braces inside: the text is no expression of its own. */
  lemma BracesInside(p: string)
    requires "/" <= p && FindPair(p, '{').Some?
    ensures Pieces(p) != Some([Expression(Pointer(p))])
  {
    hide Parse, TrimSpace, ParseExpression, FindPair;
    FindPairFound(p, '{');
    PiecesStep(p);
    var start := FindPair(p, '{').value;
    assert p[..start] != "";
  }

  /** The expression in front of the first closing braces comes first. */
  lemma FirstExpression(p: string, k: nat)
    requires FindPair(p + "}}", '}') == Some(k) && k <= |p| && Pieces("{{" + p + "}}").Some?
    ensures var pieces := Pieces("{{" + p + "}}").value;
            ParseExpression(TrimSpace(p[..k])).Some? && pieces != [] && pieces[0] == Expression(ParseExpression(TrimSpace(p[..k])).value)
  {
    hide Parse, TrimSpace, ParseExpression, FindPair;
    var rest := p + "}}";
    var source := "{{" + rest;
    assert source == "{{" + p + "}}" && source[2..] == rest && source[..0] == "";
    assert rest[..k] == p[..k];
    BracesFound(rest);
    PiecesStep(source);
  }

  lemma ClosingBraces(p: string) returns (k: nat)
    requires "/" <= p
    ensures 0 < k <= |p| && FindPair(p + "}}", '}') == Some(k)
    ensures FindPair(p, '}').Some? || p[|p| - 1] == '}' ==> k < |p|
  {
    hide FindPair;
    var rest := p + "}}";
    assert p + ['}', '}'] == rest && p + ['}', '}'] + "" == rest;
    if FindPair(p, '}').Some? || p[|p| - 1] == '}' {
      FindPairEarlier(p, '}');
    } else {
      FindPairFirst(p, '}', "");
    }
    k := FindPair(rest, '}').value;
    FindPairFound(rest, '}');
  }

  lemma ExpressionOfShorter(p: string)
    requires Settled(p) && "/" <= p
    requires !PlainText(p) || FindPair(p, '}').Some? || p[|p| - 1] == '}'
    ensures Pieces("{{" + p + "}}") != Some([Expression(Pointer(p))])
  {
    hide Parse, TrimSpace, ParseExpression, FindPair, PlainText, Pieces;
    if Pieces("{{" + p + "}}").Some? {
      var k := ClosingBraces(p);
      FirstExpression(p, k);
      assert k == |p| ==> p[..k] == p;
      TrimKeepsSlash(p[..k]);
      if ParseExpression(TrimSpace(p[..k])).value.Pointer? {
        PointerNoLonger(TrimSpace(p[..k]));
      }
    }
  }

  /** A pointer stands for the expression of itself if and only if it has no blank, quote or
      doubled brace and does not end in a closing brace. */
  lemma LonePointerIff(p: string)
    requires Settled(p) && "/" <= p && Parse(p).Some?
    ensures Compile(p) == Some(Compiled([Expression(Pointer(p))], [p])) <==> Standing(p)
  {
    hide Parse, TrimSpace, FindPair, Pieces, PlainText, AddAll;
    if Standing(p) {
      LonePointer(Host(t => t, t => t, x => None), p, Null);
    } else if FindPair(p, '{').Some? {
      BracesInside(p);
    } else {
      ExpressionOfShorter(p);
    }
  }
}

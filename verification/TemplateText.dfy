/** What templates say: the text around expressions, and the text of each helper
    (metadata/identitytemplate/template.go). */
module TemplateText {
  import opened Payload
  import opened Text
  import opened JsonPointer
  import opened Template
  import opened TemplateCases

  // ----- text and expressions -----

  /** An expression as it can stand between double braces. */
  predicate Enclosed(e: string) {
    Settled(e) && '}' !in e
  }

  /** A template begins with its text up to the first expression, then comes that expression. */
  lemma PiecesOfText(text: string, e: string, rest: string)
    requires '{' !in text && Enclosed(e)
    ensures Pieces(text + "{{" + (e + "}}" + rest)) ==
            if ParseExpression(e).None? then None
            else PiecesBefore(PlainPiece(text) + [Expression(ParseExpression(e).value)], Pieces(rest))
  {
    hide TrimSpace, ParseExpression, FindPair, Pieces;
    var after := e + "}}" + rest;
    var s := text + "{{" + after;
    NoOpening(text);
    FindPairFirst(text, '{', after);
    assert text + ['{', '{'] + after == s;
    assert s[..|text|] == text && s[|text| + 2..] == after;
    NoBraces(e);
    FindPairFirst(e, '}', rest);
    assert e + ['}', '}'] + rest == after;
    assert after[..|e|] == e && after[|e| + 2..] == rest;
    PiecesStep(s);
    if ParseExpression(e).Some? {
      PiecesBeforeTwice(PlainPiece(text), [Expression(ParseExpression(e).value)], Pieces(rest));
    }
  }

  lemma {:induction false} NoOpening(s: string)
    requires '{' !in s
    ensures FindPair(s, '{').None?
  {
    if |s| >= 2 {
      NoOpening(s[1..]);
    }
  }

  /** A text without an expression is a template of that text. */
  lemma PiecesOfPlainText(text: string)
    requires '{' !in text
    ensures Pieces(text) == Some(PlainPiece(text))
  {
    NoOpening(text);
  }

  /** The text is rendered as it is, followed by what the expression gives and by the rest; an expression
      without a value, or that fails, fails the template. */
  lemma RenderOfText(host: Host, text: string, n: Node, rest: seq<Piece>, v: Value)
    ensures Render(host, PlainPiece(text), v) == Rendered(text)
    ensures Render(host, PlainPiece(text) + [Expression(n)] + rest, v) ==
            match Eval(host, n, v)
            case Rendered(x) => Front(text + x, Render(host, rest, v))
            case Missing => Failed
            case Failed => Failed
            case Panics => Panics
  {
    hide Eval;
    var tail := [Expression(n)] + rest;
    assert tail[1..] == rest && tail[0] == Expression(n);
    assert text + "" == text;
    if text == "" {
      assert PlainPiece(text) + [Expression(n)] + rest == tail;
      var x := Eval(host, n, v);
      assert x.Rendered? ==> "" + x.text == x.text;
    } else {
      var all := PlainPiece(text) + [Expression(n)] + rest;
      assert all[1..] == tail && all[0] == Plain(text);
      assert [Plain(text)][1..] == [];
      var x, r := Eval(host, n, v), Render(host, rest, v);
      assert x.Rendered? && r.Rendered? ==> text + (x.text + r.text) == text + x.text + r.text;
    }
  }

  // ----- pointers -----

  /** A pointer as it can stand in an expression. */
  predicate PointerWord(p: string) {
    IsPlainWord(p) && Enclosed(p) && "/" <= p && Parse(p).Some?
  }

  /** The pointer leads to a scalar with this text: a string without the blanks around it, or another
      scalar as the library prints it; it is not blank. */
  ghost predicate Shows(host: Host, v: Value, p: string, t: string) {
    Parse(p).Some? && Lookup(v, Parse(p).value).Some? &&
    var x := Lookup(v, Parse(p).value).value;
    !x.Null? && (if x.Str? then t == TrimSpace(x.s) else host.scalar(x) == Some(t)) && TrimSpace(t) != ""
  }

  /** The pointer leads nowhere, to null or to a blank text. */
  ghost predicate Absent(host: Host, v: Value, p: string) {
    Parse(p).Some? &&
    var found := Lookup(v, Parse(p).value);
    found.None? || found.value.Null? ||
    (if found.value.Str? then TrimSpace(found.value.s) == ""
     else host.scalar(found.value).Some? && TrimSpace(host.scalar(found.value).value) == "")
  }

  /** The pointer leads to a value without a text: an array or an object. */
  ghost predicate Textless(host: Host, v: Value, p: string) {
    Parse(p).Some? &&
    var found := Lookup(v, Parse(p).value);
    found.Some? && !found.value.Null? && !found.value.Str? && host.scalar(found.value).None?
  }

  lemma PointerShows(host: Host, v: Value, p: string, t: string)
    ensures Textless(host, v, p) ==> Eval(host, Pointer(p), v) == Failed
    ensures Shows(host, v, p, t) ==> Eval(host, Pointer(p), v) == Rendered(t)
    ensures Absent(host, v, p) ==> Eval(host, Pointer(p), v) == Missing
  {
    hide Parse, Lookup, TrimSpace;
    if Absent(host, v, p) && Lookup(v, Parse(p).value).Some? && Lookup(v, Parse(p).value).value.Str? {
      TrimSpaceFixed(TrimSpace(Lookup(v, Parse(p).value).value.s));
    }
  }

  lemma PointerArgument(p: string)
    requires PointerWord(p)
    ensures Argument(Token(p, false)) == Pointer(p)
  {
    hide Parse, TrimSpace, IsPlainWord;
    SlashArgumentIff(Token(p, false));
  }

  // ----- helpers -----

  lemma {:induction false} JoinChars(words: seq<string>)
    requires words != [] && forall w :: w in words ==> w != "" && '}' !in w
    ensures var e := Join(words, ' ');
            '}' !in e && e != "" && e[0] == words[0][0] && e[|e| - 1] == words[|words| - 1][|words[|words| - 1]| - 1]
  {
    assert words[0] in words;
    if |words| > 1 {
      assert forall w :: w in words[1..] ==> w in words;
      JoinChars(words[1..]);
    }
  }

  lemma WordsEnclosed(words: seq<string>)
    requires words != [] && forall w :: w in words ==> IsPlainWord(w) && Enclosed(w)
    ensures Enclosed(Join(words, ' '))
  {
    hide TrimSpace, Join, PlainText, IsSpace;
    JoinChars(words);
    var e, first, last := Join(words, ' '), words[0], words[|words| - 1];
    assert first in words && last in words;
    TrimSpaceFixedIff(first);
    TrimSpaceFixedIff(last);
    assert e[0] == first[0] && e[|e| - 1] == last[|last| - 1];
    TrimSpaceFixed(e);
  }

  /** What the template of one expression says. */
  ghost function Says(host: Host, words: seq<string>, v: Value): Rendering {
    var compiled := Compile("{{" + Join(words, ' ') + "}}");
    if compiled.None? then Failed else Render(host, compiled.value.pieces, v)
  }

  /** A template that calls a helper says what the helper makes of its arguments. */
  lemma HelperSays(host: Host, words: seq<string>, args: seq<Node>, v: Value)
    requires |words| >= 2 && |args| == |words| - 1 && forall w :: w in words ==> IsPlainWord(w) && Enclosed(w)
    requires Supported(HelperName(words[0]), |args|)
    requires forall i :: 0 <= i < |args| ==> Argument(Token(words[i + 1], false)) == args[i]
    ensures var r := Combine(host, HelperName(words[0]), Values(host, args, v));
            Says(host, words, v) == if r.Missing? then Failed else r
  {
    hide TrimSpace, Join, Compile, ParseExpression, Render, IsPlainWord, HelperName, Argument, Combine, FindPair;
    var e := Join(words, ' ');
    WordsEnclosed(words);
    NoBraces(e);
    OneExpression(e);
    HelperExpression(words);
    assert Arguments(Unquoted(words)[1..]) == args;
    var n := Helper(HelperName(words[0]), args);
    RenderOne(host, Expression(n), v);
    assert Values(host, args, v) == seq(|args|, i requires 0 <= i < |args| => Eval(host, args[i], v));
  }

  /** The names of the helpers. */
  lemma HelperNames(name: string)
    ensures name == "to_uppercase" ==> HelperName(name) == "uppercase" && IsPlainWord(name) && Enclosed(name)
    ensures name == "to_lowercase" ==> HelperName(name) == "lowercase" && IsPlainWord(name) && Enclosed(name)
    ensures name == "uppercase" || name == "lowercase" || name == "trim" || name == "substring" || name == "default" ==>
              HelperName(name) == name && IsPlainWord(name) && Enclosed(name)
  {
    hide TrimSpace;
    if name == "to_uppercase" || name == "to_lowercase" {
      TrimSpaceFixed(name);
    } else if name == "uppercase" || name == "lowercase" || name == "trim" || name == "substring" || name == "default" {
      LettersArePlain(name);
    }
  }

  /** How many arguments a helper takes. */
  predicate Takes(name: string, count: nat) {
    match name
    case "uppercase" => count == 1
    case "to_uppercase" => count == 1
    case "lowercase" => count == 1
    case "to_lowercase" => count == 1
    case "trim" => count == 1
    case "substring" => count == 2 || count == 3
    case "default" => count >= 2
    case _ => false
  }

  lemma TakesIff(name: string, count: nat)
    requires Settled(name)
    ensures Supported(HelperName(name), count) <==> Takes(name, count)
  {
    hide TrimSpace;
  }

  /** A template of several words compiles exactly when the first one is a helper that takes the others. */
  lemma HelperCompilesIff(words: seq<string>)
    requires |words| >= 2 && forall w :: w in words ==> IsPlainWord(w) && Enclosed(w)
    ensures Compile("{{" + Join(words, ' ') + "}}").Some? <==> Takes(words[0], |words| - 1)
  {
    hide TrimSpace, Join, Compile, ParseExpression, IsPlainWord, HelperName, Supported, Takes, FindPair;
    var e := Join(words, ' ');
    WordsEnclosed(words);
    NoBraces(e);
    OneExpression(e);
    HelperExpression(words);
    assert words[0] in words;
    TakesIff(words[0], |words| - 1);
  }

  /** A bare name: letters, digits and underscores, no digit first. */
  predicate BareName(s: string) {
    s != "" && !('0' <= s[0] <= '9') &&
    forall i :: 0 <= i < |s| ==>
      'a' <= s[i] <= 'z' || 'A' <= s[i] <= 'Z' || '0' <= s[i] <= '9' || s[i] == '_'
  }

  /** An argument that is a bare name stands for the field of that name; other words that do not start
      with a slash stand for themselves. */
  lemma NameArgument(s: string)
    requires Settled(s) && s[0] != '/'
    ensures Argument(Token(s, false)) == if BareName(s) then Pointer("/" + s) else Literal(s)
  {
    hide TrimSpace, Parse, Print;
    assert IsIdentifier(s) <==> BareName(s);
    if BareName(s) {
      PlainNamePrints(s);
    }
  }

  lemma PlainNamePrints(s: string)
    requires BareName(s)
    ensures Print([s]) == "/" + s
  {
    hide EscapeToken;
    EscapeIsPerCharacter(s);
    NothingToEscape(s);
    assert [s][1..] == [];
    assert "/" + s + "" == "/" + s;
  }

  lemma {:induction false} NothingToEscape(s: string)
    requires forall i :: 0 <= i < |s| ==> s[i] != '~' && s[i] != '/'
    ensures EscapeEach(s) == s
  {
    if s != "" {
      NothingToEscape(s[1..]);
      assert s == [s[0]] + s[1..];
    }
  }

  lemma OnePointer(host: Host, name: string, p: string, v: Value)
    requires IsPlainWord(name) && Enclosed(name) && PointerWord(p) && Supported(HelperName(name), 1)
    ensures var r := Combine(host, HelperName(name), [Eval(host, Pointer(p), v)]);
            Says(host, [name, p], v) == if r.Missing? then Failed else r
  {
    hide TrimSpace, HelperName, Combine, Says, Eval, Parse, IsPlainWord, Argument;
    PointerArgument(p);
    HelperSays(host, [name, p], [Pointer(p)], v);
    assert Values(host, [Pointer(p)], v) == [Eval(host, Pointer(p), v)];
  }

  /** {{uppercase p}} and {{to_uppercase p}} say the text in upper case, {{lowercase p}} and
      {{to_lowercase p}} in lower case; without a text they fail. */
  lemma CaseText(host: Host, name: string, p: string, v: Value, t: string)
    requires PointerWord(p)
    requires name == "uppercase" || name == "to_uppercase" || name == "lowercase" || name == "to_lowercase"
    ensures Shows(host, v, p, t) ==>
              Says(host, [name, p], v) ==
              Rendered(if name == "uppercase" || name == "to_uppercase" then host.upper(t) else host.lower(t))
    ensures Absent(host, v, p) || Textless(host, v, p) ==> Says(host, [name, p], v) == Failed
  {
    hide TrimSpace, HelperName, Says, Eval, Parse, Lookup, IsPlainWord, Enclosed;
    HelperNames(name);
    OnePointer(host, name, p, v);
    PointerShows(host, v, p, t);
  }

  /** {{trim p}} says the text without the blanks around it. */
  lemma TrimText(host: Host, name: string, p: string, v: Value, t: string)
    requires PointerWord(p) && name == "trim"
    ensures Shows(host, v, p, t) ==> Says(host, [name, p], v) == Rendered(TrimSpace(t))
    ensures Absent(host, v, p) || Textless(host, v, p) ==> Says(host, [name, p], v) == Failed
  {
    hide TrimSpace, HelperName, Says, Eval, Parse, Lookup, IsPlainWord, Enclosed;
    HelperNames(name);
    OnePointer(host, name, p, v);
    PointerShows(host, v, p, t);
    TrimSpaceTrimmed(t);
    TrimSpaceFixed(TrimSpace(t));
  }

  /** {{default p q}} says the text of p, or that of q if p has none, or fails if neither has one; it does
      not go past a value that has no text at all. */
  lemma DefaultSays(host: Host, name: string, p: string, q: string, v: Value, t: string)
    requires PointerWord(p) && PointerWord(q) && name == "default"
    ensures Shows(host, v, p, t) ==> Says(host, [name, p, q], v) == Rendered(t)
    ensures Absent(host, v, p) && Shows(host, v, q, t) ==> Says(host, [name, p, q], v) == Rendered(t)
    ensures Absent(host, v, p) && Absent(host, v, q) ==> Says(host, [name, p, q], v) == Failed
    ensures Textless(host, v, p) ==> Says(host, [name, p, q], v) == Failed
  {
    hide TrimSpace, HelperName, Says, Eval, Parse, Lookup, IsPlainWord, Enclosed, Argument;
    HelperNames(name);
    PointerArgument(p);
    PointerArgument(q);
    var words, args := [name, p, q], [Pointer(p), Pointer(q)];
    HelperSays(host, words, args, v);
    var a, b := Eval(host, Pointer(p), v), Eval(host, Pointer(q), v);
    assert Values(host, args, v) == [a, b];
    PointerShows(host, v, p, t);
    PointerShows(host, v, q, t);
    FirstOfTwo(a, b);
  }

  lemma FirstOfTwo(a: Rendering, b: Rendering)
    ensures a.Rendered? && TrimSpace(a.text) != "" ==> FirstPresent([a, b]) == a
    ensures a.Missing? && b.Rendered? && TrimSpace(b.text) != "" ==> FirstPresent([a, b]) == b
    ensures a.Missing? && b.Missing? ==> FirstPresent([a, b]) == Missing
    ensures a.Failed? ==> FirstPresent([a, b]) == Failed
  {
    hide TrimSpace;
    assert [a, b][1..] == [b] && [b][1..] == [];
    assert FirstPresent([]) == Missing;
    assert b.Missing? ==> FirstPresent([b]) == Missing;
    assert b.Rendered? && TrimSpace(b.text) != "" ==> FirstPresent([b]) == b;
  }

  lemma NumberArgument(host: Host, n: nat, v: Value)
    requires n <= MAX_INT
    ensures IsPlainWord(Itoa(n)) && Enclosed(Itoa(n)) && Argument(Token(Itoa(n), false)) == Literal(Itoa(n))
    ensures Atoi(Itoa(n)) == Some(n) && Eval(host, Literal(Itoa(n)), v) == Rendered(Itoa(n)) && TrimSpace(Itoa(n)) != ""
  {
    hide TrimSpace, DigitsValue, AllDigits, Itoa, Atoi, Argument, PlainText;
    ItoaDigits(n);
    DigitsAreLiteral(Itoa(n));
  }

  /** {{substring p a}} says the text from character a on; it fails if the text is shorter than a or
      blank from there. */
  lemma SubstringFrom(host: Host, name: string, p: string, a: nat, v: Value, t: string)
    requires PointerWord(p) && name == "substring" && a <= MAX_INT
    ensures Shows(host, v, p, t) ==>
              Says(host, [name, p, Itoa(a)], v) ==
              if a <= |t| && TrimSpace(t[a..]) != "" then Rendered(t[a..]) else Failed
    ensures Absent(host, v, p) ==> Says(host, [name, p, Itoa(a)], v) == Failed
  {
    hide TrimSpace, HelperName, Says, Eval, Parse, Lookup, IsPlainWord, Enclosed, Argument, Itoa, Atoi;
    HelperNames(name);
    PointerArgument(p);
    NumberArgument(host, a, v);
    var args := [Pointer(p), Literal(Itoa(a))];
    HelperSays(host, [name, p, Itoa(a)], args, v);
    assert Values(host, args, v) == [Eval(host, Pointer(p), v), Rendered(Itoa(a))];
    PointerShows(host, v, p, t);
  }

  /** {{substring p a b}} says the b characters from character a on; it fails if the text ends before
      them or they are blank. */
  lemma SubstringOf(host: Host, name: string, p: string, a: nat, b: nat, v: Value, t: string)
    requires PointerWord(p) && name == "substring" && a + b <= MAX_INT
    ensures Shows(host, v, p, t) ==>
              Says(host, [name, p, Itoa(a), Itoa(b)], v) ==
              if a + b <= |t| && TrimSpace(t[a..a + b]) != "" then Rendered(t[a..a + b]) else Failed
    ensures Absent(host, v, p) ==> Says(host, [name, p, Itoa(a), Itoa(b)], v) == Failed
  {
    hide TrimSpace, HelperName, Says, Eval, Parse, Lookup, IsPlainWord, Enclosed, Argument, Itoa, Atoi;
    HelperNames(name);
    PointerArgument(p);
    NumberArgument(host, a, v);
    NumberArgument(host, b, v);
    var args := [Pointer(p), Literal(Itoa(a)), Literal(Itoa(b))];
    HelperSays(host, [name, p, Itoa(a), Itoa(b)], args, v);
    assert Values(host, args, v) == [Eval(host, Pointer(p), v), Rendered(Itoa(a)), Rendered(Itoa(b))];
    PointerShows(host, v, p, t);
  }

  // ----- words and quotes -----

  /** A space, tab or line end separates words. */
  lemma BlankSeparates(a: string, c: char, b: string)
    requires IsPlainWord(a) && IsPlainWord(b) && (c == ' ' || c == '\t' || c == '\n' || c == '\r')
    ensures Scan(a + ([c] + b), "", None, false, false) == Some([Token(a, false), Token(b, false)])
  {
    hide PlainText;
    ScanPlain(a, "", false, [c] + b);
    assert "" + a == a && "" + b == b && b + "" == b;
    assert ([c] + b)[1..] == b;
    ScanPlain(b, "", false, "");
    ScanEnd(b, false);
    assert [Token(a, false)] + [Token(b, false)] == [Token(a, false), Token(b, false)];
  }

  lemma {:induction false} ScanInside(text: string, current: string, quote: char, rest: string)
    requires quote !in text && '\\' !in text
    ensures Scan(text + rest, current, Some(quote), true, false) == Scan(rest, current + text, Some(quote), true, false)
    decreases text
  {
    if text == "" {
      assert text + rest == rest && current + text == current;
    } else {
      assert (text + rest)[1..] == text[1..] + rest;
      ScanInside(text[1..], current + [text[0]], quote, rest);
      assert current + [text[0]] + text[1..] == current + text;
    }
  }

  /** A text in double or single quotes is one word, blanks included; a backslash takes the next character
      as it is. */
  lemma QuotesEnclose(quote: char, text: string, c: char, more: string)
    requires (quote == '"' || quote == '\'') && text != ""
    requires quote !in text && '\\' !in text && quote !in more && '\\' !in more
    ensures Scan([quote] + (text + [quote]), "", None, false, false) == Some([Token(text, true)])
    ensures Scan([quote] + (text + (['\\', c] + (more + [quote]))), "", None, false, false) ==
            Some([Token(text + [c] + more, true)])
  {
    var tail := ['\\', c] + (more + [quote]);
    assert ([quote] + (text + [quote]))[1..] == text + [quote] && ([quote] + (text + tail))[1..] == text + tail;
    assert "" + text == text;
    ScanInside(text, "", quote, [quote]);
    ScanInside(text, "", quote, tail);
    QuoteEnds(quote, text);
    assert tail[1..] == [c] + (more + [quote]) && ([c] + (more + [quote]))[1..] == more + [quote];
    ScanInside(more, text + [c], quote, [quote]);
    QuoteEnds(quote, text + [c] + more);
  }

  lemma QuoteEnds(quote: char, word: string)
    requires word != "" && quote != '\\'
    ensures Scan([quote], word, Some(quote), true, false) == Some([Token(word, true)])
  {
    assert [quote][1..] == "";
  }

  // ----- reported pointers -----

  predicate AllDifferent(pointers: seq<string>) {
    forall i, j :: 0 <= i < j < |pointers| ==> pointers[i] != pointers[j]
  }

  lemma AddedOnce(pointers: seq<string>, p: string)
    requires AllDifferent(pointers)
    ensures AllDifferent(AddPointer(pointers, p)) && pointers <= AddPointer(pointers, p)
  {
    hide TrimSpace;
  }

  lemma {:induction false} NodePointersOnce(pointers: seq<string>, n: Node)
    requires AllDifferent(pointers)
    ensures AllDifferent(AddPointers(pointers, n)) && pointers <= AddPointers(pointers, n)
    decreases n, if n.Helper? then |n.args| + 1 else 0
  {
    match n
    case Literal(_) =>
    case Pointer(p) => AddedOnce(pointers, p);
    case Helper(_, args) => ArgumentPointersOnce(pointers, n, |args|);
  }

  lemma {:induction false} ArgumentPointersOnce(pointers: seq<string>, n: Node, count: nat)
    requires AllDifferent(pointers) && n.Helper? && count <= |n.args|
    ensures AllDifferent(AddArguments(pointers, n, count)) && pointers <= AddArguments(pointers, n, count)
    decreases n, count
  {
    if count > 0 {
      ArgumentPointersOnce(pointers, n, count - 1);
      NodePointersOnce(AddArguments(pointers, n, count - 1), n.args[count - 1]);
    }
  }

  lemma {:induction false} AllPointersOnce(pieces: seq<Piece>)
    ensures AllDifferent(AddAll([], pieces))
  {
    if pieces != [] {
      AllPointersOnce(pieces[..|pieces| - 1]);
      var last := pieces[|pieces| - 1];
      if last.Expression? {
        NodePointersOnce(AddAll([], pieces[..|pieces| - 1]), last.node);
      }
    }
  }

  /** A compiled template reports no pointer twice. */
  lemma PointersOnce(raw: string)
    requires Compile(raw).Some?
    ensures AllDifferent(Compile(raw).value.pointers)
  {
    hide Pieces, Expanded, AddAll, AllDifferent;
    AllPointersOnce(Compile(raw).value.pieces);
  }
}

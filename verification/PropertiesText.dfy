/** What the decoder makes of property text that is written by hand: separators, comments,
    continuation lines, escapes and repeated keys (resource/payload_codec_kv.go). */
module PropertiesText {
  import opened Payload
  import opened Text
  import opened Properties
  import Numerals

  // ----- characters and escapes -----

  /** One character of a key or value as it is written. */
  datatype Unit = Raw(c: char) | Escaped(c: char) | Hex(code: nat, upper: bool)

  function HexText(n: nat, upper: bool): char
    requires n < 16
  {
    if n < 10 then ('0' as int + n) as char
    else if upper then ('A' as int + n - 10) as char
    else ('a' as int + n - 10) as char
  }

  function HexTexts(code: nat, upper: bool): (r: string)
    requires code < 0x1_0000
    ensures |r| == 4
  {
    [HexText(code / 16 / 16 / 16, upper), HexText(code / 16 / 16 % 16, upper), HexText(code / 16 % 16, upper), HexText(code % 16, upper)]
  }

  predicate UnitOk(u: Unit) {
    match u
    case Raw(c) => c != '\\'
    case Escaped(c) => c != 'u'
    case Hex(code, _) => code < 0x1_0000
  }

  function UnitText(u: Unit): string
    requires UnitOk(u)
  {
    match u
    case Raw(c) => [c]
    case Escaped(c) => ['\\', c]
    case Hex(code, upper) => ['\\', 'u'] + HexTexts(code, upper)
  }

  /** The character that is meant; half of a surrogate pair means the replacement character. */
  function UnitChar(u: Unit): char
    requires UnitOk(u)
  {
    match u
    case Raw(c) => c
    case Escaped(c) =>
      (match c
       case 't' => '\t'
       case 'n' => '\n'
       case 'r' => '\r'
       case 'f' => '\U{000C}'
       case _ => c)
    case Hex(code, _) => if 0xD800 <= code < 0xE000 then '\U{FFFD}' else code as char
  }

  predicate UnitsOk(us: seq<Unit>) {
    forall i :: 0 <= i < |us| ==> UnitOk(us[i])
  }

  function UnitsText(us: seq<Unit>): string
    requires UnitsOk(us)
  {
    if us == [] then "" else UnitText(us[0]) + UnitsText(us[1..])
  }

  function UnitsChars(us: seq<Unit>): string
    requires UnitsOk(us)
  {
    if us == [] then "" else [UnitChar(us[0])] + UnitsChars(us[1..])
  }

  lemma HexDigitOfText(n: nat, upper: bool)
    requires n < 16
    ensures HexDigit(HexText(n, upper)) == Some(n)
  {
  }

  lemma FourDigits(code: nat, a: nat, b: nat, c: nat, d: nat)
    requires a == code / 16 / 16 / 16 && b == code / 16 / 16 % 16 && c == code / 16 % 16 && d == code % 16
    ensures ((a * 16 + b) * 16 + c) * 16 + d == code
  {
    assert a * 16 + b == code / 16 / 16;
    assert code / 16 / 16 * 16 + c == code / 16;
  }

  lemma HexCharOfTexts(code: nat, upper: bool)
    requires code < 0x1_0000
    ensures HexChar(HexTexts(code, upper)) == Some(if 0xD800 <= code < 0xE000 then '\U{FFFD}' else code as char)
  {
    hide HexDigit, HexText;
    var a, b, c, d := code / 16 / 16 / 16, code / 16 / 16 % 16, code / 16 % 16, code % 16;
    HexDigitOfText(a, upper);
    HexDigitOfText(b, upper);
    HexDigitOfText(c, upper);
    HexDigitOfText(d, upper);
    FourDigits(code, a, b, c, d);
  }

  lemma UnescapeUnit(u: Unit, rest: string)
    requires UnitOk(u)
    ensures Unescape(UnitText(u) + rest) == Prefixed([UnitChar(u)], Unescape(rest))
  {
    hide HexChar, HexTexts;
    var s := UnitText(u) + rest;
    match u
    case Raw(c) => assert s[1..] == rest;
    case Escaped(c) => assert s[2..] == rest;
    case Hex(code, upper) =>
      HexCharOfTexts(code, upper);
      assert s[2..6] == HexTexts(code, upper) && s[6..] == rest;
  }

  /** Written characters are read as they are meant. */
  lemma {:induction false} UnescapeUnits(us: seq<Unit>, rest: string)
    requires UnitsOk(us)
    ensures Unescape(UnitsText(us) + rest) == Prefixed(UnitsChars(us), Unescape(rest))
    decreases us
  {
    if us == [] {
      assert UnitsText(us) + rest == rest;
      PrefixedNothing(Unescape(rest));
    } else {
      hide UnitText, UnitChar, Unescape;
      UnescapeUnits(us[1..], rest);
      UnescapeUnit(us[0], UnitsText(us[1..]) + rest);
      assert UnitsText(us) + rest == UnitText(us[0]) + (UnitsText(us[1..]) + rest);
      PrefixedTwice([UnitChar(us[0])], UnitsChars(us[1..]), Unescape(rest));
    }
  }

  predicate IsHex(c: char) {
    '0' <= c <= '9' || 'a' <= c <= 'f' || 'A' <= c <= 'F'
  }

  /** A \u that is not followed by four hexadecimal digits is refused, wherever it stands. */
  lemma BrokenEscape(us: seq<Unit>, rest: string)
    requires UnitsOk(us)
    requires |rest| < 4 || !(IsHex(rest[0]) && IsHex(rest[1]) && IsHex(rest[2]) && IsHex(rest[3]))
    ensures Unescape(UnitsText(us) + (['\\', 'u'] + rest)) == None
  {
    var s := ['\\', 'u'] + rest;
    UnescapeUnits(us, s);
    if |rest| >= 4 {
      assert s[2..6] == rest[..4];
      assert HexChar(rest[..4]) == None;
    }
  }

  /** A single backslash at the very end stands for itself. */
  lemma FinalBackslash(us: seq<Unit>)
    requires UnitsOk(us)
    ensures Unescape(UnitsText(us) + "\\") == Some(UnitsChars(us) + "\\")
  {
    UnescapeUnits(us, "\\");
  }

  // ----- keys, separators and values -----

  predicate KeyOk(us: seq<Unit>) {
    UnitsOk(us) && forall i :: 0 <= i < |us| && us[i].Raw? ==> !IsSeparator(us[i].c)
  }

  lemma KeyUnitLength(u: Unit, rest: string)
    requires UnitOk(u) && (u.Raw? ==> !IsSeparator(u.c))
    ensures KeyLength(UnitText(u) + rest) == |UnitText(u)| + KeyLength(rest)
  {
    var s := UnitText(u) + rest;
    match u
    case Raw(c) => assert s[1..] == rest;
    case Escaped(c) => assert s[2..] == rest;
    case Hex(code, upper) =>
      var d := HexTexts(code, upper);
      assert s[2..] == d + rest;
      HexIsKey(code / 16 / 16 / 16, upper);
      HexIsKey(code / 16 / 16 % 16, upper);
      HexIsKey(code / 16 % 16, upper);
      HexIsKey(code % 16, upper);
      hide HexText;
      FourLetters(d, rest);
  }

  lemma HexIsKey(n: nat, upper: bool)
    requires n < 16
    ensures var c := HexText(n, upper); c != '\\' && !IsSeparator(c)
  {
  }

  lemma {:induction false} FourLetters(d: string, rest: string)
    requires forall i :: 0 <= i < |d| ==> d[i] != '\\' && !IsSeparator(d[i])
    ensures KeyLength(d + rest) == |d| + KeyLength(rest)
  {
    if d == "" {
      assert d + rest == rest;
    } else {
      assert (d + rest)[1..] == d[1..] + rest;
      FourLetters(d[1..], rest);
    }
  }

  lemma {:induction false} KeyUnitsLength(us: seq<Unit>, rest: string)
    requires KeyOk(us) && (rest == "" || IsSeparator(rest[0]))
    ensures KeyLength(UnitsText(us) + rest) == |UnitsText(us)|
    decreases us
  {
    if us == [] {
      assert UnitsText(us) + rest == rest;
    } else {
      hide UnitText, KeyLength;
      KeyUnitsLength(us[1..], rest);
      KeyUnitLength(us[0], UnitsText(us[1..]) + rest);
      assert UnitsText(us) + rest == UnitText(us[0]) + (UnitsText(us[1..]) + rest);
    }
  }

  ghost predicate AllBlank(s: string) {
    forall i :: 0 <= i < |s| ==> IsBlank(s[i])
  }

  /** What may stand between a key and the text of a value: '=' or ':' and blanks, or a blank and any
      separators; the value begins with the first other character. */
  ghost predicate Separates(sep: string, value: string) {
    if sep == "" then value == ""
    else if IsBlank(sep[0]) then
      (forall i :: 0 <= i < |sep| ==> IsSeparator(sep[i])) && (value != "" ==> !IsSeparator(value[0]))
    else IsSeparator(sep[0]) && AllBlank(sep[1..]) && (value != "" ==> !IsBlank(value[0]))
  }

  lemma {:induction false} TrimPast(front: string, rest: string, cut: char -> bool)
    requires (forall i :: 0 <= i < |front| ==> cut(front[i])) && (rest != "" ==> !cut(rest[0]))
    ensures TrimLeft(front + rest, cut) == rest
  {
    if front == "" {
      assert front + rest == rest;
    } else {
      assert (front + rest)[1..] == front[1..] + rest;
      TrimPast(front[1..], rest, cut);
    }
  }

  lemma ValueAfterSeparator(sep: string, value: string)
    requires Separates(sep, value)
    ensures ValueAfter(sep + value) == value
  {
    hide IsBlank, TrimLeft;
    if sep == "" {
      assert sep + value == "";
    } else if IsBlank(sep[0]) {
      TrimPast(sep, value, IsSeparator);
    } else {
      assert (sep + value)[1..] == sep[1..] + value;
      TrimPast(sep[1..], value, IsBlank);
    }
  }

  /** The separators: equals sign, colon, space, tab and form feed. */
  predicate SeparatorMark(c: char) {
    c == '=' || c == ':' || c == ' ' || c == '\t' || c == '\U{000C}'
  }

  function Raws(s: string): (us: seq<Unit>)
    ensures |us| == |s| && forall i :: 0 <= i < |s| ==> us[i] == Raw(s[i])
  {
    seq(|s|, i requires 0 <= i < |s| => Raw(s[i]))
  }

  lemma {:induction false} RawText(s: string)
    requires forall i :: 0 <= i < |s| ==> s[i] != '\\'
    ensures UnitsOk(Raws(s)) && UnitsText(Raws(s)) == s && UnitsChars(Raws(s)) == s
  {
    if s != "" {
      RawText(s[1..]);
      assert Raws(s)[1..] == Raws(s[1..]) && s == [s[0]] + s[1..];
    }
  }

  /** Plain text: the key ends at the first separator of any kind, and the value follows it. */
  lemma PlainEntry(key: string, c: char, value: string)
    requires forall i :: 0 <= i < |key| ==> key[i] != '\\' && !SeparatorMark(key[i])
    requires SeparatorMark(c) && (value != "" ==> !SeparatorMark(value[0])) && forall i :: 0 <= i < |value| ==> value[i] != '\\'
    ensures EntryOn(key + ([c] + value)) == Some((key, value))
  {
    hide EntryOn;
    RawText(key);
    RawText(value);
    EntryReads(Raws(key), [c], Raws(value));
  }

  // ----- lines -----

  /** A line of the text. */
  datatype Line =
    | Comment(indent: string, text: string)
    | Entry(indent: string, key: seq<Unit>, sep: string, value: seq<Unit>)

  ghost predicate LineOk(l: Line) {
    AllBlank(l.indent) &&
    match l
    case Comment(_, text) => text == "" || text[0] == '#' || text[0] == '!'
    case Entry(_, key, sep, value) =>
      KeyOk(key) && UnitsOk(value) && Separates(sep, UnitsText(value)) &&
      (if key == [] then sep != "" && !IsBlank(sep[0])
       else key[0].Raw? ==> key[0].c != '#' && key[0].c != '!')
  }

  function LineText(l: Line): string
    requires l.Entry? ==> UnitsOk(l.key) && UnitsOk(l.value)
  {
    match l
    case Comment(indent, text) => indent + text
    case Entry(indent, key, sep, value) => indent + (UnitsText(key) + (sep + UnitsText(value)))
  }

  lemma UnitStart(u: Unit)
    requires UnitOk(u) && (u.Raw? ==> !IsSeparator(u.c) && u.c != '#' && u.c != '!')
    ensures var t := UnitText(u); t != "" && !IsSeparator(t[0]) && t[0] != '#' && t[0] != '!'
  {
  }

  lemma EntryStart(l: Line)
    requires LineOk(l) && l.Entry?
    ensures var body := UnitsText(l.key) + (l.sep + UnitsText(l.value)); body != "" && !IsBlank(body[0]) && !IsIgnored(body)
  {
    hide UnitText;
    if l.key == [] {
      assert UnitsText(l.key) == "";
    } else {
      UnitStart(l.key[0]);
    }
  }

  /** A comment or blank line is passed over; an entry gives its key the meant value. */
  lemma LineDecodes(l: Line, lines: seq<string>, values: map<string, string>)
    requires LineOk(l)
    ensures DecodeLines([LineText(l)] + lines, values) ==
            if l.Comment? then DecodeLines(lines, values)
            else DecodeLines(lines, values[UnitsChars(l.key) := UnitsChars(l.value)])
  {
    var all := [LineText(l)] + lines;
    assert all[1..] == lines && all[0] == LineText(l);
    match l
    case Comment(indent, text) =>
      hide EntryOn;
      TrimPast(indent, text, IsBlank);
    case Entry(indent, key, sep, value) =>
      var body := UnitsText(key) + (sep + UnitsText(value));
      EntryStart(l);
      TrimPast(indent, body, IsBlank);
      EntryReads(key, sep, value);
      hide EntryOn, TrimLeft, IsBlank, UnitsText, UnitsChars, LineOk, IsIgnored;
  }

  lemma EntryReads(key: seq<Unit>, sep: string, value: seq<Unit>)
    requires KeyOk(key) && UnitsOk(value) && Separates(sep, UnitsText(value))
    ensures EntryOn(UnitsText(key) + (sep + UnitsText(value))) == Some((UnitsChars(key), UnitsChars(value)))
  {
    hide Unescape, KeyLength, ValueAfter, UnitsText, UnitsChars, UnitOk, IsBlank;
    var k, rest := UnitsText(key), sep + UnitsText(value);
    assert rest == "" || IsSeparator(rest[0]);
    KeyUnitsLength(key, rest);
    assert (k + rest)[..|k|] == k && (k + rest)[|k|..] == rest;
    ValueAfterSeparator(sep, UnitsText(value));
    UnescapeUnits(key, "");
    UnescapeUnits(value, "");
    UnescapeNothing();
    assert k + "" == k && UnitsText(value) + "" == UnitsText(value);
    assert UnitsChars(key) + "" == UnitsChars(key) && UnitsChars(value) + "" == UnitsChars(value);
  }

  lemma UnescapeNothing()
    ensures Unescape("") == Some("")
  {
  }

  // ----- documents -----

  ghost predicate AllOk(doc: seq<Line>) {
    forall i :: 0 <= i < |doc| ==> LineOk(doc[i])
  }

  ghost function Texts(doc: seq<Line>): (r: seq<string>)
    requires AllOk(doc)
    ensures |r| == |doc| && forall i :: 0 <= i < |doc| ==> r[i] == LineText(doc[i])
  {
    seq(|doc|, i requires 0 <= i < |doc| => LineText(doc[i]))
  }

  /** The entries as they are meant, in order. */
  ghost function Meant(doc: seq<Line>): seq<(string, string)>
    requires AllOk(doc)
  {
    if doc == [] then []
    else if doc[0].Comment? then Meant(doc[1..])
    else [(UnitsChars(doc[0].key), UnitsChars(doc[0].value))] + Meant(doc[1..])
  }

  lemma {:induction false} LinesDecode(doc: seq<Line>, values: map<string, string>)
    requires AllOk(doc)
    ensures DecodeLines(Texts(doc), values) == Some(Built(Meant(doc), values))
    decreases doc
  {
    if doc != [] {
      var l, rest := doc[0], doc[1..];
      assert Texts(doc) == [LineText(l)] + Texts(rest);
      hide DecodeLines, LineText, LineOk, UnitsChars;
      LineDecodes(l, Texts(rest), values);
      if l.Comment? {
        LinesDecode(rest, values);
      } else {
        var entry := (UnitsChars(l.key), UnitsChars(l.value));
        LinesDecode(rest, values[entry.0 := entry.1]);
        assert ([entry] + Meant(rest))[1..] == Meant(rest);
      }
    }
  }

  /** The physical lines: none has a line end in it or continues on the next one. */
  ghost predicate Whole(lines: seq<string>) {
    lines != [] && WithoutBom(lines[0]) == lines[0] &&
    forall i :: 0 <= i < |lines| ==> NoNewline(lines[i]) && !Continues(lines[i])
  }

  lemma {:induction false} LinesOfJoin(lines: seq<string>)
    requires lines != [] && forall i :: 0 <= i < |lines| ==> NoNewline(lines[i])
    ensures LinesOf(Join(lines, '\n')) == lines
  {
    if |lines| == 1 {
      OneLine(lines[0]);
      assert lines == [lines[0]];
    } else {
      LinesOfJoin(lines[1..]);
      LineThenRest(lines[0], Join(lines[1..], '\n'));
      assert Join(lines, '\n') == lines[0] + "\n" + Join(lines[1..], '\n');
    }
  }

  lemma {:induction false} OneLine(line: string)
    requires NoNewline(line)
    ensures LinesOf(line) == [line]
  {
    if line != "" {
      OneLine(line[1..]);
      assert line == [line[0]] + line[1..];
    }
  }

  /** The text of such lines decodes to the entries as they are meant. */
  lemma DocumentDecodes(doc: seq<Line>)
    requires AllOk(doc) && Whole(Texts(doc))
    ensures Decode(Join(Texts(doc), '\n')) == Some(Built(Meant(doc), map[]))
  {
    hide LineText, Built, Continues, LinesOf, Join, DecodeLines, WithoutBom, LineOk, SplitLines;
    var lines := Texts(doc);
    LinesOfJoin(lines);
    SplitLinesAre(Join(lines, '\n'));
    assert [lines[0]] + lines[1..] == lines;
    LogicalOfWhole(lines);
    LinesDecode(doc, map[]);
  }

  /** Of several entries with one key the last one counts. */
  lemma {:induction false} LastCounts(entries: seq<(string, string)>, values: map<string, string>, i: nat)
    requires i < |entries| && forall j :: i < j < |entries| ==> entries[j].0 != entries[i].0
    ensures entries[i].0 in Built(entries, values) && Built(entries, values)[entries[i].0] == entries[i].1
    decreases entries
  {
    var next := values[entries[0].0 := entries[0].1];
    if i > 0 {
      LastCounts(entries[1..], next, i - 1);
    } else {
      BuiltKeeps(entries[1..], next, entries[0].0);
    }
  }

  // ----- continuation lines -----

  lemma {:induction false} TrailingNext(s: string)
    ensures TrailingBackslashes(s + "\\") == 1 + TrailingBackslashes(s)
  {
    assert (s + "\\")[..|s|] == s;
  }

  lemma {:induction false} LogicalAfter(before: seq<string>, rest: seq<string>)
    requires forall i :: 0 <= i < |before| ==> !Continues(before[i])
    ensures LogicalFrom(before + rest, "") == before + LogicalFrom(rest, "")
    decreases before
  {
    hide Continues;
    if before == [] {
      assert before + rest == rest;
    } else {
      assert (before + rest)[1..] == before[1..] + rest && (before + rest)[0] == before[0];
      LogicalAfter(before[1..], rest);
      assert [before[0]] + (before[1..] + LogicalFrom(rest, "")) == before + LogicalFrom(rest, "");
    }
  }

  lemma LogicalJoins(a: string, indent: string, b: string, after: seq<string>)
    requires !Continues(a) && AllBlank(indent) && (b != "" ==> !IsBlank(b[0]))
    ensures LogicalFrom([a + "\\", indent + b] + after, "") == LogicalFrom([a + b] + after, "")
  {
    hide IsBlank;
    TrailingNext(a);
    TrimPast(indent, b, IsBlank);
    var first, second := a + "\\", indent + b;
    assert Continues(first);
    var lines := [first, second] + after;
    assert lines[0] == first && lines[1..] == [second] + after;
    assert ([second] + after)[0] == second && ([second] + after)[1..] == after;
    assert ([a + b] + after)[0] == a + b && ([a + b] + after)[1..] == after;
    assert first[..|first| - 1] == a;
    assert Joined(first, second) == a + b;
    hide Continues, TrimLeft;
    assert LogicalFrom(lines, "") == LogicalFrom([second] + after, first);
  }

  /** A line may be broken anywhere outside an escape: a backslash, a line end and blanks in the middle
      of a line do not change what the text decodes to. */
  lemma ContinuationJoins(before: seq<string>, a: string, indent: string, b: string, after: seq<string>)
    requires forall i :: 0 <= i < |before| ==> NoNewline(before[i]) && !Continues(before[i])
    requires Physical(after)
    requires NoNewline(a) && NoNewline(indent) && NoNewline(b)
    requires !Continues(a) && AllBlank(indent) && (b != "" ==> !IsBlank(b[0]))
    requires if before == [] then a != "" && a[0] != BOM else WithoutBom(before[0]) == before[0]
    ensures Decode(Join(before + ([a + "\\", indent + b] + after), '\n')) == Decode(Join(before + ([a + b] + after), '\n'))
  {
    hide IsBlank, Continues, LogicalFrom, DecodeLines, Join, NoNewline, Decode, AllBlank, WithoutBom, Physical;
    NoNewlines(a, indent, b);
    LogicalJoins(a, indent, b, after);
    if before == [] {
      NoMark(a, "\\");
      NoMark(a, b);
    }
    SameMeaning(before, a + "\\", indent + b, a + b, after);
  }

  lemma NoMark(a: string, b: string)
    requires a != "" && a[0] != BOM
    ensures WithoutBom(a + b) == a + b
  {
  }

  lemma SameMeaning(before: seq<string>, first: string, second: string, both: string, after: seq<string>)
    requires forall i :: 0 <= i < |before| ==> NoNewline(before[i]) && !Continues(before[i])
    requires Physical(after) && NoNewline(first) && NoNewline(second) && NoNewline(both)
    requires LogicalFrom([first, second] + after, "") == LogicalFrom([both] + after, "")
    requires if before == [] then WithoutBom(first) == first && WithoutBom(both) == both else WithoutBom(before[0]) == before[0]
    ensures Decode(Join(before + ([first, second] + after), '\n')) == Decode(Join(before + ([both] + after), '\n'))
  {
    hide Continues, LogicalFrom, DecodeLines, Join, NoNewline, Decode, WithoutBom;
    PhysicalCons(second, after);
    PhysicalCons(first, [second] + after);
    PhysicalCons(both, after);
    assert [first] + ([second] + after) == [first, second] + after;
    DecodeAfter(before, [first, second] + after);
    DecodeAfter(before, [both] + after);
  }

  /** The lines have no line ends in them. */
  ghost predicate Physical(lines: seq<string>) {
    forall i :: 0 <= i < |lines| ==> NoNewline(lines[i])
  }

  lemma PhysicalCons(line: string, rest: seq<string>)
    requires NoNewline(line) && Physical(rest)
    ensures Physical([line] + rest)
  {
    hide NoNewline;
  }

  lemma DecodeAfter(before: seq<string>, rest: seq<string>)
    requires forall i :: 0 <= i < |before| ==> NoNewline(before[i]) && !Continues(before[i])
    requires rest != [] && Physical(rest)
    requires if before == [] then WithoutBom(rest[0]) == rest[0] else WithoutBom(before[0]) == before[0]
    ensures Decode(Join(before + rest, '\n')) == DecodeLines(before + LogicalFrom(rest, ""), map[])
  {
    hide Continues, LogicalFrom, DecodeLines, Join, NoNewline, Decode;
    var lines := before + rest;
    assert lines[0] == if before == [] then rest[0] else before[0];
    DecodeOfLinesJoined(lines);
    LogicalAfter(before, rest);
  }

  lemma NoNewlines(a: string, indent: string, b: string)
    requires NoNewline(a) && NoNewline(indent) && NoNewline(b)
    ensures NoNewline(a + "\\") && NoNewline(indent + b) && NoNewline(a + b)
  {
  }

  lemma DecodeOfLinesJoined(lines: seq<string>)
    requires lines != [] && WithoutBom(lines[0]) == lines[0] && forall i :: 0 <= i < |lines| ==> NoNewline(lines[i])
    ensures Decode(Join(lines, '\n')) == DecodeLines(LogicalFrom(lines, ""), map[])
  {
    hide LogicalFrom, DecodeLines, Join, LinesOf, SplitLines, NoNewline;
    LinesOfJoin(lines);
    SplitLinesAre(Join(lines, '\n'));
    assert [lines[0]] + lines[1..] == lines;
  }

  /** A byte order mark in front of the text is passed over. */
  lemma MarkIgnored(s: string)
    requires s == "" || (s[0] != BOM && s[0] != '\n' && s[0] != '\r')
    ensures Decode([BOM] + s) == Decode(s)
  {
    hide DecodeLines, LogicalFrom;
    SplitLinesAre([BOM] + s);
    SplitLinesAre(s);
    assert ([BOM] + s)[1..] == s;
    var lines := LinesOf(s);
    assert LinesOf([BOM] + s) == [[BOM] + lines[0]] + lines[1..];
    assert ([BOM] + lines[0])[1..] == lines[0];
    assert lines[0] != "" ==> lines[0][0] == s[0];
  }

  // ----- scalars -----

  /** An integer is printed as a numeral of that integer. */
  lemma IntegersPrinted(i: int, show: Value -> string)
    requires -MAX_INT - 1 <= i <= MAX_INT
    ensures Stringify(Int(i), show).Some? && Atoi(Stringify(Int(i), show).value) == Some(i)
  {
    hide Itoa, Atoi;
    var s := Stringify(Int(i), show).value;
    var sign := if i < 0 then "-" else "";
    assert Numerals.Zeros(0) == "";
    assert s == sign + (Numerals.Zeros(0) + Itoa(if i < 0 then -i else i));
    Numerals.NumeralRead(s, sign, 0, i);
  }

  lemma WordsPrinted(show: Value -> string)
    ensures Stringify(Null, show) == Some("")
    ensures Stringify(Bool(true), show) == Some("true") && Stringify(Bool(false), show) == Some("false")
    ensures forall s :: Stringify(Str(s), show) == Some(s)
  {
  }

  /** Encoding fails exactly on what is no object, and on objects with a nested field. */
  lemma EncodeFailsIff(v: Value, show: Value -> string)
    ensures EncodePayload(v, show).None? <==>
              !v.Obj? || exists k :: k in v.fields && (v.fields[k].Obj? || v.fields[k].Arr?)
  {
    hide Encode, Itoa;
  }
}

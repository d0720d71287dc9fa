/** The java.util.Properties style text codec (resource/payload_codec_kv.go). */
module Properties {
  import opened Payload
  import opened Text

  const BOM := '\U{FEFF}'

  /** The blanks that separate keys from values. */
  predicate IsBlank(c: char) {
    c == ' ' || c == '\t' || c == '\U{000C}'
  }

  predicate IsSeparator(c: char) {
    c == '=' || c == ':' || IsBlank(c)
  }

  // ----- printing -----

  function EscapeKeyChar(c: char, first: bool): string {
    if c == '\\' || c == '=' || c == ':' || c == '#' || c == '!' || (c == ' ' && first) then ['\\', c] else [c]
  }

  function EscapeKeyFrom(key: string, first: bool): string {
    if key == [] then [] else EscapeKeyChar(key[0], first) + EscapeKeyFrom(key[1..], false)
  }

  function EscapeKey(key: string): string {
    EscapeKeyFrom(key, true)
  }

  function EscapeValueChar(c: char, first: bool): string {
    if c == '\\' then "\\\\"
    else if c == '\t' then "\\t"
    else if c == '\n' then "\\n"
    else if c == '\r' then "\\r"
    else if c == '\U{000C}' then "\\f"
    else if c == ' ' && first then "\\ "
    else [c]
  }

  function EscapeValueFrom(value: string, first: bool): string {
    if value == [] then [] else EscapeValueChar(value[0], first) + EscapeValueFrom(value[1..], false)
  }

  function EscapeValue(value: string): string {
    EscapeValueFrom(value, true)
  }

  function LineOf(key: string, value: string): string {
    EscapeKey(key) + "=" + EscapeValue(value)
  }

  /** The text of a list of entries, one line each. */
  function TextOf(entries: seq<(string, string)>): string {
    if entries == [] then [] else LineOf(entries[0].0, entries[0].1) + "\n" + TextOf(entries[1..])
  }

  /** The entries of a map in key order. */
  function EntriesOf(m: map<string, string>): (r: seq<(string, string)>)
    ensures |r| == |m|
  {
    var keys := SortedKeys(m.Keys);
    seq(|keys|, i requires 0 <= i < |keys| => assert keys[i] in keys; (keys[i], m[keys[i]]))
  }

  function Encode(m: map<string, string>): string {
    TextOf(EntriesOf(m))
  }

  /** The text of a scalar; that of floats and binary content is a function of the library. */
  function Stringify(v: Value, show: Value -> string): Option<string> {
    match v
    case Null => Some("")
    case Str(s) => Some(s)
    case Bool(b) => Some(if b then "true" else "false")
    case Int(i) => Some(if i >= 0 then Itoa(i) else "-" + Itoa(-i))
    case Arr(_) => None
    case Obj(_) => None
    case _ => Some(show(v))
  }

  /** The texts of an object of scalars. */
  function Texts(v: Value, show: Value -> string): Option<map<string, string>> {
    if v.Obj? && forall k :: k in v.fields ==> Stringify(v.fields[k], show).Some? then
      Some(map k | k in v.fields :: Stringify(v.fields[k], show).value)
    else None
  }

  function EncodePayload(v: Value, show: Value -> string): Option<string> {
    var texts :- Texts(v, show);
    Some(Encode(texts))
  }

  // ----- reading -----

  /** The text with one kind of line end. */
  function Newlines(s: string): string {
    ReplaceAll(ReplaceAll(s, "\r\n", "\n"), "\r", "\n")
  }

  function SplitLines(data: string): seq<string> {
    Split(Newlines(data), '\n')
  }

  function TrailingBackslashes(s: string): nat {
    if s == [] || s[|s| - 1] != '\\' then 0 else 1 + TrailingBackslashes(s[..|s| - 1])
  }

  /** A line that ends in an unescaped backslash continues on the next one. */
  predicate Continues(s: string) {
    TrailingBackslashes(s) % 2 == 1
  }

  function WithoutBom(line: string): string {
    if line != [] && line[0] == BOM then line[1..] else line
  }

  /** What the next physical line makes of the line being joined. */
  function Joined(current: string, line: string): string {
    if current == [] then line else current[..|current| - 1] + TrimLeft(line, IsBlank)
  }

  function LogicalFrom(lines: seq<string>, current: string): seq<string>
    decreases lines
  {
    if lines == [] then (if current == [] then [] else [current])
    else
      var next := Joined(current, lines[0]);
      if Continues(next) then LogicalFrom(lines[1..], next) else [next] + LogicalFrom(lines[1..], [])
  }

  function LogicalLines(data: string): seq<string> {
    var lines := SplitLines(data);
    LogicalFrom([WithoutBom(lines[0])] + lines[1..], [])
  }

  /** The length of the key: up to the first separator that is not escaped. */
  function KeyLength(line: string): (n: nat)
    ensures n <= |line|
  {
    if line == [] then 0
    else if line[0] == '\\' then (if |line| == 1 then 1 else 2 + KeyLength(line[2..]))
    else if IsSeparator(line[0]) then 0
    else 1 + KeyLength(line[1..])
  }

  /** The value after the separator; a blank separator absorbs further '=' and ':'. */
  function ValueAfter(rest: string): string {
    if rest == [] then []
    else if IsBlank(rest[0]) then TrimLeft(rest, IsSeparator)
    else TrimLeft(rest[1..], IsBlank)
  }

  function HexDigit(c: char): Option<nat> {
    if '0' <= c <= '9' then Some(c as int - '0' as int)
    else if 'a' <= c <= 'f' then Some(10 + (c as int - 'a' as int))
    else if 'A' <= c <= 'F' then Some(10 + (c as int - 'A' as int))
    else None
  }

  /** The character of a four-digit escape; a lone surrogate becomes the replacement character. */
  function HexChar(digits: string): Option<char>
    requires |digits| == 4
  {
    var a :- HexDigit(digits[0]);
    var b :- HexDigit(digits[1]);
    var c :- HexDigit(digits[2]);
    var d :- HexDigit(digits[3]);
    var code := ((a * 16 + b) * 16 + c) * 16 + d;
    if code > 0xFFFF then None
    else if 0xD800 <= code < 0xE000 then Some('\U{FFFD}') else Some(code as char)
  }

  function UnescapeChar(c: char): char {
    if c == 't' then '\t'
    else if c == 'n' then '\n'
    else if c == 'r' then '\r'
    else if c == 'f' then '\U{000C}'
    else c
  }

  function Unescape(s: string): Option<string> {
    if s == [] then Some([])
    else if s[0] != '\\' then Prefixed([s[0]], Unescape(s[1..]))
    else if |s| == 1 then Some("\\")
    else if s[1] == 'u' then
      if |s| < 6 then None
      else match HexChar(s[2..6])
        case None => None
        case Some(c) => Prefixed([c], Unescape(s[6..]))
    else Prefixed([UnescapeChar(s[1])], Unescape(s[2..]))
  }

  predicate IsIgnored(trimmed: string) {
    trimmed == [] || trimmed[0] == '#' || trimmed[0] == '!'
  }

  /** The entry on a logical line, if the line has one. */
  function EntryOn(trimmed: string): Option<(string, string)> {
    var n := KeyLength(trimmed);
    var key :- Unescape(trimmed[..n]);
    var value :- Unescape(ValueAfter(trimmed[n..]));
    Some((key, value))
  }

  function DecodeLines(lines: seq<string>, values: map<string, string>): Option<map<string, string>>
    decreases lines
  {
    if lines == [] then Some(values)
    else
      var trimmed := TrimLeft(lines[0], IsBlank);
      if IsIgnored(trimmed) then DecodeLines(lines[1..], values)
      else
        var entry :- EntryOn(trimmed);
        DecodeLines(lines[1..], values[entry.0 := entry.1])
  }

  function Decode(data: string): Option<map<string, string>> {
    DecodeLines(LogicalLines(data), map[])
  }

  // ----- the scanners -----

  method HasTrailingUnescapedBackslash(value: string) returns (r: bool)
    ensures r == Continues(value)
  {
    var count := 0;
    var idx := |value| - 1;
    assert value[..|value|] == value;
    while idx >= 0 && value[idx] == '\\'
      invariant -1 <= idx < |value|
      invariant TrailingBackslashes(value) == count + TrailingBackslashes(value[..idx + 1])
    {
      assert value[..idx + 1][..idx] == value[..idx];
      count := count + 1;
      idx := idx - 1;
    }
    return count % 2 == 1;
  }

  lemma LogicalNext(lines: seq<string>, idx: nat, logical: seq<string>, current: string)
    requires idx < |lines|
    ensures var next := Joined(current, lines[idx]);
            logical + LogicalFrom(lines[idx..], current) ==
            if Continues(next) then logical + LogicalFrom(lines[idx + 1..], next)
            else logical + [next] + LogicalFrom(lines[idx + 1..], [])
  {
    assert lines[idx..][1..] == lines[idx + 1..];
    hide Continues, Joined;
  }

  method PropertiesLogicalLines(data: string) returns (logical: seq<string>)
    ensures logical == LogicalLines(data)
  {
    var lines := SplitLines(data);
    logical := [];
    var current := "";
    ghost var all := [WithoutBom(lines[0])] + lines[1..];
    assert all[0..] == all && all[|lines|..] == [];
    assert LogicalFrom([], []) == [];
    assert forall c :: c != [] ==> LogicalFrom([], c) == [c];
    hide SplitLines, Continues, Joined, LogicalFrom;
    for idx := 0 to |lines|
      invariant LogicalFrom(all, []) == logical + LogicalFrom(all[idx..], current)
    {
      var line := lines[idx];
      if idx == 0 {
        line := WithoutBom(line);
      }
      LogicalNext(all, idx, logical, current);
      current := Joined(current, line);
      var continues := HasTrailingUnescapedBackslash(current);
      if continues {
        continue;
      }
      logical := logical + [current];
      current := "";
    }
    if current != "" {
      logical := logical + [current];
    }
  }

  /** KeyLength once idx characters are scanned. */
  ghost function KeyLengthFrom(line: string, idx: nat, escaped: bool): nat
    requires idx <= |line|
  {
    if !escaped then idx + KeyLength(line[idx..])
    else if idx == |line| then idx
    else idx + 1 + KeyLength(line[idx + 1..])
  }

  lemma KeyLengthStep(line: string, idx: nat, escaped: bool)
    requires idx < |line| && (escaped || !IsSeparator(line[idx]))
    ensures KeyLengthFrom(line, idx, escaped) == KeyLengthFrom(line, idx + 1, !escaped && line[idx] == '\\')
  {
    var rest := line[idx..];
    assert rest[1..] == line[idx + 1..];
    if idx + 1 < |line| {
      assert rest[2..] == line[idx + 2..];
    }
  }

  method FindSeparator(line: string) returns (idx: nat)
    ensures idx == KeyLength(line)
  {
    idx := 0;
    var escaped := false;
    assert line[0..] == line;
    while idx < |line|
      invariant 0 <= idx <= |line|
      invariant KeyLength(line) == KeyLengthFrom(line, idx, escaped)
    {
      if !escaped && IsSeparator(line[idx]) {
        return;
      }
      KeyLengthStep(line, idx, escaped);
      escaped := !escaped && line[idx] == '\\';
      idx := idx + 1;
    }
  }

  /** What follows the blanks, or the separators of every kind. */
  function AfterSeparators(s: string, absorbs: bool): string {
    if s != [] && (IsBlank(s[0]) || (absorbs && IsSeparator(s[0]))) then AfterSeparators(s[1..], absorbs) else s
  }

  lemma {:induction false} AfterSeparatorsIsTrim(s: string, absorbs: bool)
    ensures AfterSeparators(s, absorbs) == if absorbs then TrimLeft(s, IsSeparator) else TrimLeft(s, IsBlank)
  {
    if s != [] {
      AfterSeparatorsIsTrim(s[1..], absorbs);
    }
  }

  method SkipSeparators(line: string, start: nat, absorbs: bool) returns (valueStart: nat)
    requires start <= |line|
    ensures start <= valueStart <= |line|
    ensures line[valueStart..] == AfterSeparators(line[start..], absorbs)
  {
    valueStart := start;
    while valueStart < |line| && (IsBlank(line[valueStart]) || (absorbs && IsSeparator(line[valueStart])))
      invariant start <= valueStart <= |line|
      invariant AfterSeparators(line[start..], absorbs) == AfterSeparators(line[valueStart..], absorbs)
    {
      assert line[valueStart..][1..] == line[valueStart + 1..];
      valueStart := valueStart + 1;
    }
  }

  method SplitPropertiesKeyValue(line: string) returns (key: string, value: string)
    ensures key == line[..KeyLength(line)] && value == ValueAfter(line[KeyLength(line)..])
  {
    var idx := FindSeparator(line);
    if idx == |line| {
      return line, "";
    }
    ghost var rest := line[idx..];
    assert rest[1..] == line[idx + 1..];
    assert IsSeparator(line[idx]) by {
      KeyEndsAtSeparator(line);
    }
    var separator := line[idx];
    var valueStart := idx;
    if separator == '=' || separator == ':' {
      valueStart := valueStart + 1;
    }
    AfterSeparatorsIsTrim(line[valueStart..], IsBlank(separator));
    valueStart := SkipSeparators(line, valueStart, IsBlank(separator));
    return line[..idx], line[valueStart..];
  }

  lemma {:induction false} KeyEndsAtSeparator(line: string)
    requires KeyLength(line) < |line|
    ensures IsSeparator(line[KeyLength(line)])
  {
    if line[0] == '\\' {
      KeyEndsAtSeparator(line[2..]);
    } else if !IsSeparator(line[0]) {
      KeyEndsAtSeparator(line[1..]);
    }
  }

  method UnescapePropertiesString(value: string) returns (r: Option<string>)
    ensures r == Unescape(value)
  {
    var builder := "";
    var idx := 0;
    assert value[0..] == value;
    PrefixedNothing(Unescape(value));
    while idx < |value|
      invariant 0 <= idx <= |value|
      invariant Unescape(value) == Prefixed(builder, Unescape(value[idx..]))
    {
      ghost var rest := value[idx..];
      if value[idx] != '\\' {
        assert rest[1..] == value[idx + 1..];
        PrefixedTwice(builder, [value[idx]], Unescape(value[idx + 1..]));
        builder := builder + [value[idx]];
        idx := idx + 1;
        continue;
      }
      if idx + 1 >= |value| {
        return Some(builder + "\\");
      }
      if value[idx + 1] == 'u' {
        if idx + 5 >= |value| {
          return None;
        }
        assert rest[2..6] == value[idx + 2..idx + 6] && rest[6..] == value[idx + 6..];
        var c := HexChar(value[idx + 2..idx + 6]);
        if c.None? {
          return None;
        }
        PrefixedTwice(builder, [c.value], Unescape(value[idx + 6..]));
        builder := builder + [c.value];
        idx := idx + 6;
      } else {
        assert rest[2..] == value[idx + 2..];
        PrefixedTwice(builder, [UnescapeChar(value[idx + 1])], Unescape(value[idx + 2..]));
        builder := builder + [UnescapeChar(value[idx + 1])];
        idx := idx + 2;
      }
    }
    assert builder + [] == builder;
    return Some(builder);
  }

  method DecodePropertiesPayload(data: string) returns (r: Option<map<string, string>>)
    ensures r == Decode(data)
  {
    var lines := PropertiesLogicalLines(data);
    var values: map<string, string> := map[];
    assert lines[0..] == lines;
    hide LogicalLines, KeyLength, Unescape, ValueAfter;
    for i := 0 to |lines|
      invariant DecodeLines(lines, map[]) == DecodeLines(lines[i..], values)
    {
      assert lines[i..][1..] == lines[i + 1..];
      var trimmed := TrimLeft(lines[i], IsBlank);
      if IsIgnored(trimmed) {
        continue;
      }
      var keyRaw, valueRaw := SplitPropertiesKeyValue(trimmed);
      var key := UnescapePropertiesString(keyRaw);
      if key.None? {
        return None;
      }
      var value := UnescapePropertiesString(valueRaw);
      if value.None? {
        return None;
      }
      values := values[key.value := value.value];
    }
    return Some(values);
  }

  method EscapePropertiesKey(key: string) returns (r: string)
    ensures r == EscapeKey(key)
  {
    r := "";
    assert key[0..] == key;
    hide EscapeKeyChar, EscapeKeyFrom;
    assert r + EscapeKey(key) == EscapeKey(key);
    for idx := 0 to |key|
      invariant EscapeKey(key) == r + EscapeKeyFrom(key[idx..], idx == 0)
    {
      KeyFromStep(key[idx..], idx == 0);
      assert key[idx..][1..] == key[idx + 1..];
      var unit := EscapeKeyChar(key[idx], idx == 0);
      Regroup(r, unit, EscapeKeyFrom(key[idx + 1..], false));
      r := r + unit;
    }
    KeyFromStep(key[|key|..], |key| == 0);
    assert key[|key|..] == [] && r + [] == r;
  }

  lemma Regroup(a: string, b: string, c: string)
    ensures a + (b + c) == a + b + c
  {
  }

  lemma KeyFromStep(s: string, first: bool)
    ensures EscapeKeyFrom(s, first) == if s == [] then [] else EscapeKeyChar(s[0], first) + EscapeKeyFrom(s[1..], false)
  {
    hide EscapeKeyChar;
  }

  method EscapePropertiesValue(value: string) returns (r: string)
    ensures r == EscapeValue(value)
  {
    r := "";
    assert value[0..] == value;
    hide EscapeValueChar, EscapeValueFrom;
    assert r + EscapeValue(value) == EscapeValue(value);
    for idx := 0 to |value|
      invariant EscapeValue(value) == r + EscapeValueFrom(value[idx..], idx == 0)
    {
      ValueFromStep(value[idx..], idx == 0);
      assert value[idx..][1..] == value[idx + 1..];
      var unit := EscapeValueChar(value[idx], idx == 0);
      Regroup(r, unit, EscapeValueFrom(value[idx + 1..], false));
      r := r + unit;
    }
    ValueFromStep(value[|value|..], |value| == 0);
    assert value[|value|..] == [] && r + [] == r;
  }

  lemma ValueFromStep(s: string, first: bool)
    ensures EscapeValueFrom(s, first) == if s == [] then [] else EscapeValueChar(s[0], first) + EscapeValueFrom(s[1..], false)
  {
    hide EscapeValueChar;
  }

  method EncodePropertiesPayload(v: Value, show: Value -> string) returns (r: Option<string>)
    ensures r == EncodePayload(v, show)
  {
    if !v.Obj? {
      return None;
    }
    hide EscapeKey, EscapeValue, SortedKeys, Stringify, TextOf, Encode, Listed;
    var keys := SortedKeys(v.fields.Keys);
    var data := "";
    ghost var entries: seq<(string, string)> := [];
    NoEntries(v, show, keys);
    for i := 0 to |keys|
      invariant Listed(v, show, keys[..i], entries) && data == TextOf(entries)
    {
      assert keys[i] in keys;
      var text := Stringify(v.fields[keys[i]], show);
      if text.None? {
        return None;
      }
      var key := EscapePropertiesKey(keys[i]);
      var value := EscapePropertiesValue(text.value);
      TextOfNext(entries, keys[i], text.value);
      ListedNext(v, show, keys, i, entries, text.value);
      data := data + (key + "=" + value + "\n");
      entries := entries + [(keys[i], text.value)];
    }
    assert keys[..|keys|] == keys;
    AllListed(v, show, entries);
    r := Some(data);
  }

  /** The entries are the keys with the texts of their values. */
  ghost predicate Listed(v: Value, show: Value -> string, keys: seq<string>, entries: seq<(string, string)>)
    requires v.Obj?
  {
    |entries| == |keys| &&
    forall j :: 0 <= j < |keys| ==> keys[j] in v.fields && entries[j].0 == keys[j] && Stringify(v.fields[keys[j]], show) == Some(entries[j].1)
  }

  lemma NoEntries(v: Value, show: Value -> string, keys: seq<string>)
    requires v.Obj?
    ensures TextOf([]) == "" && Listed(v, show, keys[..0], [])
  {
  }

  lemma ListedNext(v: Value, show: Value -> string, keys: seq<string>, i: nat, entries: seq<(string, string)>, text: string)
    requires v.Obj? && i < |keys| && Listed(v, show, keys[..i], entries)
    requires keys[i] in v.fields && Stringify(v.fields[keys[i]], show) == Some(text)
    ensures Listed(v, show, keys[..i + 1], entries + [(keys[i], text)])
  {
    hide Stringify;
    var all := entries + [(keys[i], text)];
    forall j | 0 <= j < i + 1
      ensures all[j].0 == keys[j] && keys[j] in v.fields && Stringify(v.fields[keys[j]], show) == Some(all[j].1)
    {
      assert j < i ==> keys[..i][j] == keys[j];
    }
  }

  lemma AllListed(v: Value, show: Value -> string, entries: seq<(string, string)>)
    requires v.Obj? && Listed(v, show, SortedKeys(v.fields.Keys), entries)
    ensures Texts(v, show).Some? && Encode(Texts(v, show).value) == TextOf(entries)
  {
    hide SortedKeys, Stringify, TextOf;
    var keys := SortedKeys(v.fields.Keys);
    forall k | k in v.fields
      ensures Stringify(v.fields[k], show).Some?
    {
      assert k in keys;
      var j :| 0 <= j < |keys| && keys[j] == k;
    }
    var texts := Texts(v, show).value;
    assert texts.Keys == v.fields.Keys;
    assert forall j :: 0 <= j < |keys| ==> keys[j] in keys;
    assert EntriesOf(texts) == entries;
  }

  lemma {:induction false} TextOfNext(entries: seq<(string, string)>, key: string, value: string)
    ensures TextOf(entries + [(key, value)]) == TextOf(entries) + (EscapeKey(key) + "=" + EscapeValue(value) + "\n")
  {
    hide EscapeKey, EscapeValue;
    var all := entries + [(key, value)];
    var line := EscapeKey(key) + "=" + EscapeValue(value) + "\n";
    if entries == [] {
      assert all[1..] == [] && line + [] == line && [] + line == line;
    } else {
      TextOfNext(entries[1..], key, value);
      assert all[1..] == entries[1..] + [(key, value)];
    }
  }

  // ----- lines -----

  /** Lines end at "\n", "\r\n" or "\r". */
  function LinesOf(s: string): (lines: seq<string>)
    ensures lines != []
  {
    if s == [] then [[]]
    else if s[0] == '\n' then [[]] + LinesOf(s[1..])
    else if s[0] == '\r' then [[]] + LinesOf(if |s| > 1 && s[1] == '\n' then s[2..] else s[1..])
    else
      var rest := LinesOf(s[1..]);
      [[s[0]] + rest[0]] + rest[1..]
  }

  lemma NewlinesStep(s: string)
    requires s != []
    ensures s[0] == '\r' && |s| > 1 && s[1] == '\n' ==> Newlines(s) == "\n" + Newlines(s[2..])
    ensures s[0] == '\r' && !(|s| > 1 && s[1] == '\n') ==> Newlines(s) == "\n" + Newlines(s[1..])
    ensures s[0] != '\r' ==> Newlines(s) == [s[0]] + Newlines(s[1..])
  {
    var pair := "\r\n";
    assert pair[0] == '\r' && pair[1] == '\n';
    if s[0] == '\r' && |s| > 1 && s[1] == '\n' {
      assert pair <= s;
      ReplaceHead('\n', ReplaceAll(s[2..], pair, "\n"));
      assert "\n" + ReplaceAll(s[2..], pair, "\n") == ['\n'] + ReplaceAll(s[2..], pair, "\n");
    } else {
      ReplaceHead(s[0], ReplaceAll(s[1..], pair, "\n"));
    }
  }

  lemma ReplaceHead(c: char, x: string)
    ensures ReplaceAll([c] + x, "\r", "\n") == (if c == '\r' then "\n" else [c]) + ReplaceAll(x, "\r", "\n")
  {
    var t := [c] + x;
    assert t[1..] == x && t[0] == c && "\r"[0] == '\r';
    assert c == '\r' ==> "\r" <= t;
  }

  lemma {:induction false} SplitLinesAre(s: string)
    ensures SplitLines(s) == LinesOf(s)
    decreases |s|
  {
    if s != [] {
      NewlinesStep(s);
      var n := if s[0] == '\r' && |s| > 1 && s[1] == '\n' then 2 else 1;
      SplitLinesAre(s[n..]);
      var t := Newlines(s);
      assert t[1..] == Newlines(s[n..]);
    }
  }

  predicate NoNewline(s: string) {
    forall i :: 0 <= i < |s| ==> s[i] != '\n' && s[i] != '\r'
  }

  lemma {:induction false} LineThenRest(line: string, rest: string)
    requires NoNewline(line)
    ensures LinesOf(line + "\n" + rest) == [line] + LinesOf(rest)
  {
    var s := line + "\n" + rest;
    if line == [] {
      assert s[1..] == rest;
    } else {
      LineThenRest(line[1..], rest);
      assert s[1..] == line[1..] + "\n" + rest;
      assert line == [line[0]] + line[1..];
    }
  }

  // ----- escaped text -----

  /** Every backslash starts a complete pair. */
  ghost predicate Paired(s: string) {
    if s == [] then true
    else if s[0] == '\\' then |s| >= 2 && Paired(s[2..])
    else Paired(s[1..])
  }

  lemma {:induction false} TrailingAfterFirst(c: char, s: string)
    ensures TrailingBackslashes([c] + s) ==
            if TrailingBackslashes(s) == |s| && c == '\\' then |s| + 1 else TrailingBackslashes(s)
    ensures TrailingBackslashes(s) <= |s|
    decreases |s|
  {
    var t := [c] + s;
    if s != [] {
      assert t[..|t| - 1] == [c] + s[..|s| - 1];
      TrailingAfterFirst(c, s[..|s| - 1]);
    } else {
      assert t[..0] == [];
    }
  }

  lemma {:induction false} PairedDoesNotContinue(s: string)
    requires Paired(s)
    ensures !Continues(s)
    ensures TrailingBackslashes(s) == |s| ==> |s| % 2 == 0
    decreases |s|
  {
    if s != [] {
      if s[0] == '\\' {
        PairedDoesNotContinue(s[2..]);
        TrailingAfterFirst(s[1], s[2..]);
        assert [s[1]] + s[2..] == s[1..];
      } else {
        PairedDoesNotContinue(s[1..]);
      }
      TrailingAfterFirst(s[0], s[1..]);
      assert [s[0]] + s[1..] == s;
    }
  }

  lemma {:induction false} PairedConcat(a: string, b: string)
    requires Paired(a) && Paired(b)
    ensures Paired(a + b)
    decreases |a|
  {
    if a == [] {
      assert a + b == b;
    } else {
      var n := if a[0] == '\\' then 2 else 1;
      PairedConcat(a[n..], b);
      assert (a + b)[n..] == a[n..] + b;
    }
  }

  lemma ValueUnit(c: char, first: bool)
    ensures var unit := EscapeValueChar(c, first);
            NoNewline(unit) && (first ==> !IsBlank(unit[0])) &&
            ((unit == [c] && c != '\\') || (|unit| == 2 && unit[0] == '\\' && unit[1] != 'u' && UnescapeChar(unit[1]) == c))
  {
  }

  lemma {:induction false} ValueText(value: string, first: bool)
    ensures var e := EscapeValueFrom(value, first);
            Paired(e) && NoNewline(e) && Unescape(e) == Some(value) && (first && e != [] ==> !IsBlank(e[0]))
    decreases |value|
  {
    if value != [] {
      ValueText(value[1..], false);
      ValueUnit(value[0], first);
      var unit, rest := EscapeValueChar(value[0], first), EscapeValueFrom(value[1..], false);
      var e := unit + rest;
      assert EscapeValueFrom(value, first) == e;
      assert e[|unit|..] == rest;
      assert value == [value[0]] + value[1..];
      hide EscapeValueChar, UnescapeChar;
    }
  }

  lemma KeyUnit(c: char, first: bool)
    ensures var unit := EscapeKeyChar(c, first);
            (unit == [c] && c != '\\') || (|unit| == 2 && unit[0] == '\\' && unit[1] == c && c != 'u' && UnescapeChar(c) == c)
  {
  }

  lemma {:induction false} KeyText(key: string, first: bool)
    ensures var e := EscapeKeyFrom(key, first);
            Paired(e) && Unescape(e) == Some(key)
    decreases |key|
  {
    if key != [] {
      KeyText(key[1..], false);
      KeyUnit(key[0], first);
      var unit, rest := EscapeKeyChar(key[0], first), EscapeKeyFrom(key[1..], false);
      var e := unit + rest;
      assert EscapeKeyFrom(key, first) == e;
      assert e[|unit|..] == rest;
      assert key == [key[0]] + key[1..];
      hide EscapeKeyChar, UnescapeChar;
    }
  }

  /** A key that the format can carry: no tab, newline, carriage return or form feed, and a
      space only as the first character. */
  ghost predicate Carried(key: string, first: bool) {
    forall i :: 0 <= i < |key| ==>
      key[i] != '\t' && key[i] != '\n' && key[i] != '\r' && key[i] != '\U{000C}' && (key[i] == ' ' ==> first && i == 0)
  }

  lemma {:induction false} CarriedKeyText(key: string, first: bool, rest: string)
    requires Carried(key, first) && rest != [] && rest[0] == '='
    ensures var e := EscapeKeyFrom(key, first);
            NoNewline(e) && KeyLength(e + rest) == |e|
    decreases |key|
  {
    var e := EscapeKeyFrom(key, first);
    if key == [] {
      assert e + rest == rest;
    } else {
      CarriedKeyText(key[1..], false, rest);
      var n := |EscapeKeyChar(key[0], first)|;
      assert e[n..] == EscapeKeyFrom(key[1..], false);
      assert (e + rest)[n..] == e[n..] + rest;
    }
  }

  lemma LineStart(key: string, value: string)
    requires Carried(key, true)
    ensures var line := LineOf(key, value);
            TrimLeft(line, IsBlank) == line && !IsIgnored(line) &&
            (line[0] == BOM <==> key != [] && key[0] == BOM)
  {
    var line := LineOf(key, value);
    if key != [] {
      assert line[0] == EscapeKeyChar(key[0], true)[0];
    }
    assert !IsBlank(line[0]);
  }

  lemma ValueAfterEquals(value: string)
    requires value != [] ==> !IsBlank(value[0])
    ensures ValueAfter("=" + value) == value
  {
    assert ("=" + value)[1..] == value;
  }

  lemma LineEntry(key: string, value: string)
    requires Carried(key, true)
    ensures EntryOn(LineOf(key, value)) == Some((key, value))
  {
    var e, v, line := EscapeKey(key), EscapeValue(value), LineOf(key, value);
    var rest := "=" + v;
    assert line == e + rest;
    assert KeyLength(line) == |e| by {
      CarriedKeyText(key, true, rest);
    }
    assert line[..|e|] == e && line[|e|..] == rest;
    assert Unescape(e) == Some(key) by {
      KeyText(key, true);
    }
    assert Unescape(v) == Some(value) && ValueAfter(rest) == v by {
      ValueText(value, true);
      ValueAfterEquals(v);
    }
    hide KeyLength, Unescape, ValueAfter, LineOf;
  }

  lemma LineWhole(key: string, value: string)
    ensures Paired(LineOf(key, value))
    ensures Carried(key, true) ==> NoNewline(LineOf(key, value))
  {
    KeyText(key, true);
    ValueText(value, true);
    PairedConcat(EscapeKey(key), "=");
    PairedConcat(EscapeKey(key) + "=", EscapeValue(value));
    if Carried(key, true) {
      CarriedKeyText(key, true, "=");
    }
  }

  // ----- decoding what was encoded -----

  ghost predicate AllCarried(entries: seq<(string, string)>) {
    forall i :: 0 <= i < |entries| ==> Carried(entries[i].0, true)
  }

  function Lines(entries: seq<(string, string)>): (r: seq<string>)
    ensures |r| == |entries|
  {
    seq(|entries|, i requires 0 <= i < |entries| => LineOf(entries[i].0, entries[i].1))
  }

  lemma {:induction false} LinesOfText(entries: seq<(string, string)>)
    requires AllCarried(entries)
    ensures LinesOf(TextOf(entries)) == Lines(entries) + [[]]
  {
    if entries != [] {
      var (key, value) := entries[0];
      LineWhole(key, value);
      LinesOfText(entries[1..]);
      LineThenRest(LineOf(key, value), TextOf(entries[1..]));
      assert Lines(entries) == [LineOf(key, value)] + Lines(entries[1..]);
    }
  }

  lemma {:induction false} LogicalOfWhole(lines: seq<string>)
    requires forall i :: 0 <= i < |lines| ==> !Continues(lines[i])
    ensures LogicalFrom(lines, []) == lines
  {
    if lines != [] {
      LogicalOfWhole(lines[1..]);
    }
  }

  /** The map that a list of entries builds, later entries winning. */
  function Built(entries: seq<(string, string)>, values: map<string, string>): map<string, string>
    decreases entries
  {
    if entries == [] then values else Built(entries[1..], values[entries[0].0 := entries[0].1])
  }

  lemma DecodeStep(lines: seq<string>, values: map<string, string>, key: string, value: string)
    requires lines != [] && Carried(key, true) && lines[0] == LineOf(key, value)
    ensures DecodeLines(lines, values) == DecodeLines(lines[1..], values[key := value])
  {
    LineStart(key, value);
    LineEntry(key, value);
    hide LineOf, EntryOn, TrimLeft, IsIgnored;
  }

  lemma {:induction false} DecodeOfLines(entries: seq<(string, string)>, values: map<string, string>)
    requires AllCarried(entries)
    ensures DecodeLines(Lines(entries) + [[]], values) == Some(Built(entries, values))
    decreases entries
  {
    var lines := Lines(entries) + [[]];
    if entries == [] {
      assert lines[1..] == [] && lines[0] == [];
    } else {
      var (key, value) := entries[0];
      assert lines[0] == LineOf(key, value) && lines[1..] == Lines(entries[1..]) + [[]];
      hide DecodeLines, LineOf;
      DecodeStep(lines, values, key, value);
      DecodeOfLines(entries[1..], values[key := value]);
    }
  }

  /** The entries with a byte order mark taken off the first key. */
  function StripFirst(entries: seq<(string, string)>): seq<(string, string)> {
    if entries != [] && entries[0].0 != [] && entries[0].0[0] == BOM
    then [(entries[0].0[1..], entries[0].1)] + entries[1..] else entries
  }

  lemma StrippedLine(key: string, value: string)
    requires Carried(key, true) && key != [] && key[0] == BOM
    ensures Carried(key[1..], true) && LineOf(key, value)[1..] == LineOf(key[1..], value)
  {
    var x := key[1..];
    assert forall i :: 0 <= i < |x| ==> x[i] == key[i + 1];
    assert EscapeKeyFrom(x, false) == EscapeKeyFrom(x, true);
    assert EscapeKey(key) == [BOM] + EscapeKey(x);
    hide EscapeKey, EscapeValue;
    assert LineOf(key, value) == [BOM] + LineOf(x, value);
  }

  lemma StripFirstLine(entries: seq<(string, string)>)
    requires entries != [] && AllCarried(entries)
    ensures AllCarried(StripFirst(entries))
    ensures var lines := Lines(entries) + [[]];
            [WithoutBom(lines[0])] + lines[1..] == Lines(StripFirst(entries)) + [[]]
  {
    var (key, value) := entries[0];
    var rest := entries[1..];
    LineStart(key, value);
    assert entries == [(key, value)] + rest;
    LinesCons((key, value), rest);
    if key != [] && key[0] == BOM {
      StrippedLine(key, value);
      assert StripFirst(entries) == [(key[1..], value)] + rest;
      LinesCons((key[1..], value), rest);
    }
    hide LineOf, Carried, Lines;
    var line, after := LineOf(key, value), Lines(rest) + [[]];
    assert Lines(entries) + [[]] == [line] + after;
    assert ([line] + after)[1..] == after;
    assert Lines(StripFirst(entries)) + [[]] == [WithoutBom(line)] + after;
  }

  lemma LinesCons(entry: (string, string), rest: seq<(string, string)>)
    ensures Lines([entry] + rest) == [LineOf(entry.0, entry.1)] + Lines(rest)
  {
    hide LineOf;
  }

  /** The logical lines of encoded text are its physical lines. */
  lemma LogicalLinesOfText(entries: seq<(string, string)>)
    requires AllCarried(entries)
    ensures AllCarried(StripFirst(entries))
    ensures LogicalLines(TextOf(entries)) == Lines(StripFirst(entries)) + [[]]
  {
    var stripped := StripFirst(entries);
    var lines, all := Lines(entries) + [[]], Lines(stripped) + [[]];
    assert SplitLines(TextOf(entries)) == lines by {
      SplitLinesAre(TextOf(entries));
      LinesOfText(entries);
    }
    hide SplitLines, TextOf, LineOf, Carried;
    if entries == [] {
      assert [WithoutBom(lines[0])] + lines[1..] == all;
    } else {
      StripFirstLine(entries);
    }
    forall i | 0 <= i < |all|
      ensures !Continues(all[i])
    {
      if i < |stripped| {
        LineWhole(stripped[i].0, stripped[i].1);
        PairedDoesNotContinue(all[i]);
      }
    }
    LogicalOfWhole(all);
  }

  lemma DecodeOfText(entries: seq<(string, string)>)
    requires AllCarried(entries)
    ensures Decode(TextOf(entries)) == Some(Built(StripFirst(entries), map[]))
  {
    hide LogicalLines, TextOf, Lines, DecodeLines, Built;
    LogicalLinesOfText(entries);
    DecodeOfLines(StripFirst(entries), map[]);
  }

  lemma {:induction false} BuiltKeys(entries: seq<(string, string)>, values: map<string, string>, k: string)
    ensures k in Built(entries, values) <==> k in values || exists i :: 0 <= i < |entries| && entries[i].0 == k
    decreases entries
  {
    if entries != [] {
      BuiltKeys(entries[1..], values[entries[0].0 := entries[0].1], k);
      if k !in values && entries[0].0 != k && k in Built(entries, values) {
        var i :| 0 <= i < |entries[1..]| && entries[1..][i].0 == k;
        assert entries[i + 1].0 == k;
      }
      assert forall i :: 0 < i < |entries| ==> entries[1..][i - 1] == entries[i];
    }
  }

  lemma {:induction false} BuiltFinds(entries: seq<(string, string)>, values: map<string, string>, i: nat)
    requires i < |entries| && forall a, b :: 0 <= a < b < |entries| ==> entries[a].0 != entries[b].0
    ensures entries[i].0 in Built(entries, values) && Built(entries, values)[entries[i].0] == entries[i].1
    decreases entries
  {
    var next := values[entries[0].0 := entries[0].1];
    if i > 0 {
      BuiltFinds(entries[1..], next, i - 1);
    } else {
      BuiltKeeps(entries[1..], next, entries[0].0);
    }
  }

  lemma {:induction false} BuiltKeeps(entries: seq<(string, string)>, values: map<string, string>, k: string)
    requires k in values && forall a :: 0 <= a < |entries| ==> entries[a].0 != k
    ensures k in Built(entries, values) && Built(entries, values)[k] == values[k]
    decreases entries
  {
    if entries != [] {
      BuiltKeeps(entries[1..], values[entries[0].0 := entries[0].1], k);
    }
  }

  lemma EntriesDistinct(m: map<string, string>)
    ensures var entries := EntriesOf(m);
            forall a, b :: 0 <= a < b < |entries| ==> entries[a].0 != entries[b].0
  {
    forall a, b | 0 <= a < b < |EntriesOf(m)|
      ensures EntriesOf(m)[a].0 != EntriesOf(m)[b].0
    {
      SortedKeysOrdered(m.Keys, a, b);
    }
  }

  lemma EntryIndex(m: map<string, string>, k: string) returns (i: nat)
    requires k in m
    ensures i < |EntriesOf(m)| && EntriesOf(m)[i] == (k, m[k])
  {
    var keys := SortedKeys(m.Keys);
    assert k in keys;
    i :| 0 <= i < |keys| && keys[i] == k;
  }

  lemma EntryIn(m: map<string, string>, i: nat)
    requires i < |EntriesOf(m)|
    ensures EntriesOf(m)[i].0 in m && EntriesOf(m)[i].1 == m[EntriesOf(m)[i].0]
  {
    var keys := SortedKeys(m.Keys);
    assert keys[i] in keys;
  }

  lemma BuiltFromEntries(m: map<string, string>)
    ensures Built(EntriesOf(m), map[]) == m
  {
    var entries := EntriesOf(m);
    var built := Built(entries, map[]);
    EntriesDistinct(m);
    hide EntriesOf, Built;
    forall k
      ensures k in built <==> k in m
      ensures k in m ==> built[k] == m[k]
    {
      BuiltKeys(entries, map[], k);
      if k in m {
        var i := EntryIndex(m, k);
        BuiltFinds(entries, map[], i);
      } else if k in built {
        var i :| 0 <= i < |entries| && entries[i].0 == k;
        EntryIn(m, i);
      }
    }
  }

  // ----- no line of encoded text decodes to a key that is not carried -----

  predicate KeyEscape(c: char, first: bool) {
    c == '\\' || c == '=' || c == ':' || c == '#' || c == '!' || (c == ' ' && first)
  }

  /** A line made of escaped key text, up to an unescaped '=' if there is one, and then of
      complete pairs. */
  ghost predicate EncodedLine(s: string, first: bool) {
    if s == [] then true
    else if s[0] == '=' then Paired(s[1..])
    else if s[0] == '\\' then |s| >= 2 && KeyEscape(s[1], first) && EncodedLine(s[2..], false)
    else EncodedLine(s[1..], false)
  }

  lemma {:induction false} EncodedLineAnywhere(s: string)
    requires EncodedLine(s, false)
    ensures EncodedLine(s, true)
  {
  }

  lemma {:induction false} EncodedLinePaired(s: string, first: bool)
    requires EncodedLine(s, first)
    ensures Paired(s)
    decreases |s|
  {
    if s != [] && s[0] != '=' {
      EncodedLinePaired(if s[0] == '\\' then s[2..] else s[1..], false);
    }
  }

  lemma {:induction false} EncodedLineTrimmed(s: string)
    requires EncodedLine(s, true)
    ensures EncodedLine(TrimLeft(s, IsBlank), true)
  {
    if s != [] && IsBlank(s[0]) {
      EncodedLineAnywhere(s[1..]);
      EncodedLineTrimmed(s[1..]);
    }
  }

  lemma CarriedNext(c: char, key: string, first: bool)
    requires Carried(key, false) && Carried([c], first)
    ensures Carried([c] + key, first)
  {
    var k := [c] + key;
    assert [c][0] == c;
    forall i | 0 <= i < |k|
      ensures k[i] != '\t' && k[i] != '\n' && k[i] != '\r' && k[i] != '\U{000C}' && (k[i] == ' ' ==> first && i == 0)
    {
      assert i > 0 ==> k[i] == key[i - 1];
    }
  }

  /** One unit of a key: a plain character that is not a separator, or an escaped one. */
  lemma KeyUnitStep(s: string, n: nat)
    requires s != [] && n == (if s[0] == '\\' then 2 else 1) <= |s|
    requires s[0] == '\\' ==> s[1] != 'u' && UnescapeChar(s[1]) == s[1]
    requires s[0] != '\\' ==> !IsSeparator(s[0])
    ensures KeyLength(s) == n + KeyLength(s[n..])
    ensures Unescape(s[..KeyLength(s)]) == Prefixed([s[n - 1]], Unescape(s[n..][..KeyLength(s[n..])]))
  {
    hide KeyLength, Unescape, UnescapeChar;
    KeyLengthUnit(s, n);
    var rest := s[n..][..KeyLength(s[n..])];
    var raw := s[..n + KeyLength(s[n..])];
    assert raw == s[..n] + rest;
    UnescapeUnit(s[..n], rest);
  }

  lemma KeyLengthUnit(s: string, n: nat)
    requires s != [] && n == (if s[0] == '\\' then 2 else 1) <= |s| && (s[0] != '\\' ==> !IsSeparator(s[0]))
    ensures KeyLength(s) == n + KeyLength(s[n..])
  {
  }

  lemma UnescapeUnit(unit: string, rest: string)
    requires unit != [] && |unit| == (if unit[0] == '\\' then 2 else 1)
    requires unit[0] == '\\' ==> unit[1] != 'u' && UnescapeChar(unit[1]) == unit[1]
    ensures Unescape(unit + rest) == Prefixed([unit[|unit| - 1]], Unescape(rest))
  {
    hide UnescapeChar, HexChar;
    assert (unit + rest)[|unit|..] == rest;
  }

  lemma {:induction false} EncodedLineKey(s: string, first: bool)
    requires EncodedLine(s, first) && NoNewline(s)
    ensures var key := Unescape(s[..KeyLength(s)]);
            key.Some? && Carried(key.value, first)
    decreases |s|
  {
    if s == [] || IsSeparator(s[0]) {
      assert KeyLength(s) == 0 && Unescape([]) == Some([]);
      hide KeyLength, Unescape;
      assert s[..0] == [];
    } else {
      hide KeyLength, Unescape;
      var n := if s[0] == '\\' then 2 else 1;
      EncodedLineKey(s[n..], false);
      KeyUnitStep(s, n);
      CarriedNext(s[n - 1], Unescape(s[n..][..KeyLength(s[n..])]).value, first);
    }
    hide KeyLength, Unescape;
  }

  lemma LineKeyCarried(line: string)
    requires EncodedLine(line, true) && NoNewline(line)
    ensures var entry := EntryOn(TrimLeft(line, IsBlank));
            entry.Some? ==> Carried(entry.value.0, true)
  {
    var trimmed := TrimLeft(line, IsBlank);
    EncodedLineTrimmed(line);
    TrimLeftSuffix(line, IsBlank);
    assert NoNewline(trimmed);
    hide KeyLength, Unescape, EncodedLine, TrimLeft;
    EncodedLineKey(trimmed, true);
  }

  ghost predicate EncodedLines(lines: seq<string>, first: bool) {
    lines != [] && EncodedLine(lines[0], first) &&
    (forall i :: 0 < i < |lines| ==> EncodedLine(lines[i], true)) &&
    (forall i :: 0 <= i < |lines| ==> NoNewline(lines[i]))
  }

  lemma EncodedNewLine(lines: seq<string>, first: bool)
    requires EncodedLines(lines, false)
    ensures EncodedLines([[]] + lines, first)
  {
    EncodedLineAnywhere(lines[0]);
  }

  lemma EncodedLonger(front: string, lines: seq<string>, first: bool)
    requires EncodedLines(lines, false) && NoNewline(front) && EncodedLine(front + lines[0], first)
    ensures EncodedLines([front + lines[0]] + lines[1..], first)
  {
  }

  lemma LinesLonger(c: char, d: char, s: string)
    requires NoNewline([c]) && NoNewline([d])
    ensures LinesOf([c] + s) == [[c] + LinesOf(s)[0]] + LinesOf(s)[1..]
    ensures LinesOf([c, d] + s) == [[c, d] + LinesOf(s)[0]] + LinesOf(s)[1..]
  {
    assert NoNewline([c]) ==> [c][0] != '\n' && [c][0] != '\r';
    assert NoNewline([d]) ==> [d][0] != '\n' && [d][0] != '\r';
    assert ([c] + s)[1..] == s && ([d] + s)[1..] == s;
    assert ([c, d] + s)[1..] == [d] + s;
    assert [c] + ([d] + LinesOf(s)[0]) == [c, d] + LinesOf(s)[0];
  }

  lemma {:induction false} KeyLines(key: string, first: bool, tail: string)
    requires tail != [] && tail[0] == '=' && EncodedLines(LinesOf(tail), false)
    ensures EncodedLines(LinesOf(EscapeKeyFrom(key, first) + tail), first)
    decreases |key|
  {
    var text := EscapeKeyFrom(key, first) + tail;
    if key == [] {
      assert text == tail;
    } else {
      var c, unit := key[0], EscapeKeyChar(key[0], first);
      var rest := EscapeKeyFrom(key[1..], false) + tail;
      assert text == unit + rest;
      KeyLines(key[1..], false, tail);
      hide EncodedLines, EscapeKeyFrom;
      if c == '\n' {
        assert text[1..] == rest;
        EncodedNewLine(LinesOf(rest), first);
      } else if c == '\r' {
        CarriageReturn(key, first, tail);
      } else if unit == [c] {
        LinesLonger(c, c, rest);
        var lines := LinesOf(rest);
        assert ([c] + lines[0])[1..] == lines[0];
        EncodedLonger([c], lines, first);
      } else {
        LinesLonger('\\', c, rest);
        var lines := LinesOf(rest);
        assert (['\\', c] + lines[0])[2..] == lines[0];
        EncodedLonger(['\\', c], lines, first);
      }
    }
  }

  lemma CarriageReturnLines(text: string, rest: string)
    requires text == ['\r'] + rest
    ensures LinesOf(text) == [[]] + LinesOf(if rest != [] && rest[0] == '\n' then rest[1..] else rest)
  {
    assert text[1..] == rest && (rest != [] ==> text[1] == rest[0] && text[2..] == rest[1..]);
  }

  lemma NewlineHead(key: string, tail: string)
    requires tail != [] && tail[0] == '='
    ensures var rest := EscapeKeyFrom(key, false) + tail;
            rest[0] == '\n' ==> key != [] && rest[1..] == EscapeKeyFrom(key[1..], false) + tail
  {
    if key != [] {
      var unit, more := EscapeKeyChar(key[0], false), EscapeKeyFrom(key[1..], false);
      assert EscapeKeyFrom(key, false) + tail == unit + (more + tail);
    }
  }

  lemma CarriageReturnHead(key: string, first: bool, tail: string)
    requires key != [] && key[0] == '\r'
    ensures EscapeKeyFrom(key, first) + tail == ['\r'] + (EscapeKeyFrom(key[1..], false) + tail)
  {
  }

  lemma {:induction false} CarriageReturn(key: string, first: bool, tail: string)
    requires key != [] && key[0] == '\r' && tail != [] && tail[0] == '=' && EncodedLines(LinesOf(tail), false)
    requires EncodedLines(LinesOf(EscapeKeyFrom(key[1..], false) + tail), false)
    ensures EncodedLines(LinesOf(EscapeKeyFrom(key, first) + tail), first)
    decreases |key|, 0
  {
    hide LinesOf, EscapeKeyFrom, EncodedLines;
    var rest := EscapeKeyFrom(key[1..], false) + tail;
    CarriageReturnHead(key, first, tail);
    CarriageReturnLines(EscapeKeyFrom(key, first) + tail, rest);
    NewlineHead(key[1..], tail);
    if rest[0] == '\n' {
      KeyLines(key[1..][1..], false, tail);
      EncodedNewLine(LinesOf(rest[1..]), first);
    } else {
      EncodedNewLine(LinesOf(rest), first);
    }
  }

  lemma ValueLines(value: string, after: string)
    requires EncodedLines(LinesOf(after), true)
    ensures EncodedLines(LinesOf("=" + EscapeValue(value) + "\n" + after), false)
  {
    var line := "=" + EscapeValue(value);
    ValueText(value, true);
    assert line[1..] == EscapeValue(value);
    assert EncodedLine(line, false) && NoNewline(line);
    hide EscapeValue, EncodedLine, NoNewline, LinesOf;
    LineThenRest(line, after);
  }

  lemma EntryLines(key: string, value: string, after: string)
    requires EncodedLines(LinesOf(after), true)
    ensures EncodedLines(LinesOf(LineOf(key, value) + "\n" + after), true)
  {
    var tail := "=" + EscapeValue(value) + "\n" + after;
    assert LineOf(key, value) + "\n" + after == EscapeKeyFrom(key, true) + tail;
    hide EscapeKeyFrom, EscapeValue, EncodedLines, LinesOf, LineOf;
    ValueLines(value, after);
    KeyLines(key, true, tail);
  }

  lemma {:induction false} TextLines(entries: seq<(string, string)>)
    ensures EncodedLines(LinesOf(TextOf(entries)), true)
  {
    if entries != [] {
      TextLines(entries[1..]);
      EntryLines(entries[0].0, entries[0].1, TextOf(entries[1..]));
    }
  }

  lemma {:induction false} DecodedKeysCarried(lines: seq<string>, values: map<string, string>)
    requires forall i :: 0 <= i < |lines| ==> EncodedLine(lines[i], true) && NoNewline(lines[i])
    requires DecodeLines(lines, values).Some? && forall k :: k in values ==> Carried(k, true)
    ensures forall k :: k in DecodeLines(lines, values).value ==> Carried(k, true)
    decreases lines
  {
    hide EntryOn, EncodedLine, NoNewline, Carried, TrimLeft, IsIgnored;
    if lines != [] {
      LineKeyCarried(lines[0]);
      var trimmed := TrimLeft(lines[0], IsBlank);
      if IsIgnored(trimmed) {
        DecodedKeysCarried(lines[1..], values);
      } else {
        var entry := EntryOn(trimmed).value;
        DecodedKeysCarried(lines[1..], values[entry.0 := entry.1]);
      }
    }
  }

  lemma EncodedLogicalLines(data: string)
    requires EncodedLines(LinesOf(data), true)
    ensures forall i :: 0 <= i < |LogicalLines(data)| ==>
              EncodedLine(LogicalLines(data)[i], true) && NoNewline(LogicalLines(data)[i])
  {
    var lines := LinesOf(data);
    assert SplitLines(data) == lines by {
      SplitLinesAre(data);
    }
    hide SplitLines, LinesOf;
    var all := [WithoutBom(lines[0])] + lines[1..];
    if lines[0] != [] && lines[0][0] == BOM {
      EncodedLineAnywhere(lines[0][1..]);
    }
    forall i | 0 <= i < |all|
      ensures EncodedLine(all[i], true) && NoNewline(all[i]) && !Continues(all[i])
    {
      assert i > 0 ==> all[i] == lines[i];
      EncodedLinePaired(all[i], true);
      PairedDoesNotContinue(all[i]);
    }
    LogicalOfWhole(all);
  }

  /** Whatever is encoded, only carried keys come back. */
  lemma OnlyCarriedKeysReturn(m: map<string, string>)
    requires Decode(Encode(m)).Some?
    ensures forall k :: k in Decode(Encode(m)).value ==> Carried(k, true)
  {
    hide LogicalLines, TextOf, DecodeLines, EntriesOf, LinesOf;
    TextLines(EntriesOf(m));
    EncodedLogicalLines(Encode(m));
    DecodedKeysCarried(LogicalLines(Encode(m)), map[]);
  }

  /** The least key, which is written first, starts with a byte order mark. */
  ghost predicate LeastKeyHasBom(m: map<string, string>) {
    var entries := EntriesOf(m);
    entries != [] && entries[0].0 != [] && entries[0].0[0] == BOM
  }

  lemma StrippedDiffers(m: map<string, string>)
    requires LeastKeyHasBom(m)
    ensures Built(StripFirst(EntriesOf(m)), map[]) != m
  {
    var entries := EntriesOf(m);
    var stripped := StripFirst(entries);
    EntriesDistinct(m);
    EntryIn(m, 0);
    var k := entries[0].0;
    BuiltKeys(stripped, map[], k);
    assert forall i :: 0 < i < |stripped| ==> stripped[i] == entries[i];
    assert |stripped[0].0| < |k|;
  }

  /** Decoding undoes encoding exactly for the maps whose keys are all carried and whose
      least key does not start with a byte order mark; values are arbitrary. */
  lemma RoundTripIff(m: map<string, string>)
    ensures Decode(Encode(m)) == Some(m)
            <==> (forall k :: k in m ==> Carried(k, true)) && !LeastKeyHasBom(m)
  {
    var entries := EntriesOf(m);
    hide Decode, TextOf, EntriesOf, Built;
    if forall k :: k in m ==> Carried(k, true) {
      forall i | 0 <= i < |entries|
        ensures Carried(entries[i].0, true)
      {
        EntryIn(m, i);
      }
      DecodeOfText(entries);
      BuiltFromEntries(m);
      if LeastKeyHasBom(m) {
        StrippedDiffers(m);
      }
    } else if Decode(Encode(m)).Some? {
      OnlyCarriedKeysReturn(m);
    }
  }

  /** What decoding makes of a text: an object of strings. */
  function DecodePayload(data: string): Option<Value> {
    var m :- Decode(data);
    Some(Obj(map k | k in m :: Str(m[k])))
  }

  /** An object of scalars comes back exactly when its values are strings and its keys come back. */
  lemma PayloadRoundTripIff(v: Value, show: Value -> string)
    requires EncodePayload(v, show).Some?
    ensures DecodePayload(EncodePayload(v, show).value) == Some(v) <==>
              (forall k :: k in v.fields ==> v.fields[k].Str? && Carried(k, true)) && !LeastKeyHasBom(Texts(v, show).value)
  {
    hide Decode, Encode, Carried, LeastKeyHasBom;
    var texts := Texts(v, show).value;
    RoundTripIff(texts);
    if DecodePayload(Encode(texts)) == Some(v) {
      var m := Decode(Encode(texts)).value;
      assert forall k :: k in v.fields ==> k in m && v.fields[k] == Str(m[k]);
      assert m == texts;
    }
    if Decode(Encode(texts)) == Some(texts) && forall k :: k in v.fields ==> v.fields[k].Str? {
      assert DecodePayload(Encode(texts)).value.fields == v.fields;
    }
  }

  /** The family of failures is not empty: a key with an inner space, a key with a tab, a
      key with a newline, and a least key with a byte order mark do not come back. */
  lemma KeysThatDoNotReturn(value: string, key: string)
    requires key in ["a b", "a\tb", "a\nb", [BOM]]
    ensures Decode(Encode(map[key := value])) != Some(map[key := value])
  {
    var m := map[key := value];
    RoundTripIff(m);
    hide Decode, TextOf;
    if key == [BOM] {
      var i := EntryIndex(m, key);
      assert |EntriesOf(m)| == 1;
      assert LeastKeyHasBom(m);
    } else {
      assert key[1] == ' ' || key[1] == '\t' || key[1] == '\n';
      assert !Carried(key, true);
    }
  }
}

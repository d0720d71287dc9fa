/** Models of the Go string operations that the components use. A Go string is a
    sequence of Unicode scalar values here; byte and character positions agree on
    everything the modelled code tests. */
module Text {
  import opened Payload

  /** unicode.IsSpace */
  predicate IsSpace(c: char) {
    var n := c as int;
    9 <= n <= 13 || n == 32 || n == 0x85 || n == 0xA0 || n == 0x1680 || 0x2000 <= n <= 0x200A ||
    n == 0x2028 || n == 0x2029 || n == 0x202F || n == 0x205F || n == 0x3000
  }

  function TrimLeft(s: string, cut: char -> bool): (r: string)
    ensures r != [] ==> !cut(r[0])
  {
    if s != [] && cut(s[0]) then TrimLeft(s[1..], cut) else s
  }

  function TrimRight(s: string, cut: char -> bool): (r: string)
    ensures r != [] ==> !cut(r[|r| - 1])
  {
    if s != [] && cut(s[|s| - 1]) then TrimRight(s[..|s| - 1], cut) else s
  }

  lemma {:induction false} TrimLeftSuffix(s: string, cut: char -> bool)
    ensures |TrimLeft(s, cut)| <= |s| && TrimLeft(s, cut) == s[|s| - |TrimLeft(s, cut)|..]
  {
    if s != [] && cut(s[0]) {
      TrimLeftSuffix(s[1..], cut);
    }
  }

  lemma {:induction false} TrimRightPrefix(s: string, cut: char -> bool)
    ensures TrimRight(s, cut) <= s
  {
    if s != [] && cut(s[|s| - 1]) {
      TrimRightPrefix(s[..|s| - 1], cut);
    }
  }

  lemma TrimLeftOnce(s: string, cut: char -> bool)
    requires s != "" && cut(s[0])
    ensures TrimLeft(s, cut) == TrimLeft(s[1..], cut)
  {
  }

  lemma TrimFixed(s: string, cut: char -> bool)
    requires s != "" ==> !cut(s[0]) && !cut(s[|s| - 1])
    ensures TrimLeft(s, cut) == s && TrimRight(s, cut) == s
  {
  }

  /** strings.TrimSpace */
  function TrimSpace(s: string): string {
    TrimRight(TrimLeft(s, IsSpace), IsSpace)
  }

  predicate EndsInSpace(s: string) {
    s != [] && IsSpace(s[|s| - 1])
  }

  predicate Trimmed(s: string) {
    s != [] ==> !IsSpace(s[0]) && !IsSpace(s[|s| - 1])
  }

  lemma TrimSpaceTrimmed(s: string)
    ensures Trimmed(TrimSpace(s))
  {
    TrimRightPrefix(TrimLeft(s, IsSpace), IsSpace);
  }

  lemma TrimSpaceFixed(s: string)
    requires Trimmed(s)
    ensures TrimSpace(s) == s
  {
  }

  ghost predicate Blank(s: string) {
    forall c :: c in s ==> IsSpace(c)
  }

  lemma {:induction false} TrimLeftCuts(s: string) returns (front: string)
    ensures s == front + TrimLeft(s, IsSpace) && Blank(front)
  {
    if s != "" && IsSpace(s[0]) {
      front := TrimLeftCuts(s[1..]);
      front := [s[0]] + front;
    } else {
      front := "";
    }
  }

  lemma {:induction false} TrimRightCuts(s: string) returns (back: string)
    ensures s == TrimRight(s, IsSpace) + back && Blank(back)
  {
    if s != "" && IsSpace(s[|s| - 1]) {
      back := TrimRightCuts(s[..|s| - 1]);
      back := back + [s[|s| - 1]];
    } else {
      back := "";
    }
  }

  /** Trimming takes away the blanks at both ends and nothing else. */
  lemma TrimSpaceCuts(s: string) returns (front: string, back: string)
    ensures s == front + TrimSpace(s) + back && Blank(front) && Blank(back) && Trimmed(TrimSpace(s))
  {
    front := TrimLeftCuts(s);
    back := TrimRightCuts(TrimLeft(s, IsSpace));
    TrimSpaceTrimmed(s);
  }

  lemma BlankIff(s: string)
    ensures TrimSpace(s) == "" <==> Blank(s)
  {
    hide TrimSpace;
    var front, back := TrimSpaceCuts(s);
    if TrimSpace(s) != "" {
      assert TrimSpace(s)[0] in s;
    }
  }

  lemma TrimSpaceFixedIff(s: string)
    ensures TrimSpace(s) == s <==> Trimmed(s)
  {
    TrimSpaceTrimmed(s);
    if Trimmed(s) {
      TrimSpaceFixed(s);
    }
  }

  lemma TrimKeepsSlash(s: string)
    requires "/" <= s
    ensures TrimLeft(s, IsSpace) == s && TrimSpace(s) == TrimRight(s, IsSpace) && "/" <= TrimSpace(s)
    ensures |TrimSpace(s)| <= |s|
  {
    hide TrimLeft, TrimRight;
    TrimLeftNothing(s, IsSpace);
    TrimRightPrefix(s, IsSpace);
    TrimRightAfter("/", s[1..]);
    assert s == "/" + s[1..];
  }

  lemma TrimLeftNothing(s: string, cut: char -> bool)
    requires s != "" && !cut(s[0])
    ensures TrimLeft(s, cut) == s
  {
  }

  lemma {:induction false} TrimRightAfter(front: string, tail: string)
    requires front != "" && !IsSpace(front[|front| - 1])
    ensures TrimRight(front + tail, IsSpace) == front + TrimRight(tail, IsSpace)
  {
    var s := front + tail;
    if tail == "" {
      assert s == front;
    } else if IsSpace(tail[|tail| - 1]) {
      assert s[..|s| - 1] == front + tail[..|tail| - 1];
      TrimRightAfter(front, tail[..|tail| - 1]);
    }
  }

  predicate HasSuffix(s: string, suffix: string) {
    |suffix| <= |s| && s[|s| - |suffix|..] == suffix
  }

  /** strings.ReplaceAll for a non-empty pattern: leftmost, non-overlapping. */
  function ReplaceAll(s: string, pattern: string, sub: string): string
    requires pattern != []
  {
    if s == [] then []
    else if pattern <= s then sub + ReplaceAll(s[|pattern|..], pattern, sub)
    else [s[0]] + ReplaceAll(s[1..], pattern, sub)
  }

  /** A string put in front of a result, if there is one. */
  function Prefixed(front: string, r: Option<string>): Option<string> {
    match r
    case Some(rest) => Some(front + rest)
    case None => None
  }

  lemma PrefixedTwice(a: string, b: string, r: Option<string>)
    ensures Prefixed(a + b, r) == Prefixed(a, Prefixed(b, r))
  {
    if r.Some? {
      assert a + b + r.value == a + (b + r.value);
    }
  }

  lemma PrefixedNothing(r: Option<string>)
    ensures Prefixed("", r) == r
  {
    if r.Some? {
      assert "" + r.value == r.value;
    }
  }

  // ----- splitting and joining -----

  /** strings.Split on a one-character separator: always at least one part. */
  function Split(s: string, sep: char): (parts: seq<string>)
    ensures parts != []
    ensures forall p :: p in parts ==> sep !in p
  {
    if s == [] then [[]]
    else
      var rest := Split(s[1..], sep);
      if s[0] == sep then [[]] + rest
      else [[s[0]] + rest[0]] + rest[1..]
  }

  /** strings.Join with a one-character separator. */
  function Join(parts: seq<string>, sep: char): string {
    if parts == [] then []
    else if |parts| == 1 then parts[0]
    else parts[0] + [sep] + Join(parts[1..], sep)
  }

  lemma {:induction false} JoinOfSplit(s: string, sep: char)
    ensures Join(Split(s, sep), sep) == s
  {
    if s != [] {
      JoinOfSplit(s[1..], sep);
      var rest := Split(s[1..], sep);
      if s[0] != sep && |rest| > 1 {
        assert ([[s[0]] + rest[0]] + rest[1..])[1..] == rest[1..];
      }
    }
  }

  lemma {:induction false} SplitAtSeparator(a: string, b: string, sep: char)
    requires sep !in a
    ensures Split(a + [sep] + b, sep) == [a] + Split(b, sep)
  {
    var s := a + [sep] + b;
    if a == [] {
      assert s[1..] == b;
    } else {
      assert s[1..] == a[1..] + [sep] + b;
      SplitAtSeparator(a[1..], b, sep);
      assert a == [a[0]] + a[1..];
    }
  }

  lemma {:induction false} SplitWithout(s: string, sep: char)
    requires sep !in s
    ensures Split(s, sep) == [s]
  {
    if s != [] {
      SplitWithout(s[1..], sep);
      assert s == [s[0]] + s[1..];
    }
  }

  lemma {:induction false} SplitOfJoin(parts: seq<string>, sep: char)
    requires parts != [] && forall p :: p in parts ==> sep !in p
    ensures Split(Join(parts, sep), sep) == parts
  {
    if |parts| == 1 {
      SplitWithout(parts[0], sep);
    } else {
      SplitOfJoin(parts[1..], sep);
      SplitAtSeparator(parts[0], Join(parts[1..], sep), sep);
    }
  }

  // ----- decimal numbers -----

  predicate IsDigit(c: char) {
    '0' <= c <= '9'
  }

  predicate AllDigits(s: string) {
    s != [] && forall i :: 0 <= i < |s| ==> IsDigit(s[i])
  }

  function DigitsValue(s: string): nat
    requires forall i :: 0 <= i < |s| ==> IsDigit(s[i])
  {
    if s == [] then 0
    else
      assert IsDigit(s[|s| - 1]);
      10 * DigitsValue(s[..|s| - 1]) + (s[|s| - 1] as int - '0' as int)
  }

  /** strconv.Itoa on the non-negative numbers the code prints. */
  function Itoa(n: nat): string {
    if n < 10 then [('0' as int + n) as char] else Itoa(n / 10) + [('0' as int + n % 10) as char]
  }

  lemma {:induction false} ItoaDigits(n: nat)
    ensures AllDigits(Itoa(n)) && DigitsValue(Itoa(n)) == n
  {
    var s := Itoa(n);
    if n < 10 {
      assert s[..0] == [];
    } else {
      ItoaDigits(n / 10);
      assert s[..|s| - 1] == Itoa(n / 10);
    }
  }

  lemma ItoaInjective(m: nat, n: nat)
    requires Itoa(m) == Itoa(n)
    ensures m == n
  {
    ItoaDigits(m);
    ItoaDigits(n);
  }

  /** strconv.Atoi: an optional sign and digits, within 64 bits. */
  function Atoi(s: string): Option<int> {
    var digits := if s != "" && (s[0] == '+' || s[0] == '-') then s[1..] else s;
    if !AllDigits(digits) then None
    else
      var n: int := DigitsValue(digits);
      var n := if s[0] == '-' then -n else n;
      if -MAX_INT - 1 <= n <= MAX_INT then Some(n) else None
  }

  /** A Go int sum of two numbers that are not negative. */
  function Wrap(n: int): int {
    if n > MAX_INT then n - 2 * (MAX_INT + 1) else n
  }

  lemma AtoiOfDigits(d: string)
    requires AllDigits(d) && DigitsValue(d) <= MAX_INT
    ensures Atoi(d) == Some(DigitsValue(d)) && TrimSpace(d) == d
    ensures forall i :: 0 <= i < |d| ==> !IsSpace(d[i]) && d[i] != '/' && d[i] != ','
  {
    hide TrimSpace, DigitsValue;
    assert forall i :: 0 <= i < |d| ==> IsDigit(d[i]);
    TrimSpaceFixed(d);
  }

  // ----- ordering of strings -----

  /** Go's byte-wise string order, which on UTF-8 is the order of code points. */
  predicate StringLe(a: string, b: string) {
    a == [] || (b != [] && (a[0] < b[0] || (a[0] == b[0] && StringLe(a[1..], b[1..]))))
  }

  lemma {:induction false} StringLeTotal(a: string, b: string)
    ensures StringLe(a, b) || StringLe(b, a)
  {
    if a != [] && b != [] && a[0] == b[0] {
      StringLeTotal(a[1..], b[1..]);
    }
  }

  lemma {:induction false} StringLeAntisymmetric(a: string, b: string)
    requires StringLe(a, b) && StringLe(b, a)
    ensures a == b
  {
    if a != [] && b != [] {
      StringLeAntisymmetric(a[1..], b[1..]);
      assert a == [a[0]] + a[1..] && b == [b[0]] + b[1..];
    }
  }

  lemma {:induction false} StringLeTransitive(a: string, b: string, c: string)
    requires StringLe(a, b) && StringLe(b, c)
    ensures StringLe(a, c)
  {
    if a != [] && a[0] == b[0] && b[0] == c[0] {
      StringLeTransitive(a[1..], b[1..], c[1..]);
    }
  }

  predicate IsLeast(x: string, s: set<string>) {
    x in s && forall y :: y in s ==> StringLe(x, y)
  }

  lemma {:induction false} LeastExists(s: set<string>) returns (x: string)
    requires s != {}
    ensures IsLeast(x, s)
  {
    var y :| y in s;
    if s == {y} {
      x := y;
      StringLeTotal(y, y);
    } else {
      var z := LeastExists(s - {y});
      StringLeTotal(y, z);
      StringLeTotal(y, y);
      if StringLe(y, z) {
        x := y;
        forall w | w in s
          ensures StringLe(x, w)
        {
          if w != y {
            StringLeTransitive(y, z, w);
          }
        }
      } else {
        x := z;
      }
    }
  }

  function Least(s: set<string>): (x: string)
    requires s != {}
    ensures IsLeast(x, s)
  {
    assert exists x :: IsLeast(x, s) by {
      var x := LeastExists(s);
    }
    assert forall x, y :: IsLeast(x, s) && IsLeast(y, s) ==> x == y by {
      forall x, y | IsLeast(x, s) && IsLeast(y, s)
        ensures x == y
      {
        StringLeAntisymmetric(x, y);
      }
    }
    var x :| x in s && IsLeast(x, s);
    x
  }

  /** sort.Strings over the keys of a map. */
  function SortedKeys(s: set<string>): (r: seq<string>)
    ensures forall k :: k in r <==> k in s
    ensures |r| == |s|
  {
    if s == {} then []
    else
      var x := Least(s);
      [x] + SortedKeys(s - {x})
  }

  /** Each key once, in increasing order. */
  lemma {:induction false} SortedKeysOrdered(s: set<string>, i: nat, j: nat)
    requires i < j < |SortedKeys(s)|
    ensures SortedKeys(s)[i] != SortedKeys(s)[j] && StringLe(SortedKeys(s)[i], SortedKeys(s)[j])
  {
    var x := Least(s);
    var rest := SortedKeys(s - {x});
    if i == 0 {
      assert rest[j - 1] in rest;
    } else {
      SortedKeysOrdered(s - {x}, i - 1, j - 1);
    }
  }
}

/** What the texts of a cron expression mean: numbers, ranges and steps, written out. */
module CronText {
  import opened Payload
  import opened Text
  import opened Cron
  import Floats
  import opened Calendar

  datatype Base = All | One(a: nat) | Range(a: nat, b: nat)

  /** A list item: a base, and a step if one is written. */
  datatype Item = Item(base: Base, step: Option<nat>)

  function PrintBase(b: Base): string {
    match b
    case All => "*"
    case One(a) => Itoa(a)
    case Range(a, b) => Itoa(a) + "-" + Itoa(b)
  }

  function PrintItem(it: Item): string {
    match it.step
    case None => PrintBase(it.base)
    case Some(n) => PrintBase(it.base) + "/" + Itoa(n)
  }

  // ----- the meaning -----

  /** In the last field 7 stands for Sunday. */
  function ValueOf(n: nat, sundaySeven: bool): nat {
    if sundaySeven && n == 7 then 0 else n
  }

  function First(b: Base, min: int, sundaySeven: bool): int {
    match b
    case All => min
    case One(a) => ValueOf(a, sundaySeven)
    case Range(a, _) => a
  }

  function Last(b: Base, max: int, sundaySeven: bool): int {
    match b
    case All => max
    case One(a) => ValueOf(a, sundaySeven)
    case Range(_, b) => b
  }

  /** The base is within the bounds, a range in order; in the last field no range ends in 7. */
  predicate BaseFits(b: Base, min: int, max: int, sundaySeven: bool) {
    match b
    case All => true
    case One(a) => min <= ValueOf(a, sundaySeven) <= max
    case Range(a, b) => min <= a <= b <= max && !(sundaySeven && (a == 7 || b == 7))
  }

  function StepOrOne(it: Item): nat {
    if it.step.None? then 1 else it.step.value
  }

  predicate Fits(it: Item, min: int, max: int, sundaySeven: bool) {
    BaseFits(it.base, min, max, sundaySeven) && 0 < StepOrOne(it) <= MAX_INT
  }

  /** The values from the first to the last, a whole number of steps from the first. */
  predicate Allows(it: Item, min: int, max: int, sundaySeven: bool, v: int)
    requires StepOrOne(it) > 0
  {
    First(it.base, min, sundaySeven) <= v <= Last(it.base, max, sundaySeven) &&
    (v - First(it.base, min, sundaySeven)) % StepOrOne(it) == 0
  }

  // ----- numbers -----

  lemma NumberText(n: nat)
    ensures TrimSpace(Itoa(n)) == Itoa(n) && Atoi(Itoa(n)) == if n <= MAX_INT then Some(n) else None
    ensures Itoa(n) != "" && forall c :: c in Itoa(n) ==> IsDigit(c) && !IsSpace(c)
    ensures Itoa(n) == "7" <==> n == 7
  {
    hide DigitsValue, TrimSpace, Itoa;
    ItoaDigits(n);
    var s := Itoa(n);
    assert forall i :: 0 <= i < |s| ==> IsDigit(s[i]);
    assert IsDigit(s[0]) && IsDigit(s[|s| - 1]);
    TrimSpaceFixed(s);
    assert Itoa(7) == "7" by { ItoaSeven(); }
    if Itoa(n) == "7" {
      ItoaInjective(n, 7);
    }
  }

  lemma ItoaSeven()
    ensures Itoa(7) == "7"
  {
  }

  lemma ValueText(n: nat, min: int, max: int, sundaySeven: bool)
    requires max <= MAX_INT
    ensures ParseFieldValue(Itoa(n), min, max, sundaySeven) ==
            var v := ValueOf(n, sundaySeven); if min <= v <= max then Some(v) else None
  {
    hide Itoa, Atoi, TrimSpace;
    NumberText(n);
  }

  // ----- ranges -----

  lemma RangeText(a: nat, b: nat, min: int, max: int, sundaySeven: bool)
    requires min <= max <= MAX_INT
    ensures RangeOf(PrintBase(Range(a, b)), min, max, sundaySeven) ==
            if BaseFits(Range(a, b), min, max, sundaySeven) then Some((a as int, b as int)) else None
  {
    hide Itoa, TrimSpace, Split, ParseFieldValue;
    NumberText(a);
    NumberText(b);
    var base := Itoa(a) + ['-'] + Itoa(b);
    SplitAtSeparator(Itoa(a), Itoa(b), '-');
    SplitWithout(Itoa(b), '-');
    assert base[|Itoa(a)|] == '-' && base[0] == Itoa(a)[0];
    ValueText(a, min, max, sundaySeven);
    ValueText(b, min, max, sundaySeven);
  }

  lemma BaseText(b: Base, min: int, max: int, sundaySeven: bool)
    requires min <= max <= MAX_INT
    ensures RangeOf(PrintBase(b), min, max, sundaySeven) ==
            if BaseFits(b, min, max, sundaySeven) then Some((First(b, min, sundaySeven), Last(b, max, sundaySeven))) else None
  {
    hide Itoa, TrimSpace, Split, ParseFieldValue, RangeEnds;
    match b
    case All =>
    case One(a) =>
      NumberText(a);
      ValueText(a, min, max, sundaySeven);
      assert Itoa(a)[0] in Itoa(a);
    case Range(a, c) =>
      RangeText(a, c, min, max, sundaySeven);
      hide RangeOf;
  }

  /** A range that ends in 7 is refused only if the 7 is written so: "07" begins at Sunday, 0. */
  lemma PaddedSeven(b: nat)
    requires b <= 6
    ensures RangeOf("07-" + Itoa(b), 0, 6, true) == Some((0, b as int))
  {
    hide Itoa, TrimSpace, Split, ParseFieldValue;
    var padded := "07";
    NumberText(b);
    var base := padded + ['-'] + Itoa(b);
    assert base == "07-" + Itoa(b);
    assert '-' !in padded;
    SplitAtSeparator(padded, Itoa(b), '-');
    SplitWithout(Itoa(b), '-');
    assert base[2] == '-' && base[0] == '0';
    PaddedSevenValue(padded);
    ValueText(b, 0, 6, true);
  }

  lemma PaddedSevenValue(padded: string)
    requires padded == "07"
    ensures TrimSpace(padded) == padded && ParseFieldValue(padded, 0, 6, true) == Some(0)
  {
    assert AllDigits(padded);
    assert padded[..1] == "0" && padded[..1][..0] == "";
    assert DigitsValue(padded[..1]) == 0;
    assert padded[1] == '7' && DigitsValue(padded) == 7;
    AtoiOfDigits(padded);
  }

  // ----- items -----

  lemma BaseChars(b: Base)
    ensures PrintBase(b) != "" && forall c :: c in PrintBase(b) ==> c != '/' && c != ',' && !IsSpace(c)
  {
    hide Itoa;
    match b
    case All =>
    case One(a) => NumberText(a);
    case Range(a, c) =>
      NumberText(a);
      NumberText(c);
  }

  lemma SolidIsTrimmed(s: string)
    requires IsWord(s)
    ensures TrimSpace(s) == s
  {
    hide IsSpace, TrimSpace;
    TrimSpaceFixed(s);
  }

  lemma ItemChars(it: Item)
    ensures IsWord(PrintItem(it)) && ',' !in PrintItem(it)
  {
    hide Itoa, PrintBase;
    BaseChars(it.base);
    if it.step.Some? {
      NumberText(it.step.value);
    }
  }

  lemma StepText(base: string, n: nat)
    requires base != "" && forall c :: c in base ==> c != '/' && !IsSpace(c)
    ensures StepOf(base) == Some((base, 1))
    ensures StepOf(base + "/" + Itoa(n)) == if 0 < n <= MAX_INT then Some((base, n)) else None
  {
    hide Itoa, TrimSpace, Split, Atoi, IsSpace;
    NumberText(n);
    var raw := base + ['/'] + Itoa(n);
    assert raw[|base|] == '/';
    SplitAtSeparator(base, Itoa(n), '/');
    SplitWithout(Itoa(n), '/');
    SolidIsTrimmed(base);
  }

  /** What an item is read as. */
  lemma ItemText(it: Item, min: int, max: int, sundaySeven: bool)
    requires min <= max <= MAX_INT
    ensures PartOf(PrintItem(it), min, max, sundaySeven) ==
            if Fits(it, min, max, sundaySeven)
            then Some(Part(First(it.base, min, sundaySeven), Last(it.base, max, sundaySeven), StepOrOne(it))) else None
  {
    hide Itoa, PrintBase, StepOf, RangeOf, BaseFits, First, Last;
    BaseText(it.base, min, max, sundaySeven);
    BaseChars(it.base);
    ItemChars(it);
    StepText(PrintBase(it.base), StepOrOne(it));
  }

  lemma {:induction false} ReachedModulo(first: int, step: int, v: int)
    requires step > 0
    ensures Reached(first, step, v) <==> v >= first && (v - first) % step == 0
    decreases if v > first then v - first else 0
  {
    if v > first {
      ReachedModulo(first, step, v - step);
      StepBack(v - first, step);
    }
  }

  lemma StepBack(d: int, step: int)
    requires step > 0 && d > 0
    ensures (d - step) % step == d % step
    ensures d < step ==> d % step != 0
  {
    var q, r := d / step, d % step;
    assert d - step == (q - 1) * step + r;
    ModuloOf(q - 1, r, step);
    if d < step {
      ModuloOf(0, d, step);
    }
  }

  lemma ModuloOf(q: int, r: int, step: int)
    requires 0 <= r < step
    ensures (q * step + r) % step == r
  {
    var n := q * step + r;
    var a, b := n / step, n % step;
    assert a * step + b == q * step + r;
    if a > q {
      Floats.FarApart(step, q, a);
    } else if a < q {
      Floats.FarApart(step, a, q);
    }
  }

  /** An item that fits allows the values of its range that are whole steps from the first. */
  lemma ItemAllowsIff(it: Item, min: int, max: int, sundaySeven: bool, v: int)
    requires min <= max <= MAX_INT
    ensures ItemAllows(PrintItem(it), min, max, sundaySeven, v) <==>
              Fits(it, min, max, sundaySeven) && Allows(it, min, max, sundaySeven, v)
  {
    hide PartOf, PrintItem, TrimSpace, BaseFits, First, Last;
    ItemText(it, min, max, sundaySeven);
    ItemChars(it);
    SolidIsTrimmed(PrintItem(it));
    if Fits(it, min, max, sundaySeven) {
      ReachedModulo(First(it.base, min, sundaySeven), StepOrOne(it), v);
    }
  }

  // ----- every text -----

  /** The text is two parts with one separator between them. */
  ghost predicate TwoParts(s: string, sep: char, l: string, r: string) {
    s == l + [sep] + r && sep !in l && sep !in r
  }

  lemma TwoPartsIff(s: string, sep: char, l: string, r: string)
    ensures Split(s, sep) == [l, r] <==> TwoParts(s, sep, l, r)
  {
    hide Split;
    if Split(s, sep) == [l, r] {
      JoinOfSplit(s, sep);
      assert [l, r][1..] == [r];
      assert l in [l, r] && r in [l, r];
      assert l in Split(s, sep) && r in Split(s, sep);
    }
    if TwoParts(s, sep, l, r) {
      SplitAtSeparator(l, r, sep);
      SplitWithout(r, sep);
      assert [l] + [r] == [l, r];
    }
  }

  lemma HasSeparator(s: string, sep: char, l: string, r: string)
    requires TwoParts(s, sep, l, r)
    ensures sep in s
  {
    assert s[|l|] == sep;
  }

  /** The text, without the blanks around it, is a numeral whose value is n, or 7 for the Sunday n = 0. */
  ghost predicate IsNumber(t: string, sundaySeven: bool, n: int) {
    (Atoi(TrimSpace(t)) == Some(n) && !(sundaySeven && n == 7)) || (sundaySeven && n == 0 && Atoi(TrimSpace(t)) == Some(7))
  }

  lemma IsNumberIff(t: string, min: int, max: int, sundaySeven: bool, n: int)
    ensures ParseFieldValue(t, min, max, sundaySeven) == Some(n) <==> IsNumber(t, sundaySeven, n) && min <= n <= max
  {
    hide Atoi, TrimSpace;
  }

  ghost predicate RangeMeans(l: string, r: string, min: int, max: int, sundaySeven: bool, lo: int, hi: int) {
    IsNumber(l, sundaySeven, lo) && IsNumber(r, sundaySeven, hi) && min <= lo <= hi <= max &&
    !(sundaySeven && (TrimSpace(l) == "7" || TrimSpace(r) == "7"))
  }

  /** The base stands for the values from lo to hi: all of them, one number, or a range of two. */
  ghost predicate BaseMeans(t: string, min: int, max: int, sundaySeven: bool, lo: int, hi: int) {
    (t == "*" && lo == min && hi == max) ||
    (t != "*" && '-' !in t && IsNumber(t, sundaySeven, lo) && hi == lo && min <= lo <= max) ||
    (exists l, r :: TwoParts(t, '-', l, r) && RangeMeans(l, r, min, max, sundaySeven, lo, hi))
  }

  lemma RangeOfTwo(l: string, r: string, min: int, max: int, sundaySeven: bool, lo: int, hi: int)
    requires min <= max && '-' !in l && '-' !in r
    ensures RangeOf(l + ['-'] + r, min, max, sundaySeven) == Some((lo, hi)) <==> RangeMeans(l, r, min, max, sundaySeven, lo, hi)
  {
    hide Split, TrimSpace, IsNumber, ParseFieldValue;
    var t := l + ['-'] + r;
    TwoPartsIff(t, '-', l, r);
    HasSeparator(t, '-', l, r);
    TrimTwice(l);
    TrimTwice(r);
    IsNumberIff(TrimSpace(l), min, max, sundaySeven, lo);
    IsNumberIff(TrimSpace(r), min, max, sundaySeven, hi);
    SameNumber(l, sundaySeven, lo);
    SameNumber(r, sundaySeven, hi);
  }

  lemma TrimTwice(s: string)
    ensures TrimSpace(TrimSpace(s)) == TrimSpace(s)
  {
    hide TrimSpace;
    TrimSpaceTrimmed(s);
    TrimSpaceFixed(TrimSpace(s));
  }

  lemma SameNumber(t: string, sundaySeven: bool, n: int)
    ensures IsNumber(TrimSpace(t), sundaySeven, n) <==> IsNumber(t, sundaySeven, n)
  {
    hide TrimSpace, Atoi;
    TrimTwice(t);
  }

  lemma BaseMeansIff(t: string, min: int, max: int, sundaySeven: bool, lo: int, hi: int)
    requires min <= max
    ensures RangeOf(t, min, max, sundaySeven) == Some((lo, hi)) <==> BaseMeans(t, min, max, sundaySeven, lo, hi)
  {
    hide TrimSpace, IsNumber, ParseFieldValue, RangeMeans;
    if t == "*" {
      StarIsNoRange(t);
    } else if '-' !in t {
      IsNumberIff(t, min, max, sundaySeven, lo);
    } else {
      if RangeOf(t, min, max, sundaySeven) == Some((lo, hi)) {
        var pieces := Split(t, '-');
        assert pieces == [pieces[0], pieces[1]];
        TwoPartsIff(t, '-', pieces[0], pieces[1]);
        RangeOfTwo(pieces[0], pieces[1], min, max, sundaySeven, lo, hi);
      }
      if l, r :| TwoParts(t, '-', l, r) && RangeMeans(l, r, min, max, sundaySeven, lo, hi) {
        RangeOfTwo(l, r, min, max, sundaySeven, lo, hi);
      }
    }
  }

  lemma StarIsNoRange(t: string)
    requires t == "*"
    ensures forall l, r :: !TwoParts(t, '-', l, r)
  {
    forall l, r
      ensures !TwoParts(t, '-', l, r)
    {
      if TwoParts(t, '-', l, r) {
        HasSeparator(t, '-', l, r);
      }
    }
  }

  /** The step after the slash. */
  ghost predicate StepMeans(s: string, n: int) {
    Atoi(TrimSpace(s)) == Some(n) && n > 0
  }

  /** A list item is a base, or a base and a step with one slash between them. */
  ghost predicate ItemMeans(raw: string, min: int, max: int, sundaySeven: bool, p: Part) {
    raw != "" &&
    if '/' !in raw then p.step == 1 && BaseMeans(raw, min, max, sundaySeven, p.first, p.last)
    else exists b, s :: TwoParts(raw, '/', b, s) && StepMeans(s, p.step) && BaseMeans(TrimSpace(b), min, max, sundaySeven, p.first, p.last)
  }

  lemma PartOfTwo(b: string, s: string, min: int, max: int, sundaySeven: bool, p: Part)
    requires min <= max && '/' !in b && '/' !in s
    ensures PartOf(b + ['/'] + s, min, max, sundaySeven) == Some(p) <==>
              StepMeans(s, p.step) && BaseMeans(TrimSpace(b), min, max, sundaySeven, p.first, p.last)
  {
    hide Split, TrimSpace, Atoi, RangeOf, BaseMeans;
    var raw := b + ['/'] + s;
    TwoPartsIff(raw, '/', b, s);
    assert raw[|b|] == '/';
    BaseMeansIff(TrimSpace(b), min, max, sundaySeven, p.first, p.last);
  }

  /** For every text: an item is read as a part exactly when it is written so. */
  lemma PartOfIff(raw: string, min: int, max: int, sundaySeven: bool, p: Part)
    requires min <= max
    ensures PartOf(raw, min, max, sundaySeven) == Some(p) <==> ItemMeans(raw, min, max, sundaySeven, p)
  {
    hide TrimSpace, Atoi, RangeOf, BaseMeans, StepMeans;
    if '/' !in raw {
      BaseMeansIff(raw, min, max, sundaySeven, p.first, p.last);
    } else {
      if PartOf(raw, min, max, sundaySeven) == Some(p) {
        var pieces := Split(raw, '/');
        assert pieces == [pieces[0], pieces[1]];
        TwoPartsIff(raw, '/', pieces[0], pieces[1]);
        PartOfTwo(pieces[0], pieces[1], min, max, sundaySeven, p);
      }
      if b, s :| TwoParts(raw, '/', b, s) && StepMeans(s, p.step) && BaseMeans(TrimSpace(b), min, max, sundaySeven, p.first, p.last) {
        PartOfTwo(b, s, min, max, sundaySeven, p);
      }
    }
  }

  // ----- fields -----

  function PrintItems(items: seq<Item>): (r: seq<string>)
    ensures |r| == |items|
  {
    seq(|items|, i requires 0 <= i < |items| => PrintItem(items[i]))
  }

  function PrintField(items: seq<Item>): string {
    Join(PrintItems(items), ',')
  }

  /** Adding the step to the first value does not exceed the largest int. */
  predicate NoOverflow(it: Item, min: int, sundaySeven: bool) {
    First(it.base, min, sundaySeven) + StepOrOne(it) <= MAX_INT
  }

  lemma {:induction false} JoinSolid(parts: seq<string>, sep: char)
    requires parts != [] && !IsSpace(sep) && forall p :: p in parts ==> IsWord(p)
    ensures IsWord(Join(parts, sep))
  {
    hide IsSpace;
    assert parts[0] in parts && IsWord(parts[0]);
    if |parts| > 1 {
      JoinSolid(parts[1..], sep);
    }
  }

  lemma FieldChars(items: seq<Item>)
    requires items != []
    ensures TrimSpace(PrintField(items)) == PrintField(items) && IsWord(PrintField(items))
    ensures Split(PrintField(items), ',') == PrintItems(items)
  {
    hide IsSpace, TrimSpace, Join, PrintItem, Split;
    var parts := PrintItems(items);
    forall p | p in parts
      ensures ',' !in p && IsWord(p)
    {
      var i :| 0 <= i < |items| && p == PrintItem(items[i]);
      ItemChars(items[i]);
    }
    assert !IsSpace(',') by { CommaSolid(); }
    JoinSolid(parts, ',');
    SplitOfJoin(parts, ',');
    SolidIsTrimmed(PrintField(items));
  }

  lemma CommaSolid()
    ensures !IsSpace(',')
  {
  }

  /** A field allows the values of its items. */
  lemma FieldAllowsIff(items: seq<Item>, min: int, max: int, sundaySeven: bool, v: int)
    requires items != [] && min <= max <= MAX_INT
    ensures TextAllows(PrintField(items), min, max, sundaySeven, v) <==>
              exists i :: 0 <= i < |items| && Fits(items[i], min, max, sundaySeven) && Allows(items[i], min, max, sundaySeven, v)
  {
    hide TrimSpace, PrintField, Split, ItemAllows, PrintItem, BaseFits, Allows;
    FieldChars(items);
    var parts := PrintItems(items);
    if TextAllows(PrintField(items), min, max, sundaySeven, v) {
      var i :| 0 <= i < |parts| && ItemAllows(parts[i], min, max, sundaySeven, v);
      ItemAllowsIff(items[i], min, max, sundaySeven, v);
    }
    if i :| 0 <= i < |items| && Fits(items[i], min, max, sundaySeven) && Allows(items[i], min, max, sundaySeven, v) {
      ItemAllowsIff(items[i], min, max, sundaySeven, v);
      assert ItemAllows(parts[i], min, max, sundaySeven, v);
    }
  }

  /** Only a star by itself makes a field a wildcard, not a star with the step 1. */
  lemma WildcardIff(items: seq<Item>)
    requires items != []
    ensures PrintField(items) == "*" <==> items == [Item(All, None)]
  {
    hide TrimSpace, Split, PrintItem;
    FieldChars(items);
    var parts, star := PrintItems(items), "*";
    SplitWithout(star, ',');
    if PrintField(items) == star {
      assert parts == [star];
      StarItem(items[0]);
    }
    StarItem(Item(All, None));
    if items == [Item(All, None)] {
      assert parts == [star];
    }
  }

  lemma StarItem(it: Item)
    ensures PrintItem(it) == "*" <==> it == Item(All, None)
  {
    hide Itoa;
    BaseChars(it.base);
    match it.step
    case None =>
      if it.base.One? {
        NumberText(it.base.a);
        assert Itoa(it.base.a)[0] in Itoa(it.base.a);
      } else if it.base.Range? {
        NumberText(it.base.a);
        assert Itoa(it.base.a)[0] in Itoa(it.base.a);
      }
    case Some(n) =>
      NumberText(n);
      assert |PrintItem(it)| > 1;
  }

  lemma {:induction false} ItemsAddedIff(items: seq<Item>, n: nat, min: int, max: int, sundaySeven: bool)
    requires n <= |items| && min <= max <= MAX_INT
    ensures ItemsOutcome(PrintItems(items), n, min, max, sundaySeven).Added? <==>
              forall i :: 0 <= i < n ==> Fits(items[i], min, max, sundaySeven) && NoOverflow(items[i], min, sundaySeven)
  {
    hide TrimSpace, PrintItem, Fits, First, Last, PartOf;
    if n > 0 {
      ItemsAddedIff(items, n - 1, min, max, sundaySeven);
      ItemText(items[n - 1], min, max, sundaySeven);
      ItemChars(items[n - 1]);
      SolidIsTrimmed(PrintItem(items[n - 1]));
    }
  }

  /** A field is accepted exactly when all its items fit and none overflows. */
  lemma FieldAddedIff(items: seq<Item>, min: int, max: int, sundaySeven: bool)
    requires items != [] && min <= max <= MAX_INT
    ensures FieldOutcome(PrintField(items), min, max, sundaySeven).Added? <==>
              forall i :: 0 <= i < |items| ==> Fits(items[i], min, max, sundaySeven) && NoOverflow(items[i], min, sundaySeven)
  {
    hide TrimSpace, PrintField, Split, ItemsOutcome, Fits, NoOverflow, PrintItems;
    FieldChars(items);
    ItemsAddedIff(items, |items|, min, max, sundaySeven);
  }

  // ----- expressions -----

  function PrintFields(fields: seq<seq<Item>>): (r: seq<string>)
    ensures |r| == |fields|
  {
    seq(|fields|, i requires 0 <= i < |fields| => PrintField(fields[i]))
  }

  function PrintExpression(fields: seq<seq<Item>>): string {
    Join(PrintFields(fields), ' ')
  }

  lemma {:induction false} JoinEnds(words: seq<string>)
    requires words != [] && forall w :: w in words ==> IsWord(w)
    ensures var s := Join(words, ' '); s != "" && !IsSpace(s[0]) && !IsSpace(s[|s| - 1])
  {
    assert words[0] in words;
    hide IsSpace;
    if |words| > 1 {
      JoinEnds(words[1..]);
    }
  }

  lemma ExpressionWords(fields: seq<seq<Item>>)
    requires fields != [] && forall f :: f in fields ==> f != []
    ensures Words(TrimSpace(PrintExpression(fields)), "") == PrintFields(fields)
  {
    hide TrimSpace, IsSpace, Join, PrintField, Words;
    var words := PrintFields(fields);
    forall w | w in words
      ensures IsWord(w)
    {
      var i :| 0 <= i < |fields| && w == PrintField(fields[i]);
      assert fields[i] in fields;
      FieldChars(fields[i]);
    }
    JoinEnds(words);
    TrimSpaceFixed(PrintExpression(fields));
    WordsOfJoin(words);
  }

  /** The items of field i fit its bounds. */
  ghost predicate FieldFits(items: seq<Item>, i: nat) {
    forall k :: 0 <= k < |items| ==> Fits(items[k], Bounds(i).0, Bounds(i).1, i == 4) && NoOverflow(items[k], Bounds(i).0, i == 4)
  }

  ghost predicate FieldAllows(items: seq<Item>, i: nat, v: int) {
    exists k :: 0 <= k < |items| && Fits(items[k], Bounds(i).0, Bounds(i).1, i == 4) && Allows(items[k], Bounds(i).0, Bounds(i).1, i == 4, v)
  }

  lemma {:induction false} FieldsAddedIff(fields: seq<seq<Item>>, n: nat)
    requires |fields| == 5 && n <= 5 && forall f :: f in fields ==> f != []
    ensures FieldsOutcome(PrintFields(fields), n).Added? <==> forall i :: 0 <= i < n ==> FieldFits(fields[i], i)
  {
    hide FieldOutcome, PrintField, FieldFits;
    if n > 0 {
      FieldsAddedIff(fields, n - 1);
      FieldFitsIff(fields[n - 1], n - 1);
      assert fields[n - 1] in fields;
    }
  }

  lemma FieldFitsIff(items: seq<Item>, i: nat)
    ensures items != [] ==>
              (FieldOutcome(PrintField(items), Bounds(i).0, Bounds(i).1, i == 4).Added? <==> FieldFits(items, i))
  {
    hide FieldOutcome, PrintField, Fits, NoOverflow;
    if items != [] {
      FieldAddedIff(items, Bounds(i).0, Bounds(i).1, i == 4);
    }
  }

  /** An expression is accepted exactly when every item fits its field and none overflows. */
  lemma ExpressionAddedIff(fields: seq<seq<Item>>)
    requires fields != [] && forall f :: f in fields ==> f != []
    ensures ParseOutcome(PrintExpression(fields)).Added? <==>
              |fields| == 5 && forall i :: 0 <= i < 5 ==> FieldFits(fields[i], i)
    ensures |fields| != 5 ==> ParseOutcome(PrintExpression(fields)) == Refused
  {
    hide TrimSpace, Words, PrintExpression, FieldsOutcome, FieldFits;
    ExpressionWords(fields);
    if |fields| == 5 {
      FieldsAddedIff(fields, 5);
    }
  }

  /** A schedule that means the printed fields: field i allows exactly the values of its items. */
  lemma ScheduleOfExpression(s: Schedule, fields: seq<seq<Item>>, i: nat, v: int)
    requires |fields| == 5 && i < 5 && forall f :: f in fields ==> f != []
    requires ScheduleMeans(s, PrintFields(fields))
    ensures Has(FieldAt(s, i), v) <==> Bounds(i).0 <= v <= Bounds(i).1 && FieldAllows(fields[i], i, v)
  {
    hide TextAllows, PrintField, WellFormed, Has, Fits, Allows;
    assert fields[i] in fields;
    assert FieldMeans(FieldAt(s, i), PrintFields(fields)[i], Bounds(i).0, Bounds(i).1, i == 4);
    FieldAllowsIff(fields[i], Bounds(i).0, Bounds(i).1, i == 4, v);
  }

  // ----- the window of the search -----

  /** The search begins at the first whole minute after the instant and ends five years later, at the same
      minute of the same date; 29 February becomes 1 March where the year has none. */
  lemma WindowIsFiveYears(after: int, d: Date, hour: int, minute: int)
    requires IsDate(d) && 0 <= hour < 24 && 0 <= minute < 60 && Candidate(after) == At(d, hour, minute)
    ensures after < Candidate(after) * MINUTE && forall t: int :: after < t * MINUTE ==> Candidate(after) <= t
    ensures Limit(after) ==
            if IsDate(Date(d.year + 5, d.month, d.day)) then At(Date(d.year + 5, d.month, d.day), hour, minute)
            else At(Date(d.year + 5, 3, 1), hour, minute)
  {
    hide DaysBeforeYear, DateOf;
    PartsOfAt(d, hour, minute);
    DateOfNumber(d);
    MinuteOfDay(DayNumber(d), hour * 60 + minute);
    if !IsDate(Date(d.year + 5, d.month, d.day)) {
      assert d.month == 2 && d.day == 29 && DaysIn(d.year + 5, 2) == 28;
      assert DaysBeforeMonth(d.year + 5, 3) == DaysBeforeMonth(d.year + 5, 2) + 28;
    }
  }

  lemma MinuteOfDay(day: int, m: int)
    requires 0 <= m < 1440
    ensures (day * 1440 + m) % 1440 == m
  {
    ModuloOf(day, m, 1440);
  }
}

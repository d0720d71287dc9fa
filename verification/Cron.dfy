/** Five-field cron schedules: parsing, matching and the search for the next minute
    (cronexpr/cronexpr.go). */
module Cron {
  import opened Payload
  import opened Text
  import opened Calendar

  /** A parse also panics: an index that a 64-bit sum has made negative is out of range. */
  datatype Outcome = Added | Refused | Panics

  datatype Field = Field(min: int, max: int, allowed: seq<bool>, wildcard: bool)

  datatype Schedule = Schedule(minute: Field, hour: Field, dayOfMonth: Field, month: Field, dayOfWeek: Field)

  // ----- list items -----

  function ParseFieldValue(raw: string, min: int, max: int, sundaySeven: bool): (r: Option<int>)
    ensures r.Some? ==> min <= r.value <= max
  {
    var n :- Atoi(TrimSpace(raw));
    var value := if sundaySeven && n == 7 then 0 else n;
    if value < min || value > max then None else Some(value)
  }

  /** The values first, first + step, ... up to last. */
  datatype Part = Part(first: int, last: int, step: int)

  /** v is reached from the first value in whole steps. */
  predicate Reached(first: int, step: int, v: int)
    requires step > 0
    decreases if v > first then v - first else 0
  {
    v == first || (v > first && Reached(first, step, v - step))
  }

  predicate Hits(p: Part, v: int) {
    p.step > 0 && v <= p.last && Reached(p.first, p.step, v)
  }

  function StepOf(raw: string): (r: Option<(string, int)>)
    ensures r.Some? ==> 0 < r.value.1 <= MAX_INT
  {
    if '/' !in raw then Some((raw, 1))
    else
      var pieces := Split(raw, '/');
      if |pieces| != 2 then None
      else
        var step :- Atoi(TrimSpace(pieces[1]));
        if step <= 0 then None else Some((TrimSpace(pieces[0]), step))
  }

  function Span(start: Option<int>, end: Option<int>): (r: Option<(int, int)>)
    ensures r.Some? ==> start == Some(r.value.0) && end == Some(r.value.1) && r.value.0 <= r.value.1
  {
    if start.None? || end.None? || start.value > end.value then None else Some((start.value, end.value))
  }

  /** The ends of a range as they are written. */
  function RangeEnds(base: string): Option<(string, string)> {
    var pieces := Split(base, '-');
    if |pieces| != 2 then None else Some((TrimSpace(pieces[0]), TrimSpace(pieces[1])))
  }

  function RangeOf(base: string, min: int, max: int, sundaySeven: bool): (r: Option<(int, int)>)
    requires min <= max
    ensures r.Some? ==> min <= r.value.0 <= r.value.1 <= max
  {
    if base == "*" then Some((min, max))
    else if '-' in base then
      var ends :- RangeEnds(base);
      if sundaySeven && (ends.0 == "7" || ends.1 == "7") then None
      else Span(ParseFieldValue(ends.0, min, max, sundaySeven), ParseFieldValue(ends.1, min, max, sundaySeven))
    else
      var single := ParseFieldValue(base, min, max, sundaySeven);
      Span(single, single)
  }

  /** What a list item stands for. */
  function PartOf(raw: string, min: int, max: int, sundaySeven: bool): (r: Option<Part>)
    requires min <= max
    ensures r.Some? ==> min <= r.value.first <= r.value.last <= max && 0 < r.value.step <= MAX_INT
  {
    if raw == "" then None
    else
      var step :- StepOf(raw);
      var range :- RangeOf(step.0, min, max, sundaySeven);
      Some(Part(range.0, range.1, step.1))
  }

  /** The second value of a step is past the largest int. */
  predicate Overflows(p: Part) {
    p.first + p.step > MAX_INT
  }

  function PartOutcome(raw: string, min: int, max: int, sundaySeven: bool): Outcome
    requires min <= max
  {
    var p := PartOf(raw, min, max, sundaySeven);
    if p.None? then Refused else if Overflows(p.value) then Panics else Added
  }

  /** Reached values lie at least a step apart. */
  lemma {:induction false} ReachedApart(first: int, step: int, a: int, b: int)
    requires step > 0 && Reached(first, step, a) && Reached(first, step, b) && a < b
    ensures b - a >= step
    decreases b - first
  {
    if b - step > a {
      ReachedApart(first, step, a, b - step);
    } else if b - step < a {
      ReachedFrom(first, step, b - step);
      ReachedApart(first, step, a - step, b - step);
    }
  }

  lemma {:induction false} ReachedFrom(first: int, step: int, v: int)
    requires step > 0 && Reached(first, step, v)
    ensures v >= first
    decreases v - first
  {
  }

  /** The reached values are the multiples of the step, counted from the first value. */
  lemma {:induction false} ReachedIff(first: int, step: int, v: int)
    requires step > 0
    ensures Reached(first, step, v) <==> exists k: nat :: Nth(first, step, k) == v
    decreases if v > first then v - first else 0
  {
    if v == first {
      assert Nth(first, step, 0) == v;
    } else if v > first {
      ReachedIff(first, step, v - step);
      if Reached(first, step, v) {
        var k: nat :| Nth(first, step, k) == v - step;
        assert Nth(first, step, k + 1) == v;
      }
      if k: nat :| Nth(first, step, k) == v {
        assert Nth(first, step, k - 1) == v - step;
      }
    } else {
      forall k: nat
        ensures Nth(first, step, k) >= first
      {
        assert k * step >= 0;
      }
    }
  }

  function Nth(first: int, step: int, k: nat): int {
    first + k * step
  }

  /** Marks the values of one list item. */
  method AddFieldPart(raw: string, min: int, max: int, sundaySeven: bool, allowed: array<bool>) returns (o: Outcome)
    requires 0 <= min <= max <= 59 && allowed.Length == max + 1
    modifies allowed
    ensures o == PartOutcome(raw, min, max, sundaySeven)
    ensures o.Added? ==> forall v :: 0 <= v <= max ==>
              allowed[v] == (old(allowed[v]) || Hits(PartOf(raw, min, max, sundaySeven).value, v))
    ensures o.Refused? ==> allowed[..] == old(allowed[..])
  {
    hide PartOf;
    var part := PartOf(raw, min, max, sundaySeven);
    if part.None? {
      return Refused;
    }
    var p := part.value;
    var value := p.first;
    while value <= p.last
      invariant value < 0 ==> Overflows(p)
      invariant value >= 0 ==> Reached(p.first, p.step, value)
      invariant value > p.first ==> value - p.first >= p.step && !Overflows(p)
      invariant value >= 0 ==> forall v :: 0 <= v <= max ==> allowed[v] == (old(allowed[v]) || (Hits(p, v) && v < value))
      decreases if value < 0 then 0 else 1 + max + 1 - value
    {
      if value < 0 {
        return Panics;
      }
      ReachedFrom(p.first, p.step, value);
      forall v | Hits(p, v) && value < v
        ensures v >= value + p.step
      {
        ReachedApart(p.first, p.step, value, v);
      }
      allowed[value] := true;
      assert value + p.step - p.step == value;
      assert Reached(p.first, p.step, value + p.step);
      value := Wrap(value + p.step);
    }
    o := Added;
  }

  // ----- fields -----

  predicate Has(f: Field, v: int) {
    f.min <= v <= f.max && 0 <= v < |f.allowed| && f.allowed[v]
  }

  /** Some value is allowed, and a wildcard allows all of them. */
  ghost predicate WellFormed(f: Field, min: int, max: int) {
    f.min == min && f.max == max && |f.allowed| == max + 1 && (exists v :: Has(f, v)) &&
    (f.wildcard ==> forall v :: min <= v <= max ==> Has(f, v))
  }

  /** The outcome of the first n list items: the first one that is not added decides. */
  function ItemsOutcome(items: seq<string>, n: nat, min: int, max: int, sundaySeven: bool): Outcome
    requires min <= max && n <= |items|
  {
    if n == 0 then Added
    else
      var before := ItemsOutcome(items, n - 1, min, max, sundaySeven);
      if before.Added? then PartOutcome(TrimSpace(items[n - 1]), min, max, sundaySeven) else before
  }

  function FieldOutcome(raw: string, min: int, max: int, sundaySeven: bool): Outcome
    requires min <= max
  {
    var value := TrimSpace(raw);
    var items := Split(value, ',');
    if value == "" then Refused else ItemsOutcome(items, |items|, min, max, sundaySeven)
  }

  predicate ItemAllows(item: string, min: int, max: int, sundaySeven: bool, v: int)
    requires min <= max
  {
    var p := PartOf(TrimSpace(item), min, max, sundaySeven);
    p.Some? && Hits(p.value, v)
  }

  /** Some list item of the field text allows the value. */
  predicate TextAllows(raw: string, min: int, max: int, sundaySeven: bool, v: int)
    requires min <= max
  {
    var items := Split(TrimSpace(raw), ',');
    exists i :: 0 <= i < |items| && ItemAllows(items[i], min, max, sundaySeven, v)
  }

  lemma {:induction false} OutcomeDecided(items: seq<string>, n: nat, m: nat, min: int, max: int, sundaySeven: bool)
    requires min <= max && n <= m <= |items|
    ensures !ItemsOutcome(items, n, min, max, sundaySeven).Added? ==>
              ItemsOutcome(items, m, min, max, sundaySeven) == ItemsOutcome(items, n, min, max, sundaySeven)
  {
    if n < m {
      OutcomeDecided(items, n, m - 1, min, max, sundaySeven);
    }
  }

  /** A field is parsed into exactly the values that its text allows; the final search for an
      allowed value never fails. */
  method ParseField(raw: string, min: int, max: int, sundaySeven: bool) returns (o: Outcome, f: Field)
    requires 0 <= min <= max <= 59
    ensures o == FieldOutcome(raw, min, max, sundaySeven)
    ensures o.Added? ==> WellFormed(f, min, max) && (f.wildcard <==> TrimSpace(raw) == "*")
    ensures o.Added? ==> forall v :: Has(f, v) <==> TextAllows(raw, min, max, sundaySeven, v) && min <= v <= max
  {
    hide TrimSpace, Split, PartOf, PartOutcome, Hits;
    f := Field(min, max, [], false);
    var value := TrimSpace(raw);
    if value == "" {
      return Refused, f;
    }
    var allowed := new bool[max + 1](_ => false);
    var items := Split(value, ',');
    for i := 0 to |items|
      invariant ItemsOutcome(items, i, min, max, sundaySeven) == Added
      invariant forall v :: 0 <= v <= max ==>
                  (allowed[v] <==> exists j :: 0 <= j < i && ItemAllows(items[j], min, max, sundaySeven, v))
    {
      OutcomeDecided(items, i + 1, |items|, min, max, sundaySeven);
      o := AddFieldPart(TrimSpace(items[i]), min, max, sundaySeven, allowed);
      if !o.Added? {
        return o, f;
      }
      AddedPart(items[i], min, max, sundaySeven);
    }
    f := Field(min, max, allowed[..], value == "*");
    FirstIsAllowed(items, min, max, sundaySeven);
    ghost var first :| min <= first <= max && ItemAllows(items[0], min, max, sundaySeven, first);
    assert allowed[first];
    var hasValue, idx := false, min;
    while idx <= max && !hasValue
      invariant min <= idx <= max + 1
      invariant !hasValue ==> forall v :: min <= v < idx ==> !allowed[v]
      invariant hasValue ==> exists v :: Has(f, v)
    {
      hasValue := allowed[idx];
      assert hasValue ==> Has(f, idx);
      idx := idx + 1;
    }
    if !hasValue {
      assert false;
    }
    if f.wildcard {
      StarAllowsAll(value, min, max, sundaySeven);
      assert items[0] == value;
    }
    o := Added;
  }

  lemma AddedPart(item: string, min: int, max: int, sundaySeven: bool)
    requires min <= max && PartOutcome(TrimSpace(item), min, max, sundaySeven).Added?
    ensures PartOf(TrimSpace(item), min, max, sundaySeven).Some?
    ensures forall v :: ItemAllows(item, min, max, sundaySeven, v) ==
                        Hits(PartOf(TrimSpace(item), min, max, sundaySeven).value, v)
  {
    hide PartOf, Hits, TrimSpace;
  }

  lemma FirstIsAllowed(items: seq<string>, min: int, max: int, sundaySeven: bool)
    requires min <= max && items != [] && ItemsOutcome(items, |items|, min, max, sundaySeven).Added?
    ensures exists v :: min <= v <= max && ItemAllows(items[0], min, max, sundaySeven, v)
  {
    hide TrimSpace, PartOf;
    OutcomeDecided(items, 1, |items|, min, max, sundaySeven);
    assert ItemsOutcome(items, 0, min, max, sundaySeven).Added?;
    AddedPart(items[0], min, max, sundaySeven);
    var p := PartOf(TrimSpace(items[0]), min, max, sundaySeven).value;
    assert ItemAllows(items[0], min, max, sundaySeven, p.first);
  }

  lemma {:induction false} ReachedByOnes(first: int, v: int)
    requires v >= first
    ensures Reached(first, 1, v)
    decreases v - first
  {
    if v > first {
      ReachedByOnes(first, v - 1);
    }
  }

  lemma StarAllowsAll(value: string, min: int, max: int, sundaySeven: bool)
    requires min <= max && value == "*"
    ensures Split(value, ',') == [value]
    ensures forall v :: min <= v <= max ==> ItemAllows(value, min, max, sundaySeven, v)
  {
    SplitWithout(value, ',');
    TrimSpaceFixed(value);
    hide TrimSpace, Split;
    StarPart(value, min, max, sundaySeven);
    forall v | min <= v <= max
      ensures ItemAllows(value, min, max, sundaySeven, v)
    {
      ReachedByOnes(min, v);
    }
  }

  // ----- schedules -----

  /** strings.Fields: the runs of characters that are not white space. */
  function Words(s: string, current: string): seq<string> {
    var done := if current == "" then [] else [current];
    if s == [] then done
    else if IsSpace(s[0]) then done + Words(s[1..], "")
    else Words(s[1..], current + [s[0]])
  }

  /** The bounds of the five fields; only the last one takes 7 for Sunday. */
  function Bounds(i: nat): (b: (int, int))
    ensures 0 <= b.0 <= b.1 <= 59
  {
    match i
    case 0 => (0, 59)
    case 1 => (0, 23)
    case 2 => (1, 31)
    case 3 => (1, 12)
    case _ => (0, 6)
  }

  function FieldsOutcome(words: seq<string>, n: nat): Outcome
    requires n <= |words| == 5
  {
    if n == 0 then Added
    else
      var before := FieldsOutcome(words, n - 1);
      if before.Added? then FieldOutcome(words[n - 1], Bounds(n - 1).0, Bounds(n - 1).1, n == 5) else before
  }

  function ParseOutcome(raw: string): Outcome {
    var words := Words(TrimSpace(raw), "");
    if |words| != 5 then Refused else FieldsOutcome(words, 5)
  }

  ghost predicate Proper(s: Schedule) {
    WellFormed(s.minute, 0, 59) && WellFormed(s.hour, 0, 23) && WellFormed(s.dayOfMonth, 1, 31) &&
    WellFormed(s.month, 1, 12) && WellFormed(s.dayOfWeek, 0, 6)
  }

  function FieldAt(s: Schedule, i: nat): Field {
    match i
    case 0 => s.minute
    case 1 => s.hour
    case 2 => s.dayOfMonth
    case 3 => s.month
    case _ => s.dayOfWeek
  }

  ghost predicate FieldMeans(f: Field, raw: string, min: int, max: int, sundaySeven: bool)
    requires min <= max
  {
    WellFormed(f, min, max) && (f.wildcard <==> TrimSpace(raw) == "*") &&
    forall v :: Has(f, v) <==> TextAllows(raw, min, max, sundaySeven, v) && min <= v <= max
  }

  /** Each field of the schedule allows what its word says. */
  ghost predicate ScheduleMeans(s: Schedule, words: seq<string>)
    requires |words| == 5
  {
    forall i :: 0 <= i < 5 ==> FieldMeans(FieldAt(s, i), words[i], Bounds(i).0, Bounds(i).1, i == 4)
  }

  method Parse(raw: string) returns (o: Outcome, s: Schedule)
    ensures o == ParseOutcome(raw)
    ensures o.Added? ==> Proper(s) && ScheduleMeans(s, Words(TrimSpace(raw), ""))
  {
    hide TrimSpace, Words, FieldOutcome, TextAllows, WellFormed;
    var none := Field(0, 0, [], false);
    s := Schedule(none, none, none, none, none);
    var parts := Words(TrimSpace(raw), "");
    if |parts| != 5 {
      return Refused, s;
    }
    var minute, hour, dayOfMonth, month, dayOfWeek;
    o, minute := ParseField(parts[0], 0, 59, false);
    if o.Added? {
      o, hour := ParseField(parts[1], 0, 23, false);
      if o.Added? {
        o, dayOfMonth := ParseField(parts[2], 1, 31, false);
        if o.Added? {
          o, month := ParseField(parts[3], 1, 12, false);
          if o.Added? {
            o, dayOfWeek := ParseField(parts[4], 0, 6, true);
            if o.Added? {
              s := Schedule(minute, hour, dayOfMonth, month, dayOfWeek);
            }
          }
        }
      }
    }
    forall n | 1 <= n <= 5
      ensures FieldsOutcome(parts, n) ==
              if FieldsOutcome(parts, n - 1).Added? then FieldOutcome(parts[n - 1], Bounds(n - 1).0, Bounds(n - 1).1, n == 5)
              else FieldsOutcome(parts, n - 1)
    {
    }
    assert FieldsOutcome(parts, 0).Added?;
    assert FieldsOutcome(parts, 1) == FieldOutcome(parts[0], 0, 59, false);
    assert FieldsOutcome(parts, 2).Added? || FieldsOutcome(parts, 3) == FieldsOutcome(parts, 2);
    assert FieldsOutcome(parts, 3).Added? || FieldsOutcome(parts, 4) == FieldsOutcome(parts, 3);
    assert FieldsOutcome(parts, 4).Added? || FieldsOutcome(parts, 5) == FieldsOutcome(parts, 4);
  }

  // ----- an expression that panics -----

  /** The step of all values with the largest int overflows in every field that does not start at 0. */
  lemma LargestStep(min: int, max: int, sundaySeven: bool, digits: string)
    requires 0 < min <= max && AllDigits(digits) && DigitsValue(digits) == MAX_INT
    ensures PartOutcome("*/" + digits, min, max, sundaySeven) == Panics
  {
    hide StepOf, ParseFieldValue, RangeEnds;
    StarStep("*", digits);
    assert "*" + ['/'] + digits == "*/" + digits;
  }

  lemma StarStep(star: string, digits: string)
    requires star == "*" && AllDigits(digits) && DigitsValue(digits) == MAX_INT
    ensures StepOf(star + ['/'] + digits) == Some((star, MAX_INT))
  {
    hide TrimSpace, DigitsValue, Atoi, AllDigits, IsSpace, Split;
    AtoiOfDigits(digits);
    SplitAtSeparator(star, digits, '/');
    SplitWithout(digits, '/');
    TrimStar(star);
    assert (star + ['/'] + digits)[1] == '/';
  }

  lemma TrimStar(star: string)
    requires star == "*"
    ensures TrimSpace(star) == star
  {
    TrimSpaceFixed(star);
  }

  lemma LargestStepText(item: string, digits: string)
    requires AllDigits(digits) && DigitsValue(digits) == MAX_INT && item == "*/" + digits
    ensures TrimSpace(item) == item && ',' !in item && forall i :: 0 <= i < |item| ==> !IsSpace(item[i])
  {
    hide TrimSpace, DigitsValue, Atoi, AllDigits;
    AtoiOfDigits(digits);
    assert forall i :: 2 <= i < |item| ==> item[i] == digits[i - 2];
    TrimSpaceFixed(item);
  }

  lemma OneItem(raw: string, min: int, max: int, sundaySeven: bool)
    requires min <= max && raw != "" && TrimSpace(raw) == raw && ',' !in raw
    ensures FieldOutcome(raw, min, max, sundaySeven) == PartOutcome(raw, min, max, sundaySeven)
  {
    hide TrimSpace, PartOutcome;
    SplitWithout(raw, ',');
    assert ItemsOutcome([raw], 0, min, max, sundaySeven) == Added;
  }

  predicate IsWord(w: string) {
    w != "" && forall i :: 0 <= i < |w| ==> !IsSpace(w[i])
  }

  lemma {:induction false} WordsPlain(w: string, current: string, rest: string)
    requires forall i :: 0 <= i < |w| ==> !IsSpace(w[i])
    ensures Words(w + rest, current) == Words(rest, current + w)
    decreases |w|
  {
    hide IsSpace;
    if w == "" {
      assert w + rest == rest && current + w == current;
    } else {
      assert (w + rest)[1..] == w[1..] + rest;
      assert current + [w[0]] + w[1..] == current + w;
      WordsPlain(w[1..], current + [w[0]], rest);
    }
  }

  lemma {:induction false} WordsOfJoin(words: seq<string>)
    requires words != [] && forall w :: w in words ==> IsWord(w)
    ensures Words(Join(words, ' '), "") == words
  {
    var w := words[0];
    assert w in words && "" + w == w && w + "" == w;
    if |words| == 1 {
      WordsPlain(w, "", "");
    } else {
      var rest := Join(words[1..], ' ');
      WordsOfJoin(words[1..]);
      assert Join(words, ' ') == w + ([' '] + rest);
      WordsPlain(w, "", [' '] + rest);
      WordsBlank(rest, w);
    }
  }

  lemma WordsBlank(rest: string, w: string)
    requires w != ""
    ensures Words([' '] + rest, w) == [w] + Words(rest, "")
  {
    assert ([' '] + rest)[1..] == rest;
  }

  // Parsing the expression with the step 9223372036854775807 for days of the month panics.
  lemma LargestStepPanics()
    ensures ParseOutcome(Join(["*", "*", "*/" + Itoa(MAX_INT), "*", "*"], ' ')) == Panics
  {
    hide Itoa, AllDigits, DigitsValue, TrimSpace, Words, Join, FieldOutcome, IsSpace, PartOutcome;
    var digits := Itoa(MAX_INT);
    ItoaDigits(MAX_INT);
    var item := "*/" + digits;
    var words := ["*", "*", item, "*", "*"];
    LargestStep(1, 31, false, digits);
    LargestStepText(item, digits);
    OneItem(item, 1, 31, false);
    StarIsAdded("*", 0, 59);
    StarIsAdded("*", 0, 23);
    assert forall w :: w in words ==> IsWord(w);
    WordsOfJoin(words);
    StarsAround(item);
    assert FieldsOutcome(words, 0) == Added;
    assert FieldsOutcome(words, 1) == Added;
    assert FieldsOutcome(words, 2) == Added;
    assert FieldsOutcome(words, 3) == Panics;
    assert FieldsOutcome(words, 4) == Panics;
  }

  lemma StarIsAdded(star: string, min: int, max: int)
    requires star == "*" && 0 <= min <= max <= 59
    ensures FieldOutcome(star, min, max, false) == Added && IsWord(star)
  {
    hide TrimSpace, Split, FieldOutcome, PartOf;
    TrimStar(star);
    OneItem(star, min, max, false);
    StarPart(star, min, max, false);
  }

  lemma StarPart(star: string, min: int, max: int, sundaySeven: bool)
    requires star == "*" && min <= max
    ensures PartOf(star, min, max, sundaySeven) == Some(Part(min, max, 1))
  {
    hide TrimSpace, Split, ParseFieldValue, RangeEnds;
  }

  lemma StarsAround(item: string)
    ensures var raw := Join(["*", "*", item, "*", "*"], ' '); TrimSpace(raw) == raw
  {
    hide TrimSpace;
    assert ["*"][1..] == [] && ["*", "*"][1..] == ["*"];
    assert Join(["*", "*"], ' ') == "* *";
    assert [item, "*", "*"][1..] == ["*", "*"];
    assert Join([item, "*", "*"], ' ') == item + " * *";
    assert ["*", item, "*", "*"][1..] == [item, "*", "*"];
    assert Join(["*", item, "*", "*"], ' ') == "* " + (item + " * *");
    assert ["*", "*", item, "*", "*"][1..] == ["*", item, "*", "*"];
    var raw := Join(["*", "*", item, "*", "*"], ' ');
    assert raw == "* " + ("* " + (item + " * *"));
    assert raw[0] == '*' && raw[|raw| - 1] == '*';
    TrimSpaceFixed(raw);
  }

  // ----- matching -----

  predicate Matches(s: Schedule, t: int) {
    var day := DayOfMinute(t);
    Has(s.minute, MinuteOf(t)) && Has(s.hour, HourOf(t)) && Has(s.month, DateOf(day).month) &&
    var dayOfMonthMatch := Has(s.dayOfMonth, DateOf(day).day);
    var dayOfWeekMatch := Has(s.dayOfWeek, Weekday(day));
    if s.dayOfMonth.wildcard && s.dayOfWeek.wildcard then true
    else if s.dayOfMonth.wildcard then dayOfWeekMatch
    else if s.dayOfWeek.wildcard then dayOfMonthMatch
    else dayOfMonthMatch || dayOfWeekMatch
  }

  /** Nanoseconds in a minute. */
  const MINUTE: int := 60_000_000_000

  /** The first whole minute after the instant. */
  function Candidate(after: int): int {
    after / MINUTE + 1
  }

  const YEARS: int := 5

  function Limit(after: int): int {
    AddYears(Candidate(after), YEARS)
  }

  /** The schedule fires whatever the year: on some weekdays, on every day, or on a day that
      every year has. */
  ghost predicate Recurs(s: Schedule) {
    !s.dayOfWeek.wildcard || s.dayOfMonth.wildcard ||
    exists month, day :: Has(s.month, month) && Has(s.dayOfMonth, day) && day <= CommonDays(month)
  }

  /** The schedule allows 29 February, and an allowed minute of such a day lies in the window. */
  ghost predicate LeapDayAhead(s: Schedule, from: int, limit: int) {
    Has(s.month, 2) && Has(s.dayOfMonth, 29) &&
    exists year, hour, minute :: Leap(year) && Has(s.hour, hour) && Has(s.minute, minute) &&
                                 from <= At(Date(year, 2, 29), hour, minute) <= limit
  }

  /** The search from the minute after the given instant, counted in nanoseconds, up to the limit:
      it returns the least matching minute in the window, and it returns one exactly when the
      schedule recurs or a leap day is ahead. */
  method Next(s: Schedule, after: int) returns (found: bool, next: int)
    requires Proper(s)
    ensures found ==> after < next * MINUTE && Matches(s, next) && next <= Limit(after)
    ensures found ==> forall t :: after < t * MINUTE && t < next ==> !Matches(s, t)
    ensures !found ==> forall t :: after < t * MINUTE && t <= Limit(after) ==> !Matches(s, t)
    ensures found <==> Recurs(s) || LeapDayAhead(s, Candidate(after), Limit(after))
  {
    hide AddYears, Matches, Proper, Recurs, LeapDayAhead;
    var candidate := Candidate(after);
    var limit := Limit(after);
    assert forall t: int :: after < t * MINUTE <==> Candidate(after) <= t;
    NextExistsIff(s, candidate);
    while candidate <= limit
      invariant Candidate(after) <= candidate
      invariant forall t :: Candidate(after) <= t < candidate ==> !Matches(s, t)
      decreases limit + 1 - candidate
    {
      if Matches(s, candidate) {
        return true, candidate;
      }
      candidate := candidate + 1;
    }
    return false, 0;
  }

  // ----- when a matching minute exists -----

  /** Every date of the four years after the year of t lies in the window of the search. */
  lemma YearsInWindow(t: int, d: Date, hour: int, minute: int)
    requires IsDate(d) && 0 <= hour < 24 && 0 <= minute < 60
    requires DateOf(DayOfMinute(t)).year < d.year < DateOf(DayOfMinute(t)).year + YEARS
    ensures t <= At(d, hour, minute) <= AddYears(t, YEARS)
  {
    hide DaysBeforeYear, DateOf;
    var now := DateOf(DayOfMinute(t));
    NumbersInOrder(now, d);
    var first := Date(now.year + YEARS, 1, 1);
    NumbersInOrder(d, first);
    MonthsInOrder(now.year + YEARS, 1, now.month);
    assert t == DayNumber(now) * DAY_MINUTES + t % DAY_MINUTES;
  }

  /** A minute on an allowed day of an allowed month matches. */
  lemma MatchesAt(s: Schedule, d: Date, hour: int, minute: int)
    requires IsDate(d) && Has(s.month, d.month) && Has(s.hour, hour) && Has(s.minute, minute)
    requires 0 <= hour < 24 && 0 <= minute < 60
    requires (s.dayOfMonth.wildcard && s.dayOfWeek.wildcard) ||
             (!s.dayOfWeek.wildcard && Has(s.dayOfWeek, Weekday(DayNumber(d)))) ||
             (!s.dayOfMonth.wildcard && Has(s.dayOfMonth, d.day))
    ensures Matches(s, At(d, hour, minute))
  {
    hide DateOf, DayNumber;
    PartsOfAt(d, hour, minute);
    DateOfNumber(d);
  }

  /** A wildcard allows every day, so the rule for days is: when one of the two fields is a
      wildcard both have to allow the day, and otherwise one of them is enough. */
  lemma MatchesIff(s: Schedule, d: Date, hour: int, minute: int)
    requires Proper(s) && IsDate(d) && 0 <= hour < 24 && 0 <= minute < 60
    ensures Matches(s, At(d, hour, minute)) <==>
              Has(s.minute, minute) && Has(s.hour, hour) && Has(s.month, d.month) &&
              var onDay, onWeekday := Has(s.dayOfMonth, d.day), Has(s.dayOfWeek, Weekday(DayNumber(d)));
              if s.dayOfMonth.wildcard || s.dayOfWeek.wildcard then onDay && onWeekday else onDay || onWeekday
  {
    hide DateOf, DayNumber;
    PartsOfAt(d, hour, minute);
    DateOfNumber(d);
    assert 1 <= d.day <= 31 && 0 <= Weekday(DayNumber(d)) <= 6;
  }

  /** Each weekday falls on one of the first seven days of a month. */
  lemma WeekdayInMonth(year: int, month: int, weekday: int) returns (day: int)
    requires 1 <= month <= 12 && 0 <= weekday <= 6
    ensures 1 <= day <= 7 && Weekday(DayNumber(Date(year, month, day))) == weekday
  {
    hide DaysBeforeYear, DaysBeforeMonth;
    var first := DayNumber(Date(year, month, 1));
    var shift := (weekday - Weekday(first)) % 7;
    day := 1 + shift;
    assert DayNumber(Date(year, month, day)) == first + shift;
  }

  lemma RecurringMatches(s: Schedule, t: int) returns (u: int)
    requires Proper(s) && Recurs(s)
    ensures t <= u <= AddYears(t, YEARS) && Matches(s, u)
  {
    hide AddYears, DateOf, Matches, DayNumber, At;
    var year := DateOf(DayOfMinute(t)).year + 1;
    var hour :| Has(s.hour, hour);
    var minute :| Has(s.minute, minute);
    var month :| Has(s.month, month);
    var day := 1;
    if !s.dayOfWeek.wildcard {
      var weekday :| Has(s.dayOfWeek, weekday);
      day := WeekdayInMonth(year, month, weekday);
    } else if !s.dayOfMonth.wildcard {
      month, day :| Has(s.month, month) && Has(s.dayOfMonth, day) && day <= CommonDays(month);
    }
    var d := Date(year, month, day);
    assert IsDate(d);
    YearsInWindow(t, d, hour, minute);
    MatchesAt(s, d, hour, minute);
    u := At(d, hour, minute);
  }

  /** A match of a schedule that does not recur is on a leap day. */
  lemma OtherMatchesAreLeapDays(s: Schedule, from: int, limit: int, u: int)
    requires Proper(s) && !Recurs(s) && from <= u <= limit && Matches(s, u)
    ensures LeapDayAhead(s, from, limit)
  {
    hide DateOf, DayNumber, DayOfMinute, HourOf, MinuteOf, Leap, Has;
    var d := DateOf(DayOfMinute(u));
    assert d.day <= DaysIn(d.year, d.month) && Has(s.month, d.month) && Has(s.dayOfMonth, d.day);
    assert d.day > CommonDays(d.month);
    assert d == Date(d.year, 2, 29) && Leap(d.year);
    MinuteParts(u);
    assert u == At(d, HourOf(u), MinuteOf(u));
  }

  lemma LeapDayMatches(s: Schedule, from: int, limit: int) returns (u: int)
    requires Proper(s) && !Recurs(s) && LeapDayAhead(s, from, limit)
    ensures from <= u <= limit && Matches(s, u)
  {
    hide DayNumber, Matches;
    var year, hour, minute :| Leap(year) && Has(s.hour, hour) && Has(s.minute, minute) &&
                              from <= At(Date(year, 2, 29), hour, minute) <= limit;
    MatchesAt(s, Date(year, 2, 29), hour, minute);
    u := At(Date(year, 2, 29), hour, minute);
  }

  lemma NextExistsIff(s: Schedule, from: int)
    requires Proper(s)
    ensures (exists t :: from <= t <= AddYears(from, YEARS) && Matches(s, t)) <==>
              Recurs(s) || LeapDayAhead(s, from, AddYears(from, YEARS))
  {
    hide AddYears, Matches, Recurs, LeapDayAhead, Proper;
    var limit := AddYears(from, YEARS);
    if Recurs(s) {
      var u := RecurringMatches(s, from);
    } else {
      if LeapDayAhead(s, from, limit) {
        var u := LeapDayMatches(s, from, limit);
      }
      if t :| from <= t <= limit && Matches(s, t) {
        OtherMatchesAreLeapDays(s, from, limit, t);
      }
    }
  }

  /** With a leap year among the next four years, a schedule for 29 February fires. */
  lemma LeapYearAhead(s: Schedule, from: int, year: int)
    requires Proper(s) && Has(s.month, 2) && Has(s.dayOfMonth, 29)
    requires Leap(year) && DateOf(DayOfMinute(from)).year < year < DateOf(DayOfMinute(from)).year + YEARS
    ensures LeapDayAhead(s, from, AddYears(from, YEARS))
  {
    hide AddYears, DateOf;
    var hour :| Has(s.hour, hour);
    var minute :| Has(s.minute, minute);
    YearsInWindow(from, Date(year, 2, 29), hour, minute);
  }

  /** Before a century year that is not a leap year the search gives up: from 1 March of the last
      leap year before it, and throughout the two years after that, no leap day is within five years. */
  lemma LeapGap(s: Schedule, from: int, century: int)
    requires Proper(s) && !Recurs(s) && century % 100 == 0 && !Leap(century)
    requires var d := DateOf(DayOfMinute(from));
             century - 4 <= d.year <= century - 2 && (d.year == century - 4 ==> d.month >= 3)
    ensures forall t :: from <= t <= AddYears(from, YEARS) ==> !Matches(s, t)
  {
    forall t | from <= t <= AddYears(from, YEARS)
      ensures !Matches(s, t)
    {
      if Matches(s, t) {
        OtherMatchesAreLeapDays(s, from, AddYears(from, YEARS), t);
        var year, hour, minute :| Leap(year) && Has(s.hour, hour) && Has(s.minute, minute) &&
                                  from <= At(Date(year, 2, 29), hour, minute) <= AddYears(from, YEARS);
        OutsideTheGap(from, century, year, hour, minute);
        assert false;
      }
    }
  }

  lemma OutsideTheGap(from: int, century: int, year: int, hour: int, minute: int)
    requires century % 100 == 0 && !Leap(century) && Leap(year) && 0 <= hour < 24 && 0 <= minute < 60
    requires var d := DateOf(DayOfMinute(from));
             century - 4 <= d.year <= century - 2 && (d.year == century - 4 ==> d.month >= 3)
    ensures At(Date(year, 2, 29), hour, minute) < from || AddYears(from, YEARS) < At(Date(year, 2, 29), hour, minute)
  {
    hide DateOf, DayNumber;
    var now := DateOf(DayOfMinute(from));
    var leapDay := Date(year, 2, 29);
    assert from == DayNumber(now) * DAY_MINUTES + from % DAY_MINUTES;
    LeapYearsAround(century, year);
    if year <= century - 4 {
      NumbersInOrder(leapDay, now);
    } else {
      NotLeapInside(century, now.year);
      var end := Date(now.year + YEARS, now.month, now.day);
      NumbersInOrder(end, leapDay);
      EndOfWindow(from);
    }
  }

  lemma EndOfWindow(from: int)
    ensures var now := DateOf(DayOfMinute(from));
            AddYears(from, YEARS) == DayNumber(Date(now.year + YEARS, now.month, now.day)) * DAY_MINUTES + from % DAY_MINUTES
  {
    hide DaysBeforeYear, DaysBeforeMonth, DateOf;
  }

  lemma LeapYearsAround(century: int, year: int)
    requires century % 100 == 0 && !Leap(century) && Leap(year)
    ensures year <= century - 4 || year >= century + 4
  {
    CenturiesDivide(century);
    assert century == 4 * (century / 4) && year == 4 * (year / 4);
  }

  lemma NotLeapInside(century: int, year: int)
    requires century % 100 == 0 && century - 4 <= year <= century - 2
    ensures year > century - 4 ==> !Leap(year)
  {
    CenturiesDivide(century);
  }

  // ----- a schedule for 29 February -----

  /** A number stands for itself. */
  lemma NumberAllows(text: string, d: nat, min: int, max: int, v: int)
    requires AllDigits(text) && DigitsValue(text) == d <= MAX_INT && min <= d <= max
    ensures TrimSpace(text) != "*" && (TextAllows(text, min, max, false, v) <==> v == d)
  {
    hide TrimSpace, DigitsValue, AllDigits, Split, PartOf, Hits;
    AtoiOfDigits(text);
    NumberPart(text, d, min, max);
    assert text != "*" && ',' !in text;
    SplitWithout(text, ',');
    NumberHits(d, v);
    assert ItemAllows(text, min, max, false, v) <==> v == d;
    assert [text][0] == text;
  }

  lemma NumberPart(text: string, d: nat, min: int, max: int)
    requires AllDigits(text) && DigitsValue(text) == d <= MAX_INT && min <= d <= max
    ensures PartOf(text, min, max, false) == Some(Part(d, d, 1)) && text != "*"
  {
    hide TrimSpace, DigitsValue, Atoi, RangeEnds;
    AtoiOfDigits(text);
    assert IsDigit(text[0]) && forall i :: 0 <= i < |text| ==> IsDigit(text[i]);
  }

  lemma NumberHits(d: int, v: int)
    ensures Hits(Part(d, d, 1), v) <==> v == d
  {
    if Hits(Part(d, d, 1), v) {
      ReachedFrom(d, 1, v);
    }
  }

  /** The words of "0 0 29 2 *". */
  function LeapDayWords(): seq<string> {
    [Itoa(0), Itoa(0), Itoa(29), Itoa(2), "*"]
  }

  lemma LeapDayOnly(s: Schedule)
    requires ScheduleMeans(s, LeapDayWords())
    ensures Proper(s) && !Recurs(s)
  {
    hide Itoa, TextAllows, AllDigits, DigitsValue, TrimSpace, WellFormed, Has;
    var words := LeapDayWords();
    assert FieldMeans(FieldAt(s, 0), words[0], 0, 59, false) && FieldMeans(FieldAt(s, 1), words[1], 0, 23, false);
    assert FieldMeans(FieldAt(s, 2), words[2], 1, 31, false) && FieldMeans(FieldAt(s, 3), words[3], 1, 12, false);
    assert FieldMeans(FieldAt(s, 4), words[4], 0, 6, true);
    TrimStar("*");
    ItoaDigits(29);
    ItoaDigits(2);
    NumberAllows(words[2], 29, 1, 31, 0);
    forall month, day | Has(s.month, month) && Has(s.dayOfMonth, day)
      ensures month == 2 && day == 29
    {
      NumberAllows(words[2], 29, 1, 31, day);
      NumberAllows(words[3], 2, 1, 12, month);
    }
  }

  /** From 1 March 2096 it finds nothing within five years. */
  lemma LeapGapExample(s: Schedule)
    requires ScheduleMeans(s, LeapDayWords())
    ensures var from := At(Date(2096, 3, 1), 0, 0); forall t :: from <= t <= AddYears(from, YEARS) ==> !Matches(s, t)
  {
    hide ScheduleMeans, DayNumber, DateOf, AddYears, Matches, Proper, Recurs;
    var d := Date(2096, 3, 1);
    LeapDayOnly(s);
    PartsOfAt(d, 0, 0);
    DateOfNumber(d);
    LeapGap(s, At(d, 0, 0), 2100);
  }
}

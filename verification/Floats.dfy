/** The float64 that Go converts an integer to: the nearest number with 53 significant
    bits, ties to even. */
module Floats {

  /** n rounded to 53 significant bits, ties to even; sticky says whether lower bits that
      are already cut off were not all zero. */
  function Round53(n: nat, sticky: bool): nat {
    if n < 0x40_0000_0000_0000 then
      if n % 2 == 0 then n else if sticky || (n / 2) % 2 == 1 then n + 1 else n - 1
    else 2 * Round53(n / 2, sticky || n % 2 == 1)
  }

  /** The magnitude of the float64 nearest to n. */
  function RoundToFloat(n: nat): nat {
    if n < 0x20_0000_0000_0000 then n else Round53(n, false)
  }

  /** float64(n): not injective beyond 2^53. */
  function FloatOf(n: int): real {
    if n >= 0 then RoundToFloat(n) as real else -(RoundToFloat(-n) as real)
  }

  // ----- what rounding means -----

  const TOP: int := 0x20_0000_0000_0000

  function Pow2(e: nat): (p: nat)
    ensures p > 0
  {
    if e == 0 then 1 else 2 * Pow2(e - 1)
  }

  function Distance(a: int, b: int): nat {
    if a < b then b - a else a - b
  }

  /** A number with at most 53 significant bits. */
  ghost predicate Grid(k: int, m: int, e: nat) {
    -TOP <= m <= TOP && k == m * Pow2(e)
  }

  /** x is q steps of the grid around n, no more than half a step away, and q is even if it is half. */
  ghost predicate RoundedAt(n: nat, x: nat, e: nat, q: nat) {
    x == q * Pow2(e) && n < TOP * Pow2(e) && (e == 0 || TOP * Pow2(e) <= 2 * n) &&
    2 * Distance(n, x) <= Pow2(e) && (2 * Distance(n, x) == Pow2(e) ==> q % 2 == 0)
  }

  ghost predicate Rounded(n: nat, x: nat) {
    exists e, q :: RoundedAt(n, x, e, q)
  }

  /** The number x is the integer n rounded. */
  ghost predicate IsFloatOf(n: int, x: real) {
    exists k :: Rounded(Distance(n, 0), k) && x == if n >= 0 then k as real else -(k as real)
  }

  /** The same, for n followed by bits that are not all zero if sticky. */
  ghost predicate StickyAt(n: nat, sticky: bool, x: nat, e: nat, q: nat) {
    e > 0 && x == q * Pow2(e) && n < TOP * Pow2(e) <= 2 * n &&
    2 * Distance(n, x) <= Pow2(e) &&
    (if sticky then 2 * (n - x) < Pow2(e) else 2 * Distance(n, x) == Pow2(e) ==> q % 2 == 0)
  }

  lemma {:induction false} RoundIsNear(n: nat, sticky: bool) returns (e: nat, q: nat)
    requires n >= TOP
    ensures StickyAt(n, sticky, Round53(n, sticky), e, q)
  {
    if n < 0x40_0000_0000_0000 {
      e, q := 1, Round53(n, sticky) / 2;
      assert Pow2(1) == 2 * Pow2(0) == 2;
    } else {
      e, q := RoundIsNear(n / 2, sticky || n % 2 == 1);
      HalfStep(n, sticky, Round53(n / 2, sticky || n % 2 == 1), e, q);
      e := e + 1;
    }
  }

  lemma HalfStep(n: nat, sticky: bool, x: nat, e: nat, q: nat)
    requires StickyAt(n / 2, sticky || n % 2 == 1, x, e, q)
    ensures StickyAt(n, sticky, 2 * x, e + 1, q)
  {
    var p := Pow2(e - 1);
    assert Pow2(e) == 2 * p && Pow2(e + 1) == 4 * p;
    assert 2 * (q * (2 * p)) == q * (4 * p);
    assert TOP * (4 * p) == 2 * (TOP * (2 * p));
  }

  lemma RoundToFloatRounds(n: nat)
    ensures Rounded(n, RoundToFloat(n))
  {
    if n < TOP {
      assert Pow2(0) == 1;
      assert RoundedAt(n, n, 0, n);
    } else {
      var e, q := RoundIsNear(n, false);
      assert RoundedAt(n, RoundToFloat(n), e, q);
    }
  }

  lemma {:induction false} Pow2Grows(d: nat, e: nat)
    requires d < e
    ensures 2 * Pow2(d) <= Pow2(e)
  {
    if d + 1 < e {
      Pow2Grows(d, e - 1);
    }
  }

  lemma {:induction false} Pow2Divides(d: nat, e: nat) returns (f: nat)
    requires d <= e
    ensures Pow2(e) == f * Pow2(d)
  {
    if d == e {
      f := 1;
    } else {
      f := Pow2Divides(d, e - 1);
      assert 2 * (f * Pow2(d)) == (2 * f) * Pow2(d);
      f := 2 * f;
    }
  }

  lemma StepUnique(n: nat, x: nat, e: nat, q: nat, y: nat, f: nat, t: nat)
    requires RoundedAt(n, x, e, q) && RoundedAt(n, y, f, t)
    ensures e >= f
  {
    if e < f {
      Pow2Grows(e, f);
      assert false;
    }
  }

  /** Two multiples of p that are less than p apart are the same. */
  lemma MultiplesApart(p: nat, a: int, b: int)
    requires p > 0 && Distance(a * p, b * p) < p
    ensures a == b
  {
    if a < b {
      FarApart(p, a, b);
    } else if a > b {
      FarApart(p, b, a);
    }
  }

  lemma {:induction false} FarApart(p: nat, a: int, b: int)
    requires a < b
    ensures b * p - a * p >= p
    decreases b - a
  {
    if a + 1 < b {
      FarApart(p, a + 1, b);
    }
  }

  /** There is only one number that n is rounded to. */
  lemma RoundedUnique(n: nat, x: nat, y: nat)
    requires Rounded(n, x) && Rounded(n, y)
    ensures x == y
  {
    var e, q :| RoundedAt(n, x, e, q);
    var f, t :| RoundedAt(n, y, f, t);
    StepUnique(n, x, e, q, y, f, t);
    StepUnique(n, y, f, t, x, e, q);
    SameGrid(n, x, e, q, y, t);
  }

  lemma SameGrid(n: nat, x: nat, e: nat, q: nat, y: nat, t: nat)
    requires RoundedAt(n, x, e, q) && RoundedAt(n, y, e, t)
    ensures x == y
  {
    var p := Pow2(e);
    if Distance(x, y) < p {
      MultiplesApart(p, q, t);
    } else {
      assert Distance(x, y) == p;
      if q < t {
        assert (t - q) * p == p;
        MultiplesApart(p, t - q, 1);
      } else {
        assert (q - t) * p == p;
        MultiplesApart(p, q - t, 1);
      }
      assert false;
    }
  }

  /** No number with 53 significant bits is nearer to n, and one that is as near loses against the even one. */
  lemma RoundedIsNearest(n: nat, x: nat, e: nat, q: nat, k: int, m: int, f: nat)
    requires RoundedAt(n, x, e, q) && Grid(k, m, f)
    ensures Distance(n, x) <= Distance(n, k)
    ensures Distance(n, x) == Distance(n, k) && k != x ==> q % 2 == 0
  {
    hide RoundedAt;
    if f >= e {
      var g := Pow2Divides(e, f);
      assert m * (g * Pow2(e)) == (m * g) * Pow2(e);
      OnGridIsNoNearer(n, x, e, q, m * g);
    } else {
      FinerIsBelow(n, x, e, q, m, f);
      OnGridIsNoNearer(n, x, e, q, TOP / 2);
    }
  }

  lemma AtMost(m: int, top: int, p: nat)
    requires m <= top
    ensures m * p <= top * p
  {
    if m < top {
      FarApart(p, m, top);
    }
  }

  /** The numbers of a finer grid lie below the numbers that are rounded to this one. */
  lemma FinerIsBelow(n: nat, x: nat, e: nat, q: nat, m: int, f: nat)
    requires RoundedAt(n, x, e, q) && f < e && m <= TOP
    ensures m * Pow2(f) <= (TOP / 2) * Pow2(e) <= n
  {
    Pow2Grows(f, e);
    AtMost(m, TOP, Pow2(f));
    assert TOP * Pow2(f) == (TOP / 2) * (2 * Pow2(f));
  }

  lemma OnGridIsNoNearer(n: nat, x: nat, e: nat, q: nat, t: int)
    requires RoundedAt(n, x, e, q)
    ensures Distance(n, x) <= Distance(n, t * Pow2(e))
    ensures Distance(n, x) == Distance(n, t * Pow2(e)) && t * Pow2(e) != x ==> q % 2 == 0
  {
    var p := Pow2(e);
    if Distance(q * p, t * p) < p {
      MultiplesApart(p, q, t);
    }
  }

  // ----- the conversion -----

  lemma FloatOfIff(n: int, x: real)
    ensures FloatOf(n) == x <==> IsFloatOf(n, x)
  {
    hide RoundToFloat, Rounded;
    var size := Distance(n, 0);
    RoundToFloatRounds(size);
    if IsFloatOf(n, x) {
      var k: nat :| Rounded(size, k) && x == if n >= 0 then k as real else -(k as real);
      RoundedUnique(size, k, RoundToFloat(size));
    }
  }

  /** Up to 2^53 the conversion is exact. */
  lemma SmallIsExact(n: int, x: real)
    requires -TOP <= n <= TOP
    ensures IsFloatOf(n, x) <==> x == n as real
  {
    FloatOfIff(n, x);
    assert Round53(TOP, false) == TOP;
  }
}

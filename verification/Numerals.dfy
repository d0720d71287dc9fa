/** The texts that strconv.Atoi and strconv.Itoa turn into numbers and back. */
module Numerals {
  import opened Payload
  import opened Text

  function Zeros(k: nat): (r: string)
    ensures |r| == k && forall i :: 0 <= i < k ==> r[i] == '0'
  {
    seq(k, _ => '0')
  }

  /** s is the number n in decimal: a sign that n allows, any number of zeros, and the digits of n. */
  ghost predicate Numeral(s: string, sign: string, zeros: nat, n: int) {
    ((sign == "-" && n <= 0) || ((sign == "" || sign == "+") && n >= 0)) &&
    s == sign + (Zeros(zeros) + Itoa(if n < 0 then -n else n))
  }

  /** Digits are zeros followed by the number without leading zeros. */
  lemma {:induction false} DigitsAreItoa(d: string) returns (zeros: nat)
    requires AllDigits(d)
    ensures d == Zeros(zeros) + Itoa(DigitsValue(d))
  {
    var front, c := d[..|d| - 1], d[|d| - 1];
    assert d == front + [c] && IsDigit(c);
    if front == "" {
      zeros := 0;
      assert DigitsValue(front) == 0;
    } else {
      zeros := DigitsAreItoa(front);
      if DigitsValue(front) == 0 {
        zeros := zeros + 1;
        assert Zeros(zeros) == Zeros(zeros - 1) + Itoa(0);
      }
    }
  }

  lemma {:induction false} ZerosAreNothing(k: nat, d: string)
    requires AllDigits(d)
    ensures AllDigits(Zeros(k) + d) && DigitsValue(Zeros(k) + d) == DigitsValue(d)
    decreases d
  {
    var s := Zeros(k) + d;
    assert s[|s| - 1] == d[|d| - 1];
    assert forall i :: 0 <= i < |s| ==> IsDigit(s[i]);
    if |d| == 1 {
      assert s[..|s| - 1] == Zeros(k);
      ZerosAreZero(k);
      assert d[..0] == "";
    } else {
      assert s[..|s| - 1] == Zeros(k) + d[..|d| - 1];
      ZerosAreNothing(k, d[..|d| - 1]);
    }
  }

  lemma {:induction false} ZerosAreZero(k: nat)
    ensures DigitsValue(Zeros(k)) == 0
  {
    if k > 0 {
      assert Zeros(k)[..k - 1] == Zeros(k - 1);
      ZerosAreZero(k - 1);
    }
  }

  lemma NumeralRead(s: string, sign: string, zeros: nat, n: int)
    requires Numeral(s, sign, zeros, n)
    ensures Atoi(s) == if -MAX_INT - 1 <= n <= MAX_INT then Some(n) else None
  {
    hide DigitsValue, Itoa, Zeros;
    var size: nat := if n < 0 then -n else n;
    var digits := Zeros(zeros) + Itoa(size);
    ItoaDigits(size);
    ZerosAreNothing(zeros, Itoa(size));
    assert IsDigit(digits[0]);
    if sign == "" {
      assert s == digits;
    } else {
      assert s[0] == sign[0] && s[1..] == digits;
    }
  }

  lemma ReadNumeral(s: string)
    requires Atoi(s).Some?
    ensures exists sign, zeros :: Numeral(s, sign, zeros, Atoi(s).value)
  {
    hide DigitsValue, Itoa, Zeros;
    if s[0] == '+' || s[0] == '-' {
      var zeros := DigitsAreItoa(s[1..]);
      assert s == s[..1] + s[1..];
      assert Numeral(s, s[..1], zeros, Atoi(s).value);
    } else {
      var zeros := DigitsAreItoa(s);
      assert s == "" + s;
      assert Numeral(s, "", zeros, Atoi(s).value);
    }
  }

  /** Atoi reads exactly the decimal numerals of the numbers of 64 bits. */
  lemma AtoiIff(s: string, n: int)
    ensures Atoi(s) == Some(n) <==> -MAX_INT - 1 <= n <= MAX_INT && exists sign, zeros :: Numeral(s, sign, zeros, n)
  {
    hide DigitsValue, Numeral, IsDigit;
    if Atoi(s) == Some(n) {
      ReadNumeral(s);
    }
    if exists sign, zeros :: Numeral(s, sign, zeros, n) {
      var sign, zeros :| Numeral(s, sign, zeros, n);
      NumeralRead(s, sign, zeros, n);
    }
  }
}

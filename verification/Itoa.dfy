/** itoa: digits from the least significant end into a static buffer with room for 22. */
module Itoa {
  import opened Bits

  const DIGITS := 22

  function Power(b: nat, n: nat): (p: nat)
    ensures b > 0 ==> p > 0
  {
    if n == 0 then 1 else b * Power(b, n - 1)
  }

  function DigitChar(d: nat): char
    requires d < 16
  {
    "0123456789abcdef"[d]
  }

  function DigitValue(c: char): nat {
    if '0' <= c <= '9' then c as int - '0' as int
    else if 'a' <= c <= 'f' then c as int - 'a' as int + 10
    else 0
  }

  lemma DigitRoundTrip(d: nat)
    requires d < 16
    ensures DigitValue(DigitChar(d)) == d
  {
  }

  /** What a string denotes, read back in base `b`, most significant digit first. */
  function Value(s: string, b: nat): nat {
    if s == "" then 0 else DigitValue(s[0]) * Power(b, |s| - 1) + Value(s[1..], b)
  }

  /** One of the first `b` digits. */
  predicate IsDigit(c: char, b: nat)
    requires b <= 16
  {
    exists d: nat :: d < b && c == DigitChar(d)
  }

  predicate AreDigits(s: string, b: nat)
    requires b <= 16
  {
    forall i :: 0 <= i < |s| ==> IsDigit(s[i], b)
  }

  predicate DigitsBelow(s: string, b: nat) {
    forall i :: 0 <= i < |s| ==> DigitValue(s[i]) < b
  }

  lemma {:induction false} DigitsAreBelow(s: string, b: nat)
    requires b <= 16 && AreDigits(s, b)
    ensures DigitsBelow(s, b)
  {
    forall i | 0 <= i < |s|
      ensures DigitValue(s[i]) < b
    {
      assert IsDigit(s[i], b);
      var d: nat :| d < b && s[i] == DigitChar(d);
      DigitRoundTrip(d);
    }
  }

  /** A numeral of given length is determined by what it denotes. */
  lemma {:induction false} NumeralIsUnique(s: string, t: string, b: nat)
    requires 2 <= b <= 16 && AreDigits(s, b) && AreDigits(t, b) && |s| == |t| && Value(s, b) == Value(t, b)
    ensures s == t
    decreases |s|
  {
    if s != "" {
      DigitsAreBelow(s, b);
      DigitsAreBelow(t, b);
      ValueBound(s[1..], b);
      ValueBound(t[1..], b);
      DivModUnique(Value(s, b), Power(b, |s| - 1), DigitValue(s[0]), Value(s[1..], b));
      DivModUnique(Value(t, b), Power(b, |s| - 1), DigitValue(t[0]), Value(t[1..], b));
      SameDigit(s[0], t[0], b);
      NumeralIsUnique(s[1..], t[1..], b);
    }
  }

  lemma {:induction false} SameDigit(c: char, d: char, b: nat)
    requires b <= 16 && IsDigit(c, b) && IsDigit(d, b) && DigitValue(c) == DigitValue(d)
    ensures c == d
  {
    var m: nat :| m < b && c == DigitChar(m);
    var n: nat :| n < b && d == DigitChar(n);
    DigitRoundTrip(m);
    DigitRoundTrip(n);
  }

  lemma {:induction false} ValueBound(s: string, b: nat)
    requires DigitsBelow(s, b)
    ensures Value(s, b) < Power(b, |s|)
  {
    if s != "" {
      ValueBound(s[1..], b);
      var p := Power(b, |s| - 1);
      MulMono(DigitValue(s[0]) + 1, b, p);
      assert (DigitValue(s[0]) + 1) * p == DigitValue(s[0]) * p + p;
    }
  }

  lemma {:induction false} MulMono(x: nat, y: nat, p: nat)
    requires x <= y
    ensures x * p <= y * p
    decreases y
  {
    if x < y {
      MulMono(x, y - 1, p);
      assert y * p == (y - 1) * p + p;
    }
  }

  lemma {:induction false} RemainderOf(v: nat, low: nat, high: nat, p: nat)
    requires v == high * p + low && low < p
    ensures v % p == low
  {
    DivModUnique(v, p, high, low);
  }

  /** One more digit in front: what is written so far plus what is still to come is constant. */
  lemma {:induction false} DigitStep(s: string, c: char, b: nat, val: nat, rest: nat)
    requires b > 0 && val == rest * b + DigitValue(c)
    ensures Value([c] + s, b) + rest * Power(b, |s| + 1) == Value(s, b) + val * Power(b, |s|)
  {
    var t := [c] + s;
    assert t[1..] == s && t[0] == c && |t| - 1 == |s|;
    StepArithmetic(DigitValue(c), rest, b, Power(b, |s|), val);
  }

  lemma {:induction false} StepArithmetic(d: nat, rest: nat, b: nat, p: nat, val: nat)
    requires val == rest * b + d
    ensures d * p + rest * (b * p) == val * p
  {
    Distribute(rest, b, d, p);
  }

  lemma Distribute(q: nat, b: nat, r: nat, p: nat)
    ensures r * p + q * (b * p) == (q * b + r) * p
  {
  }

  class Converter {
    const buf: array<char>   // static, 64 characters, all NUL at first

    constructor ()
      ensures Valid() && fresh(buf)
    {
      buf := new char[64](_ => '\0');
    }

    ghost predicate Valid()
      reads buf
    {
      buf.Length == 64 && buf[DIGITS + 1] == '\0'
    }

    /** The string that starts at the returned position ends at the NUL after the last digit. */
    method Itoa(val: U64, base: nat) returns (s: string)
      requires Valid() && base >= 2
      modifies buf
      ensures Valid()
      ensures var b := if base > 16 then 16 else base;
              AreDigits(s, b) && 1 <= |s| <= DIGITS &&
              Value(s, b) == val % Power(b, DIGITS) &&
              (val >= Power(b, DIGITS) ==> |s| == DIGITS) &&
              (|s| < DIGITS && val != 0 ==> s[0] != '0') &&
              (val == 0 ==> s == "0")
    {
      var b := if base > 16 then 16 else base;
      if val == 0 {
        RemainderOf(0, 0, 0, Power(b, DIGITS));
        ZeroNumeral(b);
        return "0";
      }
      var i := DIGITS;
      var v: nat := val;
      while v != 0 && i != 0
        invariant 0 <= i <= DIGITS && Valid()
        invariant Pending(buf[i + 1..DIGITS + 1], v, b, val)
        decreases i
      {
        ghost var written := buf[i + 1..DIGITS + 1];
        buf[i], v := NextDigit(written, b, v, val);
        assert buf[i..DIGITS + 1] == [buf[i]] + written;
        i := i - 1;
      }
      s := buf[i + 1..DIGITS + 1];
      Result(s, val, v, b);
    }
  }

  lemma {:induction false} ZeroNumeral(b: nat)
    requires 2 <= b <= 16
    ensures AreDigits("0", b) && Value("0", b) == 0
  {
    var zero: string := "0123456789abcdef";
    assert zero[0] == '0' && DigitChar(0) == zero[0];
    assert IsDigit('0', b);
    assert "0"[1..] == "" && Value("", b) == 0 && DigitValue('0') == 0;
  }

  /** The digits written so far and the value `v` still to be written denote `val` together; the
      last digit written is no zero once nothing is left. */
  ghost predicate Pending(s: string, v: nat, b: nat, val: nat) {
    && b <= 16 && AreDigits(s, b) && Value(s, b) + v * Power(b, |s|) == val
    && (s == "" ==> v == val) && (s != "" && v == 0 ==> s[0] != '0')
  }

  /** One round of the loop: the last digit of `v`, and what is left of it. */
  method NextDigit(ghost written: string, b: nat, v: nat, ghost val: nat) returns (digit: char, rest: nat)
    requires 2 <= b <= 16 && v != 0 && Pending(written, v, b, val)
    ensures digit == DigitChar(v % b) && rest == v / b
    ensures Pending([digit] + written, rest, b, val)
  {
    QuotientFacts(v, b);
    DigitRoundTrip(v % b);
    digit, rest := "0123456789abcdef"[v % b], v / b;
    assert IsDigit(digit, b);
    DigitStep(written, digit, b, v, rest);
  }

  lemma QuotientFacts(v: nat, b: nat)
    requires b >= 2
    ensures 0 <= v % b < b && v / b >= 0 && v == (v / b) * b + v % b
    ensures v / b == 0 ==> v % b == v
  {
  }

  /** The loop ended with no value left or no room left; either way what was written is the
      remainder. */
  lemma {:induction false} Result(s: string, val: nat, v: nat, b: nat)
    requires 2 <= b && |s| <= DIGITS && Pending(s, v, b, val) && (v == 0 || |s| == DIGITS)
    ensures Value(s, b) == val % Power(b, DIGITS)
    ensures val >= Power(b, DIGITS) ==> |s| == DIGITS
    ensures v != 0 ==> |s| == DIGITS
  {
    DigitsAreBelow(s, b);
    ValueBound(s, b);
    PowerMono(b, |s|, DIGITS);
    assert v == 0 ==> v * Power(b, |s|) == 0 == v * Power(b, DIGITS);
    RemainderOf(val, Value(s, b), v, Power(b, DIGITS));
  }

  lemma {:induction false} PowerMono(b: nat, m: nat, n: nat)
    requires b > 0 && m <= n
    ensures Power(b, m) <= Power(b, n)
    decreases n
  {
    if m < n {
      PowerMono(b, m, n - 1);
      MulMono(1, b, Power(b, n - 1));
    }
  }

  lemma {:induction false} PowerMonoBase(b: nat, c: nat, n: nat)
    requires b <= c
    ensures Power(b, n) <= Power(c, n)
  {
    if n > 0 {
      PowerMonoBase(b, c, n - 1);
      MulMono(b, c, Power(b, n - 1));
      MulMono(Power(b, n - 1), Power(c, n - 1), c);
    }
  }

  /** A value survives the trip through 22 digits exactly when it is below b^22; every 64-bit
      value does exactly from base 8 on. */
  lemma {:induction false} LosslessExactly(b: nat)
    requires 2 <= b <= 16
    ensures forall v: U64 :: v % Power(b, DIGITS) == v <==> v < Power(b, DIGITS)
    ensures (forall v: U64 :: v % Power(b, DIGITS) == v) <==> b >= 8
  {
    forall v: U64
      ensures v % Power(b, DIGITS) == v <==> v < Power(b, DIGITS)
    {
      SmallRemainder(v, Power(b, DIGITS));
    }
    TwentyTwoDigits(b);
    if b < 8 {
      var lost: U64 := Power(b, DIGITS);
      assert lost % Power(b, DIGITS) == lost <==> lost < Power(b, DIGITS);
    }
  }

  lemma {:induction false} SmallRemainder(v: nat, p: nat)
    requires p > 0
    ensures v % p == v <==> v < p
  {
    if v < p {
      DivModUnique(v, p, 0, v);
    }
  }

  lemma {:induction false} TwentyTwoDigits(b: nat)
    requires 2 <= b <= 16
    ensures if b >= 8 then Power(b, DIGITS) >= TWO64 else Power(b, DIGITS) < TWO64
  {
    assert Power(8, 11) == 0x2_0000_0000 && Power(7, 11) == 1977326743;
    assert Power(8, 22) == 0x4_0000_0000_0000_0000;
    assert Power(7, 22) == 3909821048582988049;
    if b >= 8 {
      PowerMonoBase(8, b, DIGITS);
    } else {
      PowerMonoBase(b, 7, DIGITS);
    }
  }
}

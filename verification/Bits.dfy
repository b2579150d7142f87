/** Bitwise operators on natural numbers, defined bit by bit, and the few laws the
    page-table macros rest on. */
module Bits {

  const TWO64 := 0x1_0000_0000_0000_0000

  type Byte = x: int | 0 <= x < 256

  type U64 = x: int | 0 <= x < TWO64

  /** One past the largest frame number a 52-bit physical address can name. */
  const MAX_FRAMES := 0x100_0000_0000

  /** Unsigned 64-bit wrap-around. */
  function Wrap(x: int): U64 { x % TWO64 }

  /** Unsigned 64-bit addition and subtraction. */
  function AddU64(a: U64, b: U64): U64 { if a + b < TWO64 then a + b else a + b - TWO64 }

  function SubU64(a: U64, b: U64): U64 { if a >= b then a - b else a - b + TWO64 }

  lemma {:induction false} WrapsAround(a: U64, b: U64)
    ensures AddU64(a, b) == (a + b) % TWO64 && SubU64(a, b) == (a - b) % TWO64
  {
    if a < b {
      assert (a - b) % TWO64 == a - b + TWO64;
    }
  }

  /** How often an addition, or a subtraction, wraps. */
  function Carry(a: U64, b: U64): int { if a + b < TWO64 then 0 else 1 }

  function Borrow(a: U64, b: U64): int { if a >= b then 0 else 1 }

  function Pow2(k: nat): (p: nat)
    ensures p > 0
  {
    if k == 0 then 1 else 2 * Pow2(k - 1)
  }

  function BitAnd(a: nat, b: nat): nat
    decreases a
  {
    if a == 0 || b == 0 then 0
    else (if a % 2 == 1 && b % 2 == 1 then 1 else 0) + 2 * BitAnd(a / 2, b / 2)
  }

  function BitOr(a: nat, b: nat): nat
    decreases a
  {
    if a == 0 then b
    else if b == 0 then a
    else (if a % 2 == 1 || b % 2 == 1 then 1 else 0) + 2 * BitOr(a / 2, b / 2)
  }

  lemma {:induction false} AndOverOr(a: nat, b: nat, m: nat)
    ensures BitAnd(BitOr(a, b), m) == BitOr(BitAnd(a, m), BitAnd(b, m))
    decreases a
  {
    if a != 0 && b != 0 && m != 0 {
      var o := BitOr(a, b);
      assert o / 2 == BitOr(a / 2, b / 2);
      assert o % 2 == (if a % 2 == 1 || b % 2 == 1 then 1 else 0);
      AndOverOr(a / 2, b / 2, m / 2);
      HalfAnd(a, m);
      HalfAnd(b, m);
      HalfAnd(o, m);
      HalfOr(BitAnd(a, m), BitAnd(b, m));
      SameHalves(BitAnd(o, m), BitOr(BitAnd(a, m), BitAnd(b, m)));
    }
  }

  lemma HalfAnd(a: nat, b: nat)
    ensures BitAnd(a, b) / 2 == BitAnd(a / 2, b / 2)
    ensures BitAnd(a, b) % 2 == if a % 2 == 1 && b % 2 == 1 then 1 else 0
  {
  }

  lemma HalfOr(a: nat, b: nat)
    ensures BitOr(a, b) / 2 == BitOr(a / 2, b / 2)
    ensures BitOr(a, b) % 2 == if a % 2 == 1 || b % 2 == 1 then 1 else 0
  {
  }

  lemma SameHalves(a: nat, b: nat)
    requires a / 2 == b / 2 && a % 2 == b % 2
    ensures a == b
  {
  }

  /** Or-ing stays below any power of two both operands are below. */
  lemma {:induction false} OrBound(a: nat, b: nat, k: nat)
    requires a < Pow2(k) && b < Pow2(k)
    ensures BitOr(a, b) < Pow2(k)
    decreases k
  {
    if k != 0 {
      OrBound(a / 2, b / 2, k - 1);
      HalfOr(a, b);
    }
  }

  /** A mask of k ones keeps the low k bits. */
  lemma {:induction false} AndOnes(a: nat, k: nat)
    ensures BitAnd(a, Pow2(k) - 1) == a % Pow2(k)
    decreases k
  {
    if k != 0 {
      var p := Pow2(k - 1);
      AndOnes(a / 2, k - 1);
      HalfAnd(a, 2 * p - 1);
      assert (2 * p - 1) / 2 == p - 1;
      ModHalf(a, p);
    }
  }

  lemma {:induction false} ModHalf(a: nat, p: nat)
    requires p > 0
    ensures a % (2 * p) == 2 * (a / 2 % p) + a % 2
  {
    var h := a / 2;
    var q := h / p;
    assert h == q * p + h % p;
    assert a == q * (2 * p) + (2 * (h % p) + a % 2);
    DivModUnique(a, 2 * p, q, 2 * (h % p) + a % 2);
  }

  lemma {:induction false} MulOrder(x: int, d: nat)
    requires x >= 1
    ensures x * d >= d
  {
    assert x * d == (x - 1) * d + d;
    assert (x - 1) * d >= 0;
  }

  lemma {:induction false} DivModUnique(a: nat, d: nat, q: nat, r: nat)
    requires a == q * d + r && r < d
    ensures a / d == q && a % d == r
  {
    var q', r' := a / d, a % d;
    assert a == q' * d + r';
    assert (q - q') * d == q * d - q' * d;
    if q > q' {
      MulOrder(q - q', d);
    } else if q < q' {
      MulOrder(q' - q, d);
    }
  }

  /** `m << k` */
  function Shl(m: nat, k: nat): nat {
    if k == 0 then m else 2 * Shl(m, k - 1)
  }

  /** `a >> k` */
  function Shr(a: nat, k: nat): nat {
    if k == 0 then a else Shr(a / 2, k - 1)
  }

  /** Trailing zeros of a mask shift through the conjunction. */
  lemma {:induction false} AndShifted(a: nat, m: nat, k: nat)
    ensures BitAnd(a, Shl(m, k)) == Shl(BitAnd(Shr(a, k), m), k)
    decreases k
  {
    if k != 0 {
      HalfAnd(a, Shl(m, k));
      AndShifted(a / 2, m, k - 1);
    }
  }

  lemma {:induction false} DivTwice(a: nat, p: nat)
    requires p > 0
    ensures a / (2 * p) == a / 2 / p
  {
    var h := a / 2;
    var q := h / p;
    assert h == q * p + h % p;
    assert a == q * (2 * p) + (2 * (h % p) + a % 2);
    DivModUnique(a, 2 * p, q, 2 * (h % p) + a % 2);
  }

  lemma {:induction false} ShrDiv(a: nat, k: nat)
    ensures Shr(a, k) == a / Pow2(k)
    decreases k
  {
    if k != 0 {
      ShrDiv(a / 2, k - 1);
      DivTwice(a, Pow2(k - 1));
    }
  }

  lemma {:induction false} ShlMul(m: nat, k: nat)
    ensures Shl(m, k) == m * Pow2(k)
    decreases k
  {
    if k != 0 {
      ShlMul(m, k - 1);
      assert m * Pow2(k) == 2 * (m * Pow2(k - 1));
    }
  }

  /** A mask of n ones, k bits up, selects a bit field in place. */
  lemma {:induction false} AndField(a: nat, k: nat, n: nat, mask: nat)
    requires mask == (Pow2(n) - 1) * Pow2(k)
    ensures BitAnd(a, mask) == a / Pow2(k) % Pow2(n) * Pow2(k)
  {
    ShlMul(Pow2(n) - 1, k);
    AndShifted(a, Pow2(n) - 1, k);
    ShrDiv(a, k);
    AndOnes(a / Pow2(k), n);
    ShlMul(a / Pow2(k) % Pow2(n), k);
  }

  lemma Powers()
    ensures Pow2(7) == 128 && Pow2(9) == 512 && Pow2(12) == 0x1000
    ensures Pow2(21) == 0x20_0000 && Pow2(30) == 0x4000_0000 && Pow2(39) == 0x80_0000_0000
    ensures Pow2(40) == 0x100_0000_0000 && Pow2(52) == 0x10_0000_0000_0000 && Pow2(64) == TWO64
  {
  }

  lemma {:induction false} AndOne(a: nat)
    ensures BitAnd(a, 1) == a % 2
  {
    HalfAnd(a, 1);
    assert BitAnd(a / 2, 0) == 0;
  }
}

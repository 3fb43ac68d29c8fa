/** The JavaScript operators: operands are cut to signed 32 bits first. */
module Int32 {
  import opened Powers

  const MODULUS := 0x1_0000_0000

  function ToInt32(x: int): (r: int)
    ensures -0x8000_0000 <= r < 0x8000_0000
  {
    var m := x % MODULUS;
    if m < 0x8000_0000 then m else m - MODULUS
  }

  function Bit(x: int): int { x % 2 }

  function OrBits(a: int, b: int, n: nat): nat
    decreases n, a
  {
    if n == 0 then 0
    else (if Bit(a) == 1 || Bit(b) == 1 then 1 else 0) + 2 * OrBits(a / 2, b / 2, n - 1)
  }

  function AndBits(a: int, b: int, n: nat): nat
    decreases n, a
  {
    if n == 0 then 0
    else (if Bit(a) == 1 && Bit(b) == 1 then 1 else 0) + 2 * AndBits(a / 2, b / 2, n - 1)
  }

  function Or(a: int, b: int): int { ToInt32(OrBits(ToInt32(a), ToInt32(b), 32)) }

  function And(a: int, b: int): int { ToInt32(AndBits(ToInt32(a), ToInt32(b), 32)) }

  // Shifts, one bit at a time; the right shift keeps the sign.
  function Shl(a: int, k: nat): int
    decreases k, a
  {
    if k == 0 then ToInt32(a) else ToInt32(2 * Shl(a, k - 1))
  }

  function Shr(a: int, k: nat): int
    decreases k, a
  {
    if k == 0 then ToInt32(a) else Shr(a, k - 1) / 2
  }

  lemma {:induction false} ShlIs(a: int, k: nat)
    ensures Shl(a, k) == ToInt32(a * Pow2(k))
    decreases k
  {
    if k > 0 {
      ShlIs(a, k - 1);
      DoubleWraps(a * Pow2(k - 1));
      ScaleDouble(a, Pow2(k - 1));
    }
  }

  lemma ScaleDouble(a: int, p: int)
    ensures a * (2 * p) == 2 * (a * p)
  {
  }

  lemma DoubleWraps(y: int)
    ensures ToInt32(2 * ToInt32(y)) == ToInt32(2 * y)
  {
    var m := Wraps(y);
    SameLowBits(2 * ToInt32(y), 2 * y, 2 * m);
  }

  lemma {:induction false} ShrIs(a: int, k: nat)
    ensures Shr(a, k) == ToInt32(a) / Pow2(k)
    decreases k
  {
    if k > 0 {
      ShrIs(a, k - 1);
      DivDiv(ToInt32(a), Pow2(k - 1), 2);
    }
  }

  // The signed view of x differs from x by a multiple of 2^32.
  lemma Wraps(x: int) returns (k: int)
    ensures ToInt32(x) == x + k * MODULUS
  {
    k := -(x / MODULUS) - (if x % MODULUS < 0x8000_0000 then 0 else 1);
  }

  lemma SameLowBits(x: int, y: int, k: int)
    requires x == y + k * MODULUS
    ensures ToInt32(x) == ToInt32(y)
  {
    AddMultiple(y, k, MODULUS);
  }

  lemma ModSplit(x: int, n: nat)
    requires n > 0
    ensures x % Pow2(n) == x % 2 + 2 * ((x / 2) % Pow2(n - 1))
  {
    var h, p := x / 2, Pow2(n - 1);
    var q, r := h / p, h % p;
    assert h == q * p + r;
    assert x == q * (2 * p) + (2 * r + x % 2) by { assert 2 * (q * p) == q * (2 * p); }
    DivModUnique(x, 2 * p, q, 2 * r + x % 2);
  }

  lemma {:induction false} OrZero(a: int, n: nat)
    ensures OrBits(a, 0, n) == a % Pow2(n)
    decreases n, a
  {
    if n > 0 { OrZero(a / 2, n - 1); ModSplit(a, n); }
  }

  lemma {:induction false} AndZero(a: int, n: nat)
    ensures AndBits(a, 0, n) == 0
    decreases n, a
  {
    if n > 0 { AndZero(a / 2, n - 1); }
  }

  // Or of numbers with no common bits is their sum.
  lemma {:induction false} OrAdds(a: int, b: int, k: nat, n: nat)
    requires a % Pow2(k) == 0 && 0 <= b < Pow2(k) && k <= n
    ensures OrBits(a, b, n) == (a + b) % Pow2(n)
    decreases n, a
  {
    if k == 0 {
      OrZero(a, n);
    } else {
      ModSplit(a, k);
      OrAdds(a / 2, b / 2, k - 1, n - 1);
      assert (a + b) / 2 == a / 2 + b / 2;
      ModSplit(a + b, n);
    }
  }

  // And with the mask 2^t - 1 keeps the low t bits.
  lemma {:induction false} AndMasks(a: int, mask: int, t: nat, n: nat)
    requires t <= n && mask == Pow2(t) - 1
    ensures AndBits(a, mask, n) == a % Pow2(t)
    decreases n
  {
    if t == 0 {
      AndZero(a, n);
    } else {
      assert mask / 2 == Pow2(t - 1) - 1 && mask % 2 == 1;
      AndMasks(a / 2, mask / 2, t - 1, n - 1);
      ModSplit(a, t);
    }
  }

  lemma ByteRange(t: nat)
    requires t <= 8
    ensures 1 <= Pow2(t) <= 256
  {
    Pow2Monotone(t, 8);
    Pow2Add(4, 4);
    assert Pow2(4) == 16;
  }

  // 2^32 cut at bit b and bit b + t.
  lemma SplitModulus(b: nat, t: nat)
    requires b + t <= 32
    ensures MODULUS == Pow2(b) * Pow2(t) * Pow2(32 - b - t)
  {
    Pow2Add(b, t);
    Pow2Add(b + t, 32 - b - t);
    Pow2Of32(32);
  }

  lemma Pow2Of32(n: nat)
    requires n == 32
    ensures Pow2(n) == MODULUS
  {
    var byte := 8;
    assert Pow2(byte) == 256;
    Pow2Add(byte, byte);
    assert Pow2(byte + byte) == 65536;
    Pow2Add(byte + byte, byte + byte);
  }

  lemma Idempotent(x: int)
    ensures ToInt32(ToInt32(x)) == ToInt32(x)
  {
  }

  lemma Small(x: int)
    requires 0 <= x < 0x8000_0000
    ensures ToInt32(x) == x
  {
  }

  lemma MaskIs(t: nat)
    requires t <= 8
    ensures Shl(1, t) == Pow2(t)
  {
    ByteRange(t);
    ShlIs(1, t);
    Small(Pow2(t));
  }

  // Masking reads the true low bits of x even through the signed view.
  lemma MaskedBits(x: int, b: nat, t: nat)
    requires t <= 8 && b + t <= 32
    ensures And(Shr(ToInt32(x), b), Shl(1, t) - 1) == (x / Pow2(b)) % Pow2(t)
  {
    MaskIs(t);
    ShiftedValue(x, b);
    SignedLowBits(x, b, t);
    AndWithMask(Shr(ToInt32(x), b), t);
  }

  lemma ShiftedValue(x: int, b: nat)
    ensures var y := Shr(ToInt32(x), b); y == ToInt32(x) / Pow2(b) && ToInt32(y) == y
  {
    Idempotent(x);
    ShrIs(ToInt32(x), b);
    ShrinksInRange(ToInt32(x), b);
  }

  // A signed 32-bit value stays one when divided.
  lemma ShrinksInRange(a: int, k: nat)
    requires -0x8000_0000 <= a < 0x8000_0000
    ensures ToInt32(a) == a && ToInt32(a / Pow2(k)) == a / Pow2(k)
  {
    DivShrinks(a, Pow2(k));
  }

  lemma AndWithMask(y: int, t: nat)
    requires t <= 8 && ToInt32(y) == y
    ensures And(y, Pow2(t) - 1) == y % Pow2(t)
  {
    AndMasks(y, Pow2(t) - 1, t, 32);
    ByteRange(t);
    Small(Pow2(t) - 1);
    Small(y % Pow2(t));
  }

  lemma SignedLowBits(x: int, b: nat, t: nat)
    requires b + t <= 32
    ensures (ToInt32(x) / Pow2(b)) % Pow2(t) == (x / Pow2(b)) % Pow2(t)
  {
    var k := Wraps(x);
    SplitModulus(b, t);
    HighMultiplesVanish(x, k, Pow2(b), Pow2(t), Pow2(32 - b - t), MODULUS);
  }

  lemma HighMultiplesVanish(x: int, k: int, pb: int, pt: int, rest: int, m: int)
    requires pb > 0 && pt > 0 && m == pb * pt * rest
    ensures ((x + k * m) / pb) % pt == (x / pb) % pt
  {
    var h := k * rest;
    assert k * m == h * pt * pb by { Reassociate(k, pb, pt, rest); }
    AddMultiple(x, h * pt, pb);
    AddMultiple(x / pb, h, pt);
  }

  lemma Reassociate(k: int, pb: int, pt: int, rest: int)
    ensures k * (pb * pt * rest) == k * rest * pt * pb
  {
    assert k * (pb * pt * rest) == k * rest * (pb * pt);
  }

  // One accumulator step on the wrapped value is the wrapped unbounded step.
  lemma AccumulatorStep(a: int, f: nat, v: int)
    requires f <= 8 && 0 <= ToInt32(v) < Pow2(f)
    ensures Or(Shl(ToInt32(a), f), v) == ToInt32(a * Pow2(f) + ToInt32(v))
  {
    ShiftAgrees(a, f);
    OrOntoAligned(a * Pow2(f), f, v, a);
  }

  lemma OrOntoAligned(y: int, f: nat, v: int, a: int)
    requires f <= 8 && 0 <= ToInt32(v) < Pow2(f) && y == a * Pow2(f)
    ensures Or(ToInt32(y), v) == ToInt32(y + ToInt32(v))
  {
    Idempotent(y);
    SignedIsAligned(y, f, a);
    OrAddsModulo(ToInt32(y), ToInt32(v), f);
    AddWraps(y, ToInt32(v));
  }

  lemma OrAddsModulo(a: int, b: int, k: nat)
    requires a % Pow2(k) == 0 && 0 <= b < Pow2(k) && k <= 32
    ensures OrBits(a, b, 32) == (a + b) % MODULUS
  {
    OrAdds(a, b, k, 32);
    Pow2Of32(32);
  }

  lemma SignedIsAligned(y: int, f: nat, a: int)
    requires f <= 8 && y == a * Pow2(f)
    ensures ToInt32(y) % Pow2(f) == 0
  {
    SignedLowBits(y, 0, f);
    assert Pow2(0) == 1;
    MulDiv(a, Pow2(f));
  }

  lemma AddWraps(y: int, v: int)
    ensures ToInt32((ToInt32(y) + v) % MODULUS) == ToInt32(y + v)
  {
    var k := Wraps(y);
    SameLowBits(ToInt32(y) + v, y + v, k);
  }

  lemma ShiftAgrees(a: int, f: nat)
    ensures Shl(ToInt32(a), f) == ToInt32(a * Pow2(f))
  {
    ShlIs(ToInt32(a), f);
    var k := Wraps(a);
    ScaleWrap(a, k, Pow2(f));
    SameLowBits(ToInt32(a) * Pow2(f), a * Pow2(f), k * Pow2(f));
  }

  lemma ScaleWrap(a: int, k: int, p: int)
    ensures (a + k * MODULUS) * p == a * p + (k * p) * MODULUS
  {
    assert (k * MODULUS) * p == (k * p) * MODULUS;
  }
}

/** Powers of two and the few facts about division the bit code needs. */
module Powers {

  function Pow2(n: nat): (r: nat)
    ensures r >= 1
  {
    if n == 0 then 1 else 2 * Pow2(n - 1)
  }

  function Pow10(n: nat): (r: nat)
    ensures r >= 1
  {
    if n == 0 then 1 else 10 * Pow10(n - 1)
  }

  lemma {:induction false} Pow2Add(a: nat, b: nat)
    ensures Pow2(a + b) == Pow2(a) * Pow2(b)
  {
    if a != 0 {
      Pow2Add(a - 1, b);
      Double(Pow2(a - 1), Pow2(b));
    }
  }

  lemma Pow2Sum(k: nat, a: nat, b: nat)
    requires k == a + b
    ensures Pow2(k) == Pow2(a) * Pow2(b)
  {
    Pow2Add(a, b);
  }

  lemma Double(x: int, y: int)
    ensures (2 * x) * y == 2 * (x * y)
  {
  }

  lemma Pow2Monotone(a: nat, b: nat)
    requires a <= b
    ensures Pow2(a) <= Pow2(b)
    decreases b
  {
    if a < b { Pow2Monotone(a, b - 1); }
  }

  lemma MulNonNegative(a: int, b: int)
    requires a >= 0 && b >= 0
    ensures a * b >= 0
  {
  }

  lemma MultipleIsFar(k: int, d: int)
    requires d > 0
    ensures k >= 1 ==> k * d >= d
    ensures k <= -1 ==> k * d <= -d
  {
    if k >= 1 {
      MulNonNegative(k - 1, d);
      assert k * d == (k - 1) * d + d;
    } else if k <= -1 {
      MulNonNegative(-k - 1, d);
      assert k * d == -((-k - 1) * d) - d;
    }
  }

  lemma DivMod(x: int, d: int)
    requires d > 0
    ensures x == x / d * d + x % d
  {
  }

  // q and r are the quotient and remainder of x by d.
  lemma DivModUnique(x: int, d: int, q: int, r: int)
    requires d > 0 && x == q * d + r && 0 <= r < d
    ensures x / d == q && x % d == r
  {
    var q', r' := x / d, x % d;
    assert x == q' * d + r';
    assert (q - q') * d == q * d - q' * d;
    MultipleIsFar(q - q', d);
  }

  lemma DivDiv(x: int, a: int, b: int)
    requires a > 0 && b > 0
    ensures a * b > 0 && x / a / b == x / (a * b)
  {
    var y, r := x / a, x % a;
    var q, s := y / b, y % b;
    assert x == y * a + r;
    assert y == q * b + s;
    Regrouped(x, a, b, y, r, q, s);
    MulNonNegative(s, a);
    MulNonNegative(b - 1 - s, a);
    assert s * a + (b - 1 - s) * a == b * a - a;
    DivModUnique(x, a * b, q, s * a + r);
  }

  lemma Regrouped(x: int, a: int, b: int, y: int, r: int, q: int, s: int)
    requires x == y * a + r && y == q * b + s
    ensures x == q * (a * b) + (s * a + r)
  {
    assert (q * b + s) * a == q * b * a + s * a;
    assert q * b * a == q * (a * b);
  }

  // Adding a multiple of the divisor shifts the quotient only.
  lemma AddMultiple(x: int, k: int, d: int)
    requires d > 0
    ensures (x + k * d) / d == x / d + k && (x + k * d) % d == x % d
  {
    assert x + k * d == (x / d + k) * d + x % d by {
      assert (x / d + k) * d == x / d * d + k * d;
    }
    DivModUnique(x + k * d, d, x / d + k, x % d);
  }

  lemma DivShrinks(a: int, p: int)
    requires p >= 1
    ensures a >= 0 ==> 0 <= a / p <= a
    ensures a < 0 ==> a <= a / p < 0
  {
    var q := a / p;
    assert a == q * p + a % p;
    if q >= 0 {
      MulNonNegative(q, p - 1);
    } else {
      MulNonNegative(-q - 1, p - 1);
    }
    assert q * (p - 1) == q * p - q;
    assert (-q - 1) * (p - 1) == -(q * p) + q - p + 1;
  }

  lemma MulDiv(x: int, d: int)
    requires d > 0
    ensures (x * d) / d == x && (x * d) % d == 0
  {
    DivModUnique(x * d, d, x, 0);
  }

  // Appending low digits below the cut does not change what is above it.
  lemma DivScaled(x: int, v: int, q: int, p: int)
    requires q > 0 && 0 <= v < p
    ensures q * p > 0 && (x * p + v) / (q * p) == x / q
  {
    AddMultiple(v, x, p);
    DivModUnique(x * p + v, p, x, v);
    DivDiv(x * p + v, p, q);
    assert p * q == q * p;
  }

  // Repeated addition: keeps counting arguments linear.
  function Times(n: nat, w: nat): nat {
    if n == 0 then 0 else Times(n - 1, w) + w
  }

  lemma {:induction false} TimesIsProduct(n: nat, w: nat)
    ensures Times(n, w) == n * w
  {
    if n > 0 {
      TimesIsProduct(n - 1, w);
      assert n * w == (n - 1) * w + w;
    }
  }
}

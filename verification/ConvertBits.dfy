/** initia-fe/src/lib/bech32.ts: `convertBits`, the bit regrouping of BIP-173
    ("Segwit address format"), run on JavaScript's 32-bit operators. */
module ConvertBits {
  import opened Common
  import opened Powers
  import opened Int32
  import opened BitStrings

  ghost predicate Width(w: nat) { 1 <= w <= 8 }

  // The per-value test of the loop: negative, or bits left after the shift.
  predicate Fits(v: int, f: nat) { v >= 0 && Shr(v, f) == 0 }

  ghost predicate AllFit(data: seq<int>, f: nat) {
    forall i :: 0 <= i < |data| ==> Fits(data[i], f)
  }

  // What the 32-bit operators see of each value.
  function Lows(data: seq<int>): (r: seq<int>)
    ensures |r| == |data|
  {
    seq(|data|, i requires 0 <= i < |data| => ToInt32(data[i]))
  }

  // ------------------------------------------- the unbounded specification

  /** The words of width f form one unbounded bit string; it is cut into words
      of width t, with the leftover bits padded out or required to be zero. */
  function Regroup(words: seq<int>, f: nat, t: nat, pad: bool): Option<seq<int>>
    requires t > 0
  {
    var a, total := Val(words, f), |words| * f;
    var rem := total % t;
    var body := ToBase(a / Pow2(rem), total / t, t);
    if pad then
      Some(if rem > 0 then body + [(a % Pow2(rem)) * Pow2(t - rem)] else body)
    else if rem >= f || a % Pow2(rem) != 0 then None
    else Some(body)
  }

  // --------------------------------------------------------------- the code

  method Convert(data: seq<int>, fromBits: nat, toBits: nat, pad: bool) returns (r: Option<seq<int>>)
    requires Width(fromBits) && Width(toBits)
    ensures r == if AllFit(data, fromBits) then Regroup(Lows(data), fromBits, toBits, pad) else None
  {
    var acc, bits := 0, 0;
    var result: seq<int> := [];
    var maxv := Shl(1, toBits) - 1;
    ghost var a := 0;
    for i := 0 to |data|
      invariant AllFit(data[..i], fromBits)
      invariant a == Val(Lows(data[..i]), fromBits) && acc == ToInt32(a)
      invariant 0 <= bits < toBits && Times(|result|, toBits) + bits == Times(i, fromBits)
      invariant result == ToBase(Cut(a, bits), |result|, toBits)
    {
      var value := data[i];
      if value < 0 || Shr(value, fromBits) != 0 { return None; }
      a := StepIn(data, i, fromBits, a, bits);
      acc := Or(Shl(acc, fromBits), value);
      bits := bits + fromBits;
      bits, result := Drain(acc, bits, result, toBits, maxv, a, Times(i + 1, fromBits));
    }
    assert data[..|data|] == data;
    Finish(data, a, bits, result, fromBits, toBits);
    if pad {
      if bits > 0 { result := result + [And(Shl(acc, toBits - bits), maxv)]; }
    } else if bits >= fromBits || And(Shl(acc, toBits - bits), maxv) != 0 {
      return None;
    }
    r := Some(result);
  }

  // The inner loop of `convertBits`: emit words while enough bits are held.
  method Drain(acc: int, held: nat, emitted: seq<int>, toBits: nat, maxv: int, ghost a: int, ghost total: nat)
    returns (bits: nat, result: seq<int>)
    requires 1 <= toBits <= 8 && held <= 15 && maxv == Shl(1, toBits) - 1 && acc == ToInt32(a)
    requires Times(|emitted|, toBits) + held == total
    requires emitted == ToBase(Cut(a, held), |emitted|, toBits)
    ensures bits < toBits && Times(|result|, toBits) + bits == total
    ensures result == ToBase(Cut(a, bits), |result|, toBits)
  {
    bits, result := held, emitted;
    while bits >= toBits
      invariant bits <= 15 && Times(|result|, toBits) + bits == total
      invariant result == ToBase(Cut(a, bits), |result|, toBits)
    {
      bits := bits - toBits;
      EmitStep(a, bits, |result|, toBits);
      result := result + [And(Shr(acc, bits), maxv)];
    }
  }

  // The accumulated bits above the lowest `bits`.
  ghost function Cut(a: int, bits: nat): int
    decreases bits
  {
    if bits == 0 then a else Cut(a, bits - 1) / 2
  }

  lemma {:induction false} CutIs(a: int, bits: nat)
    ensures Cut(a, bits) == a / Pow2(bits)
    decreases bits
  {
    if bits > 0 {
      CutIs(a, bits - 1);
      DivDiv(a, Pow2(bits - 1), 2);
    }
  }

  // Shifting one more value in, on the wrapped and on the unbounded accumulator.
  lemma StepIn(data: seq<int>, i: nat, f: nat, a: int, bits: nat) returns (a': int)
    requires i < |data| && f <= 8 && Fits(data[i], f) && a == Val(Lows(data[..i]), f)
    requires AllFit(data[..i], f)
    ensures AllFit(data[..i + 1], f)
    ensures a' == Val(Lows(data[..i + 1]), f)
    ensures Or(Shl(ToInt32(a), f), data[i]) == ToInt32(a')
    ensures Cut(a', bits + f) == Cut(a, bits)
  {
    a' := a * Pow2(f) + ToInt32(data[i]);
    assert data[..i + 1] == data[..i] + [data[i]];
    assert Lows(data[..i + 1])[..i] == Lows(data[..i]);
    FitsRange(data[i], f);
    AccumulatorStep(a, f, data[i]);
    CutScaled(a, ToInt32(data[i]), bits, f);
  }

  lemma CutScaled(a: int, v: int, bits: nat, f: nat)
    requires 0 <= v < Pow2(f)
    ensures Cut(a * Pow2(f) + v, bits + f) == Cut(a, bits)
  {
    CutIs(a * Pow2(f) + v, bits + f);
    CutIs(a, bits);
    Pow2Add(bits, f);
    DivScaled(a, v, Pow2(bits), Pow2(f));
  }

  lemma FitsRange(v: int, f: nat)
    requires Fits(v, f)
    ensures 0 <= ToInt32(v) < Pow2(f)
  {
    ShrIs(v, f);
    var x, p := ToInt32(v), Pow2(f);
    assert x == (x / p) * p + x % p;
  }

  // Peeling one more word off the accumulated bits.
  lemma EmitStep(a: int, bits: nat, m: nat, t: nat)
    requires t <= 8 && bits <= 15
    ensures ToBase(Cut(a, bits), m + 1, t)
         == ToBase(Cut(a, bits + t), m, t) + [And(Shr(ToInt32(a), bits), Shl(1, t) - 1)]
  {
    CutIs(a, bits);
    CutIs(a, bits + t);
    MaskedBits(a, bits, t);
    Pow2Add(bits, t);
    DivDiv(a, Pow2(bits), Pow2(t));
  }

  // What the loop has built is the body of the specification.
  lemma Finish(data: seq<int>, a: int, bits: nat, result: seq<int>, f: nat, t: nat)
    requires 0 < t <= 8 && a == Val(Lows(data), f) && bits < t
    requires Times(|result|, t) + bits == Times(|data|, f)
    requires result == ToBase(Cut(a, bits), |result|, t)
    ensures var last := And(Shl(ToInt32(a), t - bits), Shl(1, t) - 1);
      && Regroup(Lows(data), f, t, true) == Some(if bits > 0 then result + [last] else result)
      && Regroup(Lows(data), f, t, false) == if bits >= f || last != 0 then None else Some(result)
  {
    LeftoverBits(a, bits, t);
    CutIs(a, bits);
    QuotientIs(|data|, f, t, |result|, bits);
  }

  lemma QuotientIs(n: nat, f: nat, t: nat, m: nat, bits: nat)
    requires t > 0 && Times(m, t) + bits == Times(n, f) && bits < t
    ensures n * f / t == m && n * f % t == bits
  {
    TimesIsProduct(m, t);
    TimesIsProduct(n, f);
    DivModUnique(n * f, t, m, bits);
  }

  // The final masked shift reads exactly the bits not yet emitted.
  lemma LeftoverBits(a: int, bits: nat, t: nat)
    requires bits < t <= 8
    ensures And(Shl(ToInt32(a), t - bits), Shl(1, t) - 1) == (a % Pow2(bits)) * Pow2(t - bits)
    ensures (a % Pow2(bits)) * Pow2(t - bits) == 0 <==> a % Pow2(bits) == 0
  {
    ShiftAgrees(a, t - bits);
    MaskedLow(a * Pow2(t - bits), t);
    LeftoverValue(a, bits, t);
  }

  lemma LeftoverValue(a: int, bits: nat, t: nat)
    requires bits < t
    ensures (a * Pow2(t - bits)) % Pow2(t) == (a % Pow2(bits)) * Pow2(t - bits)
    ensures (a % Pow2(bits)) * Pow2(t - bits) == 0 <==> a % Pow2(bits) == 0
  {
    Pow2Sum(t, bits, t - bits);
    LeftoverModulo(a, Pow2(bits), Pow2(t - bits));
    MultipleIsFar(a % Pow2(bits), Pow2(t - bits));
  }

  lemma MaskedLow(y: int, t: nat)
    requires t <= 8
    ensures And(ToInt32(y), Shl(1, t) - 1) == y % Pow2(t)
  {
    MaskIs(t);
    Idempotent(y);
    AndWithMask(ToInt32(y), t);
    LowBitsAgree(y, t);
  }

  lemma LowBitsAgree(y: int, t: nat)
    requires t <= 8
    ensures ToInt32(y) % Pow2(t) == y % Pow2(t)
  {
    SignedLowBits(y, 0, t);
    assert Pow2(0) == 1;
  }

  lemma LeftoverModulo(a: int, p: int, q: int)
    requires p > 0 && q > 0
    ensures p * q > 0 && (a * q) % (p * q) == (a % p) * q
  {
    var d, m := a / p, a % p;
    assert a == d * p + m;
    assert (d * p + m) * q == d * (p * q) + m * q by { assert d * p * q == d * (p * q); }
    MultipleIsFar(p, q);
    MulNonNegative(m, q);
    MultipleIsFar(p - m, q);
    assert (p - m) * q == p * q - m * q;
    DivModUnique(a * q, p * q, d, m * q);
  }
}

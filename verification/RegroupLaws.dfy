/** The law regrouping exists for: padding encodes, strict regrouping decodes,
    and each undoes the other. */
module RegroupLaws {
  import opened Common
  import opened Powers
  import opened Int32
  import opened BitStrings
  import opened ConvertBits

  // Bits added when n words of width f are padded out to words of width t.
  function PadBits(n: nat, f: nat, t: nat): (p: nat)
    requires t > 0
    ensures p < t
  {
    if n * f % t == 0 then 0 else t - n * f % t
  }

  function Encode(words: seq<int>, f: nat, t: nat): seq<int>
    requires t > 0
  {
    Regroup(words, f, t, true).value
  }

  // The padded output as a number: the input's bits, then p zero bits.
  lemma EncodeShape(ws: seq<int>, f: nat, t: nat)
    requires Digits(ws, f) && t > 0
    ensures var e, p := Encode(ws, f, t), PadBits(|ws|, f, t);
      Digits(e, t) && |e| * t == |ws| * f + p && Val(e, t) == Val(ws, f) * Pow2(p)
  {
    var total := |ws| * f;
    ValRange(ws, f);
    DivMod(total, t);
    EncodeNumber(Val(ws, f), total, total / t, total % t, t);
  }

  // The same for any number a of `total` bits.
  lemma EncodeNumber(a: int, total: nat, m: nat, rem: nat, t: nat)
    requires rem < t && total == m * t + rem && 0 <= a < Pow2(total)
    ensures var body := ToBase(a / Pow2(rem), m, t);
      var e := if rem > 0 then body + [(a % Pow2(rem)) * Pow2(t - rem)] else body;
      var p := if rem == 0 then 0 else t - rem;
      Digits(e, t) && |e| * t == total + p && Val(e, t) == a * Pow2(p)
  {
    BodyShape(a, total, m, rem, t);
    if rem > 0 {
      PaddedWord(a, ToBase(a / Pow2(rem), m, t), rem, t);
      assert (m + 1) * t == m * t + t;
    } else {
      assert Pow2(0) == 1;
    }
  }

  lemma BodyShape(a: int, total: nat, m: nat, rem: nat, t: nat)
    requires total == m * t + rem && 0 <= a < Pow2(total)
    ensures Digits(ToBase(a / Pow2(rem), m, t), t)
    ensures Val(ToBase(a / Pow2(rem), m, t), t) == a / Pow2(rem)
  {
    QuotientFits(a, total, m, rem, t);
    ToBaseDigits(a / Pow2(rem), m, t);
    ValOfToBase(a / Pow2(rem), m, t);
  }

  lemma PaddedWord(a: int, body: seq<int>, rem: nat, t: nat)
    requires 0 < rem < t && Digits(body, t) && Val(body, t) == a / Pow2(rem)
    ensures var e := body + [(a % Pow2(rem)) * Pow2(t - rem)];
      Digits(e, t) && Val(e, t) == a * Pow2(t - rem)
  {
    ValAppend(body, (a % Pow2(rem)) * Pow2(t - rem), t);
    Pow2Sum(t, rem, t - rem);
    PaddedValue(a, Pow2(rem), Pow2(t - rem));
  }

  lemma QuotientFits(a: int, total: nat, m: nat, rem: nat, t: nat)
    requires total == m * t + rem && 0 <= a < Pow2(total)
    ensures m * t >= 0 && 0 <= a / Pow2(rem) < Pow2(m * t)
  {
    MulNonNegative(m, t);
    Pow2Sum(total, m * t, rem);
    QuotientBound(a, Pow2(rem), Pow2(m * t));
  }

  lemma PaddedValue(a: int, p: int, q: int)
    requires p > 0 && q > 0
    ensures (a / p) * (p * q) + (a % p) * q == a * q
    ensures 0 <= (a % p) * q < p * q
  {
    assert a == (a / p) * p + a % p;
    assert ((a / p) * p + a % p) * q == (a / p) * (p * q) + (a % p) * q;
    Bounded(a % p, 0, p, q);
  }

  // What strict regrouping accepts, and what it then returns.
  lemma DecodeShape(ws: seq<int>, t: nat, f: nat)
    requires Digits(ws, t) && f > 0 && Regroup(ws, t, f, false).Some?
    ensures var out, rem := Regroup(ws, t, f, false).value, |ws| * t % f;
      && rem < t && Digits(out, f) && |out| * f + rem == |ws| * t
      && Val(ws, t) == Val(out, f) * Pow2(rem)
  {
    var total := |ws| * t;
    ValRange(ws, t);
    DivMod(total, f);
    DecodeNumber(Val(ws, t), total, total / f, total % f, f);
  }

  lemma DecodeNumber(a: int, total: nat, n: nat, rem: nat, f: nat)
    requires rem < f && total == n * f + rem && 0 <= a < Pow2(total) && a % Pow2(rem) == 0
    ensures var out := ToBase(a / Pow2(rem), n, f);
      Digits(out, f) && a == Val(out, f) * Pow2(rem)
  {
    BodyShape(a, total, n, rem, f);
    DivMod(a, Pow2(rem));
  }

  lemma DecodeIs(ws: seq<int>, t: nat, f: nat, out: seq<int>, rem: nat)
    requires f > 0 && rem < f && rem < t
    requires Digits(out, f) && |out| * f + rem == |ws| * t
    requires Val(ws, t) == Val(out, f) * Pow2(rem)
    ensures Regroup(ws, t, f, false) == Some(out)
  {
    DivModUnique(|ws| * t, f, |out|, rem);
    MulDiv(Val(out, f), Pow2(rem));
    ToBaseOfVal(out, f);
  }

  // The leftover of a strict decode is the padding of its result.
  lemma LeftoverIsPadding(n: nat, f: nat, m: nat, t: nat, rem: nat)
    requires t > 0 && rem < t && n * f + rem == m * t
    ensures PadBits(n, f, t) == rem
  {
    if rem == 0 {
      DivModUnique(n * f, t, m, 0);
    } else {
      assert (m - 1) * t == m * t - t;
      DivModUnique(n * f, t, m - 1, t - rem);
    }
  }

  /** A word list decodes strictly to `out` exactly when it is the encoding of `out`. */
  lemma DecodesIffEncoded(ws: seq<int>, out: seq<int>, f: nat, t: nat)
    requires f > 0 && t > 0 && Digits(ws, t) && Digits(out, f)
    ensures Regroup(ws, t, f, false) == Some(out)
       <==> ws == Encode(out, f, t) && PadBits(|out|, f, t) < f
  {
    EncodeShape(out, f, t);
    if Regroup(ws, t, f, false) == Some(out) {
      DecodeShape(ws, t, f);
      var rem := |ws| * t % f;
      LeftoverIsPadding(|out|, f, |ws|, t, rem);
      SameFactor(|ws|, |Encode(out, f, t)|, t);
      ValInjective(ws, Encode(out, f, t), t);
    } else if ws == Encode(out, f, t) && PadBits(|out|, f, t) < f {
      DecodeIs(ws, t, f, out, PadBits(|out|, f, t));
      assert false;
    }
  }

  lemma SameFactor(a: nat, b: nat, t: nat)
    requires t > 0 && a * t == b * t
    ensures a == b
  {
    MulDiv(a, t);
    MulDiv(b, t);
  }

  /** BIP-173 both ways: every byte string is the decoding of its encoding, and
      any 5-bit list the strict decoder accepts is the encoding of its result. */
  lemma BytesRoundTrip(bytes: seq<int>)
    requires Digits(bytes, 8)
    ensures Digits(Encode(bytes, 8, 5), 5)
    ensures Regroup(Encode(bytes, 8, 5), 5, 8, false) == Some(bytes)
  {
    EncodeShape(bytes, 8, 5);
    DecodesIffEncoded(Encode(bytes, 8, 5), bytes, 8, 5);
  }

  lemma AcceptedIsEncoding(words: seq<int>)
    requires Digits(words, 5) && Regroup(words, 5, 8, false).Some?
    ensures var bytes := Regroup(words, 5, 8, false).value;
      Digits(bytes, 8) && words == Encode(bytes, 8, 5)
  {
    DecodeShape(words, 5, 8);
    DecodesIffEncoded(words, Regroup(words, 5, 8, false).value, 8, 5);
  }

  // A value that passes the per-value test is its own low bits only below 2^32.
  lemma LowsExact(data: seq<int>, w: nat)
    requires w <= 8 && AllFit(data, w)
    ensures Digits(Lows(data), w)
    ensures Lows(data) == data <==> forall i :: 0 <= i < |data| ==> data[i] < MODULUS
  {
    forall i | 0 <= i < |data| ensures 0 <= Lows(data)[i] < Pow2(w) && Pow2(w) <= 256 {
      assert Fits(data[i], w);
      FitsRange(data[i], w);
      ByteRange(w);
    }
    if forall i :: 0 <= i < |data| ==> data[i] < MODULUS {
      forall i | 0 <= i < |data| ensures Lows(data)[i] == data[i] {
        assert Fits(data[i], w);
        FitsRange(data[i], w);
        NonNegativeView(data[i]);
      }
    } else {
      var i :| 0 <= i < |data| && data[i] >= MODULUS;
      assert Lows(data)[i] < 0x8000_0000;
    }
  }

  lemma NonNegativeView(v: int)
    requires 0 <= v < MODULUS && ToInt32(v) >= 0
    ensures ToInt32(v) == v
  {
  }

  /** On raw JavaScript numbers the strict decoder reads only the low 32 bits, so
      what it accepts is the encoding of its result exactly when every value is
      below 2^32. */
  lemma RawAcceptedIsEncoding(data: seq<int>)
    requires AllFit(data, 5) && Regroup(Lows(data), 5, 8, false).Some?
    ensures data == Encode(Regroup(Lows(data), 5, 8, false).value, 8, 5)
       <==> forall i :: 0 <= i < |data| ==> data[i] < MODULUS
  {
    LowsExact(data, 5);
    AcceptedIsEncoding(Lows(data));
  }

  lemma ThreeAndZero()
    ensures Regroup([3, 0], 5, 8, false) == Some([24])
  {
    assert Pow2(2) == 4 && Pow2(5) == 32 && Pow2(8) == 256;
    assert Val([3, 0], 5) == 96 by { assert [3, 0][..1] == [3] && [3][..0] == []; }
    assert ToBase(24, 1, 8) == [24];
  }

  /** A value 2^32 + 3 passes for the word 3, and the strict decoder accepts the list. */
  lemma AliasedWord()
    ensures AllFit([MODULUS + 3, 0], 5) && Lows([MODULUS + 3, 0]) == [3, 0]
    ensures Regroup(Lows([MODULUS + 3, 0]), 5, 8, false) == Some([24])
    ensures [MODULUS + 3, 0] != Lows([MODULUS + 3, 0])
  {
    ShrIs(MODULUS + 3, 5);
    ShrIs(0, 5);
    assert Pow2(5) == 32;
    ThreeAndZero();
  }
}

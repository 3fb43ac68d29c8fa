/** The byte helpers of orderbook/src/common.rs. */
module SwapBytes {
  import opened Common
  import opened Powers
  import opened BitStrings
  import opened Hex

  // A 256-bit big-endian word.
  function Word(n: nat): (r: seq<int>)
    ensures |r| == 32
  {
    ToBase(n, 32, 8)
  }

  function Zeros(n: nat): (r: seq<int>)
    ensures |r| == n
  {
    seq(n, _ => 0)
  }

  // `BigUint::to_bytes_be`: no leading zero byte, and [0] for zero.
  function MinBytes(n: nat): (r: seq<int>)
    ensures r != []
  {
    if n < 256 then [n] else MinBytes(n / 256) + [n % 256]
  }

  function LeftPad(bytes: seq<int>, len: nat): seq<int> {
    if |bytes| >= len then bytes else Zeros(len - |bytes|) + bytes
  }

  // `left_pad_bytes`
  method LeftPadBytes(slice: seq<int>, len: nat) returns (padded: seq<int>)
    ensures padded == LeftPad(slice, len)
  {
    if |slice| >= len { return slice; }
    padded := Zeros(len - |slice|);
    padded := padded + slice;
  }

  /** Padding on the left keeps the number the bytes stand for. */
  lemma {:induction false} LeftPadKeepsValue(bytes: seq<int>, len: nat)
    ensures |LeftPad(bytes, len)| == if |bytes| >= len then |bytes| else len
    ensures Val(LeftPad(bytes, len), 8) == Val(bytes, 8)
  {
    if |bytes| < len { ZerosBefore(len - |bytes|, bytes); }
  }

  lemma {:induction false} ZerosBefore(n: nat, bytes: seq<int>)
    ensures Val(Zeros(n) + bytes, 8) == Val(bytes, 8)
    decreases |bytes|, n
  {
    if bytes == [] {
      assert Zeros(n) + bytes == Zeros(n);
      if n > 0 {
        ZerosBefore(n - 1, []);
        assert Zeros(n - 1) + [] == Zeros(n - 1) && Zeros(n)[..n - 1] == Zeros(n - 1);
      }
    } else {
      var k := |bytes| - 1;
      ZerosBefore(n, bytes[..k]);
      assert Zeros(n) + bytes == (Zeros(n) + bytes[..k]) + [bytes[k]];
      ValAppend(Zeros(n) + bytes[..k], bytes[k], 8);
    }
  }

  lemma {:induction false} ZerosAfter(bytes: seq<int>, n: nat)
    ensures Val(bytes + Zeros(n), 8) == Val(bytes, 8) * Pow2(8 * n)
  {
    if n == 0 {
      assert bytes + Zeros(0) == bytes;
      assert Pow2(0) == 1;
    } else {
      ZerosAfter(bytes, n - 1);
      assert bytes + Zeros(n) == (bytes + Zeros(n - 1)) + [0];
      ValAppend(bytes + Zeros(n - 1), 0, 8);
      Pow2Sum(8 * n, 8 * (n - 1), 8);
      Product(Val(bytes, 8), Pow2(8 * (n - 1)), Pow2(8));
    }
  }

  lemma Product(a: int, b: int, c: int)
    ensures a * b * c == a * (b * c)
  {
  }

  lemma {:induction false} ZeroWord(m: nat)
    ensures ToBase(0, m, 8) == Zeros(m)
  {
    if m > 0 {
      ZeroWord(m - 1);
      assert Pow2(8) == 256;
      assert Zeros(m) == Zeros(m - 1) + [0];
    }
  }

  lemma LeftPadAppend(bytes: seq<int>, b: int, m: nat)
    requires m > 0
    ensures LeftPad(bytes + [b], m) == LeftPad(bytes, m - 1) + [b]
  {
  }

  lemma Pow2Bytes(m: nat)
    requires m > 0
    ensures Pow2(8 * m) == 256 * Pow2(8 * (m - 1))
  {
    assert Pow2(8) == 256;
    Pow2Add(8, 8 * (m - 1));
  }

  /** Minimal bytes fit in m bytes exactly when the number is below 256^m, and
      padded on the left they are its fixed-width form. */
  lemma {:induction false} PaddedIsWord(n: nat, m: nat)
    requires m > 0
    ensures |MinBytes(n)| <= m <==> n < Pow2(8 * m)
    ensures n < Pow2(8 * m) ==> LeftPad(MinBytes(n), m) == ToBase(n, m, 8)
    decreases m
  {
    assert Pow2(8) == 256;
    Pow2Bytes(m);
    if n < 256 {
      ZeroWord(m - 1);
      assert ToBase(n, m, 8) == ToBase(0, m - 1, 8) + [n];
    } else if m > 1 {
      PaddedIsWord(n / 256, m - 1);
      LeftPadAppend(MinBytes(n / 256), n % 256, m);
    } else {
      assert Pow2(0) == 1;
    }
  }

  // The number fits a 256-bit word.
  predicate FitsWord(n: nat) { |MinBytes(n)| <= 32 }

  lemma WordOf(n: nat)
    requires FitsWord(n)
    ensures LeftPad(MinBytes(n), 32) == Word(n)
  {
    WordOfWidth(n, 32);
  }

  lemma WordOfWidth(n: nat, m: nat)
    requires m > 0 && |MinBytes(n)| <= m
    ensures LeftPad(MinBytes(n), m) == ToBase(n, m, 8)
  {
    PaddedIsWord(n, m);
  }

  // `abi_encode_uint256`; a number too wide panics, which ends in no value.
  method AbiEncodeUint256(value: nat) returns (r: Result<seq<int>>)
    ensures r == if FitsWord(value) then Ok(Word(value)) else Err
  {
    var bytes := MinBytes(value);
    if |bytes| > 32 { return Err; }
    var padded := new int[32](_ => 0);
    var start := 32 - |bytes|;
    forall i | 0 <= i < |bytes| { padded[start + i] := bytes[i]; }
    assert padded[..] == Zeros(start) + bytes;
    assert padded[..] == LeftPad(bytes, 32);
    WordOf(value);
    r := Ok(padded[..]);
  }

  // `trim_start_matches("0x")`: every leading "0x".
  function TrimAll0x(s: string): string {
    if |s| >= 2 && s[..2] == "0x" then TrimAll0x(s[2..]) else s
  }

  lemma TrimsEach(s: string)
    ensures TrimAll0x("0x" + s) == TrimAll0x(s)
    ensures !("0x" <= s) ==> TrimAll0x(s) == s
  {
    assert ("0x" + s)[..2] == "0x" && ("0x" + s)[2..] == s;
  }

  function RightPadded(s: string, len: nat): Result<seq<int>> {
    var bytes := Decode(TrimAll0x(s));
    if bytes.Err? || |bytes.value| > len then Err else Ok(bytes.value + Zeros(len - |bytes.value|))
  }

  // `decode_and_pad_hex`
  method DecodeAndPadHex(input: string, padLen: nat) returns (r: Result<seq<int>>)
    ensures r == RightPadded(input, padLen)
  {
    var bytes := Decode(TrimAll0x(input));
    if bytes.Err? || |bytes.value| > padLen { return Err; }
    var padded := bytes.value;
    padded := padded + Zeros(padLen - |padded|);
    r := Ok(padded);
  }

  /** Padding on the right keeps the bytes in front and scales their number; the
      text is refused exactly when it is no hex or too long. */
  lemma RightPaddedShape(s: string, len: nat)
    ensures RightPadded(s, len).Ok? <==>
      Decode(TrimAll0x(s)).Ok? && |Decode(TrimAll0x(s)).value| <= len
    ensures RightPadded(s, len).Ok? ==>
      var bytes, padded := Decode(TrimAll0x(s)).value, RightPadded(s, len).value;
      && |padded| == len && bytes <= padded
      && Val(padded, 8) == Val(bytes, 8) * Pow2(8 * (len - |bytes|))
  {
    if RightPadded(s, len).Ok? {
      var bytes := Decode(TrimAll0x(s)).value;
      ZerosAfter(bytes, len - |bytes|);
    }
  }

  // The 32 bytes of a text: padded on the left, or its last 32.
  function HashOf(s: string): (r: Result<seq<int>>)
    ensures r.Ok? ==> |r.value| == 32
  {
    var bytes := Decode(Strip0x(s));
    if bytes.Err? then Err
    else if |bytes.value| <= 32 then Ok(Zeros(32 - |bytes.value|) + bytes.value)
    else Ok(bytes.value[|bytes.value| - 32..])
  }

  // `hex_to_hash`
  method HexToHash(s: string) returns (r: Result<seq<int>>)
    ensures r == HashOf(s)
  {
    var decoded := Decode(Strip0x(s));
    if decoded.Err? { return Err; }
    var bytes := decoded.value;
    var hash := new int[32](_ => 0);
    if |bytes| <= 32 {
      var start := 32 - |bytes|;
      forall i | 0 <= i < |bytes| { hash[start + i] := bytes[i]; }
      assert hash[..] == Zeros(start) + bytes;
    } else {
      forall i | 0 <= i < 32 { hash[i] := bytes[|bytes| - 32 + i]; }
      assert hash[..] == bytes[|bytes| - 32..];
    }
    r := Ok(hash[..]);
  }

  lemma WordInjective(a: nat, b: nat)
    requires FitsWord(a) && FitsWord(b) && Word(a) == Word(b)
    ensures a == b
  {
    DigitsInjective(a, b, 32);
  }

  lemma DigitsInjective(a: nat, b: nat, m: nat)
    requires m > 0 && |MinBytes(a)| <= m && |MinBytes(b)| <= m && ToBase(a, m, 8) == ToBase(b, m, 8)
    ensures a == b
  {
    PaddedIsWord(a, m);
    PaddedIsWord(b, m);
    ValOfToBase(a, m, 8);
    ValOfToBase(b, m, 8);
  }

  function Cap(m: nat): nat { if m == 0 then 1 else 256 * Cap(m - 1) }

  lemma {:induction false} FewBytes(n: nat, m: nat)
    requires m > 0 && n < Cap(m)
    ensures |MinBytes(n)| <= m
    decreases m
  {
    if n >= 256 { FewBytes(n / 256, m - 1); }
  }

  lemma Fits64(n: nat)
    requires n < 0x1_0000_0000_0000_0000
    ensures FitsWord(n)
  {
    assert Cap(8) == 0x1_0000_0000_0000_0000;
    FewBytes(n, 8);
  }
}

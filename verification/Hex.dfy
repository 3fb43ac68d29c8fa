/** Hexadecimal text and the bytes it stands for, as `hex::decode` reads it. */
module Hex {
  import opened Common
  import opened Powers
  import opened BitStrings

  predicate IsHexDigit(c: char) { '0' <= c <= '9' || 'a' <= c <= 'f' || 'A' <= c <= 'F' }

  function DigitValue(c: char): (n: int)
    requires IsHexDigit(c)
    ensures 0 <= n < 16
  {
    if c <= '9' then c as int - '0' as int
    else if c <= 'F' then c as int - 'A' as int + 10
    else c as int - 'a' as int + 10
  }

  /** The sixteen digits and the capitals among them have their values. */
  lemma DigitValues(i: nat)
    requires i < 16
    ensures IsHexDigit("0123456789abcdef"[i]) && DigitValue("0123456789abcdef"[i]) == i
    ensures IsHexDigit("0123456789ABCDEF"[i]) && DigitValue("0123456789ABCDEF"[i]) == i
  {
  }

  // Pairs of digits, most significant first; an odd digit or a stranger fails.
  function Decode(s: string): (r: Result<seq<int>>)
    ensures r.Ok? ==> |s| == 2 * |r.value|
  {
    if s == "" then Ok([])
    else if |s| < 2 || !IsHexDigit(s[0]) || !IsHexDigit(s[1]) then Err
    else
      var rest := Decode(s[2..]);
      if rest.Err? then Err else Ok([16 * DigitValue(s[0]) + DigitValue(s[1])] + rest.value)
  }

  lemma {:induction false} DecodedBytes(s: string)
    requires Decode(s).Ok?
    ensures Digits(Decode(s).value, 8)
    decreases |s|
  {
    if s != "" {
      DecodedBytes(s[2..]);
      ByteBound(s[0], s[1]);
    }
  }

  lemma ByteBound(a: char, b: char)
    requires IsHexDigit(a) && IsHexDigit(b)
    ensures 0 <= 16 * DigitValue(a) + DigitValue(b) < Pow2(8)
  {
    assert Pow2(8) == 256;
  }

  lemma LowerDigit(c: char)
    ensures IsHexDigit(LowerChar(c)) <==> IsHexDigit(c)
    ensures IsHexDigit(c) ==> DigitValue(LowerChar(c)) == DigitValue(c)
  {
  }

  /** Case does not matter to the bytes. */
  lemma {:induction false} DecodeLower(s: string)
    ensures Decode(Lower(s)) == Decode(s)
    decreases |s|
  {
    if |s| >= 2 {
      LowerDigit(s[0]);
      LowerDigit(s[1]);
      DecodeLower(s[2..]);
      assert Lower(s)[2..] == Lower(s[2..]);
    } else if |s| == 0 {
      assert Lower(s) == s;
    }
  }

  /** A decodable text with its "0x" keeps its bytes when lower-cased. */
  lemma DecodeStrippedLower(s: string)
    requires Decode(Strip0x(s)).Ok?
    ensures Decode(Strip0x(Lower(s))) == Decode(Strip0x(s))
  {
    if |s| >= 2 && s[..2] == "0x" {
      assert Lower(s)[..2] == "0x" by { assert s[0] == '0' && s[1] == 'x'; }
      assert Lower(s)[2..] == Lower(s[2..]);
      DecodeLower(s[2..]);
    } else {
      if |s| >= 2 {
        assert IsHexDigit(s[1]);
        assert Lower(s)[1] != 'x';
      }
      DecodeLower(s);
    }
  }
}

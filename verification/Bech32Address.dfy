/** initia-fe/src/lib/bech32.ts: `decodeBech32` and `bech32ToHex`. */
module Bech32Address {
  import opened Common
  import opened Powers
  import opened Int32
  import opened BitStrings
  import opened ConvertBits
  import opened RegroupLaws

  const CHARSET := "qpzry9x8gf2tvdw0s3jn54khce6mua7l"
  const HEX_DIGITS := "0123456789abcdef"

  // The lookup table filled by walking CHARSET: a later entry would win.
  function CharMap(c: char, n: nat): (r: Option<int>)
    requires n <= |CHARSET|
    ensures r.Some? ==> 0 <= r.value < n && CHARSET[r.value] == c
    ensures r.None? ==> c !in CHARSET[..n]
  {
    if n == 0 then None
    else if CHARSET[n - 1] == c then Some(n - 1)
    else CharMap(c, n - 1)
  }

  // `lastIndexOf('1')`, -1 when absent.
  function LastOne(s: string): (r: int)
    ensures -1 <= r < |s|
    ensures r >= 0 ==> s[r] == '1'
  {
    if s == [] then -1
    else if s[|s| - 1] == '1' then |s| - 1
    else LastOne(s[..|s| - 1])
  }

  // The words a run of data characters stands for.
  function WordsOf(chars: string): (r: Option<seq<int>>)
    ensures r.Some? ==> |r.value| == |chars|
  {
    if chars == [] then Some([])
    else
      match WordsOf(chars[..|chars| - 1])
      case None => None
      case Some(ws) =>
        match CharMap(chars[|chars| - 1], |CHARSET|)
        case None => None
        case Some(d) => Some(ws + [d])
  }

  // Prefix and words of a lower-cased string.
  function Decoded(s: string): Option<(string, seq<int>)> {
    var pos := LastOne(s);
    if pos < 1 || pos + 7 > |s| then None
    else
      match WordsOf(s[pos + 1..|s| - 6])
      case None => None
      case Some(ws) => Some((s[..pos], ws))
  }

  // --------------------------------------------------------------- the code

  method DecodeBech32(str: string) returns (r: Option<(string, seq<int>)>)
    ensures r == Decoded(Lower(str))
  {
    var s := Lower(str);
    var pos := LastOne(s);
    if pos < 1 || pos + 7 > |s| { return None; }
    var words := DecodeWords(s, pos + 1, |s| - 6);
    if words == None { return None; }
    r := Some((s[..pos], words.value));
  }

  // The loop over the data characters, without the last six.
  method DecodeWords(s: string, from: nat, end: nat) returns (r: Option<seq<int>>)
    requires from <= end <= |s|
    ensures r == WordsOf(s[from..end])
  {
    var words: seq<int> := [];
    for i := from to end
      invariant WordsOf(s[from..i]) == Some(words)
    {
      var d := CharMap(s[i], |CHARSET|);
      WordsOfStep(s, from, i);
      if d == None {
        WordsOfStops(s, from, i + 1, end);
        return None;
      }
      words := words + [d.value];
    }
    r := Some(words);
  }

  method Bech32ToHex(addr: string) returns (r: Option<string>)
    ensures r == AddressToHex(Lower(addr))
  {
    var decoded := DecodeBech32(addr);
    if decoded == None { return None; }
    var words := decoded.value.1;
    DecodedWords(Lower(addr));
    var bytes := Convert(words, 5, 8, false);
    if bytes == None || |bytes.value| != 20 { return None; }
    DecodeShape(words, 5, 8);
    var hex := HexText(bytes.value);
    r := Some("0x" + hex);
  }

  // The words of a decoded address are read as they are.
  lemma DecodedWords(s: string)
    requires Decoded(s).Some?
    ensures var ws := Decoded(s).value.1; AllFit(ws, 5) && Lows(ws) == ws && Digits(ws, 5)
  {
    WordsAreDigits(s[LastOne(s) + 1..|s| - 6]);
    ReadAsIs(Decoded(s).value.1);
  }

  method HexText(bytes: seq<int>) returns (r: string)
    requires Digits(bytes, 8)
    ensures r == Hex(bytes)
  {
    r := "";
    for i := 0 to |bytes|
      invariant r == Hex(bytes[..i])
    {
      assert bytes[..i + 1][..i] == bytes[..i];
      r := r + HexByte(bytes[i]);
    }
    assert bytes[..|bytes|] == bytes;
  }

  // `toString(16).padStart(2, '0')` of one byte.
  function HexByte(b: int): string {
    [HEX_DIGITS[(b / 16) % 16], HEX_DIGITS[b % 16]]
  }

  function Hex(bytes: seq<int>): string {
    if bytes == [] then "" else Hex(bytes[..|bytes| - 1]) + HexByte(bytes[|bytes| - 1])
  }

  function AddressToHex(s: string): Option<string> {
    match Decoded(s)
    case None => None
    case Some(d) =>
      match Regroup(d.1, 5, 8, false)
      case None => None
      case Some(bytes) => if |bytes| != 20 then None else Some("0x" + Hex(bytes))
  }

  // ------------------------------------------------------------ loop support

  lemma WordsOfStep(s: string, from: nat, i: nat)
    requires from <= i < |s|
    ensures WordsOf(s[from..i + 1]) ==
      match WordsOf(s[from..i])
      case None => None
      case Some(ws) =>
        match CharMap(s[i], |CHARSET|)
        case None => None
        case Some(d) => Some(ws + [d])
  {
    var run := s[from..i + 1];
    assert run[..|run| - 1] == s[from..i] && run[|run| - 1] == s[i];
  }

  // Once a prefix fails, the whole run fails.
  lemma {:induction false} WordsOfStops(s: string, from: nat, i: nat, end: nat)
    requires from <= i <= end <= |s| && WordsOf(s[from..i]).None?
    ensures WordsOf(s[from..end]).None?
    decreases end
  {
    if i < end {
      WordsOfStops(s, from, i, end - 1);
      WordsOfStep(s, from, end - 1);
    }
  }

  lemma {:induction false} WordsAreDigits(chars: string)
    requires WordsOf(chars).Some?
    ensures forall i :: 0 <= i < |chars| ==> 0 <= WordsOf(chars).value[i] < 32
  {
    if chars != [] { WordsAreDigits(chars[..|chars| - 1]); }
  }

  // Small words pass the per-value test and are read unchanged.
  lemma ReadAsIs(words: seq<int>)
    requires forall i :: 0 <= i < |words| ==> 0 <= words[i] < 32
    ensures AllFit(words, 5) && Lows(words) == words && Digits(words, 5)
  {
    assert Pow2(5) == 32;
    forall i | 0 <= i < |words| ensures Fits(words[i], 5) && ToInt32(words[i]) == words[i] {
      Small(words[i]);
      ShrIs(words[i], 5);
    }
  }

  // --------------------------------------------------------- what it promises

  function Chars(words: seq<int>): (r: string)
    requires forall i :: 0 <= i < |words| ==> 0 <= words[i] < 32
    ensures |r| == |words|
  {
    seq(|words|, i requires 0 <= i < |words| => CHARSET[words[i]])
  }

  // Each charset character maps back to its position.
  lemma {:induction false} CharsetDistinct(i: nat, n: nat)
    requires i < n <= 32
    ensures CharMap(CHARSET[i], n) == Some(i)
    decreases n
  {
    if i < n - 1 {
      DifferentChars(i, n - 1);
      CharsetDistinct(i, n - 1);
    }
  }

  lemma DifferentChars(i: nat, j: nat)
    requires i < j < 32
    ensures CHARSET[i] != CHARSET[j]
  {
  }

  lemma {:induction false} WordsOfChars(words: seq<int>)
    requires forall i :: 0 <= i < |words| ==> 0 <= words[i] < 32
    ensures WordsOf(Chars(words)) == Some(words)
  {
    if words != [] {
      var init := words[..|words| - 1];
      WordsOfChars(init);
      assert Chars(words)[..|words| - 1] == Chars(init);
      CharsetDistinct(words[|words| - 1], 32);
      assert |CHARSET| == 32 && words == init + [words[|words| - 1]];
    }
  }

  lemma {:induction false} CharsOfWords(chars: string)
    requires WordsOf(chars).Some?
    ensures forall i :: 0 <= i < |chars| ==> 0 <= WordsOf(chars).value[i] < 32
    ensures Chars(WordsOf(chars).value) == chars
  {
    WordsAreDigits(chars);
    if chars != [] { CharsOfWords(chars[..|chars| - 1]); }
  }

  // The separator is the only '1' from its position on.
  lemma {:induction false} LastOneIs(s: string, pos: nat)
    requires pos < |s| && s[pos] == '1' && forall i :: pos < i < |s| ==> s[i] != '1'
    ensures LastOne(s) == pos
    decreases |s|
  {
    if pos < |s| - 1 { LastOneIs(s[..|s| - 1], pos); }
  }

  lemma {:induction false} NoLaterOne(s: string)
    ensures forall i :: LastOne(s) < i < |s| ==> s[i] != '1'
  {
    if s != [] && s[|s| - 1] != '1' {
      var t := s[..|s| - 1];
      NoLaterOne(t);
      forall i | LastOne(s) < i < |s| ensures s[i] != '1' {
        if i < |t| { assert t[i] == s[i]; }
      }
    }
  }

  predicate Bytes20(bytes: seq<int>) {
    |bytes| == 20 && forall i :: 0 <= i < 20 ==> 0 <= bytes[i] < 256
  }

  // A 20-byte address as 32 charset characters.
  function DataPart(bytes: seq<int>): (r: string)
    requires Bytes20(bytes)
    ensures |r| == 32
  {
    DataWords(bytes);
    Chars(Encode(bytes, 8, 5))
  }

  lemma DataWords(bytes: seq<int>)
    requires Bytes20(bytes)
    ensures Digits(bytes, 8)
    ensures |Encode(bytes, 8, 5)| == 32
    ensures forall i :: 0 <= i < 32 ==> 0 <= Encode(bytes, 8, 5)[i] < 32
  {
    assert Pow2(8) == 256 && Pow2(5) == 32;
    EncodeShape(bytes, 8, 5);
  }

  /** The form of the strings that convert: any non-empty prefix, a separator,
      the data part of a 20-byte address and six further characters. */
  ghost predicate Spells(s: string, prefix: string, bytes: seq<int>, checksum: string)
    requires Bytes20(bytes)
  {
    s == prefix + "1" + DataPart(bytes) + checksum
    && |prefix| >= 1 && |checksum| == 6 && '1' !in checksum
  }

  lemma DataPartHasNoOne(bytes: seq<int>)
    requires Bytes20(bytes)
    ensures '1' !in DataPart(bytes)
  {
    DataWords(bytes);
    forall i | 0 <= i < 32 ensures DataPart(bytes)[i] != '1' {
      NotSeparator(Encode(bytes, 8, 5)[i]);
    }
  }

  lemma NotSeparator(w: nat)
    requires w < 32
    ensures CHARSET[w] != '1' && LowerChar(CHARSET[w]) == CHARSET[w]
  {
  }

  /** Such an address converts to its bytes' hex, whatever the prefix (even one
      containing '1') and whatever the six trailing characters. */
  lemma SpelledConverts(s: string, prefix: string, bytes: seq<int>, checksum: string)
    requires Bytes20(bytes) && Spells(s, prefix, bytes, checksum)
    ensures AddressToHex(s) == Some("0x" + Hex(bytes))
  {
    var data, pos := DataPart(bytes), |prefix|;
    DataPartHasNoOne(bytes);
    forall i | pos < i < |s| ensures s[i] != '1' {
      if i < pos + 33 { assert s[i] == data[i - pos - 1]; } else { assert s[i] == checksum[i - pos - 33]; }
    }
    LastOneIs(s, pos);
    assert s[pos + 1..|s| - 6] == data;
    DataWords(bytes);
    WordsOfChars(Encode(bytes, 8, 5));
    BytesRoundTrip(bytes);
  }

  /** For an address as written: any prefix, data part, six charset characters
      in either case. */
  lemma AddressConverts(prefix: string, bytes: seq<int>, checksum: string)
    requires Bytes20(bytes) && prefix != "" && |checksum| == 6
    requires forall i :: 0 <= i < 6 ==> LowerChar(checksum[i]) in CHARSET
    ensures AddressToHex(Lower(prefix + "1" + DataPart(bytes) + checksum)) == Some("0x" + Hex(bytes))
  {
    var data := DataPart(bytes);
    LowerConcat(prefix + "1" + data, checksum);
    LowerConcat(prefix + "1", data);
    LowerConcat(prefix, "1");
    DataWords(bytes);
    forall i | 0 <= i < 32 ensures LowerChar(data[i]) == data[i] {
      NotSeparator(Encode(bytes, 8, 5)[i]);
    }
    assert Lower(data) == data && Lower("1") == "1";
    forall i | 0 <= i < 6 ensures Lower(checksum)[i] != '1' {
      var w :| 0 <= w < |CHARSET| && CHARSET[w] == LowerChar(checksum[i]);
      NotSeparator(w);
    }
    SpelledConverts(Lower(prefix + "1" + data + checksum), Lower(prefix), bytes, Lower(checksum));
  }

  /** And nothing else converts. */
  lemma ConvertedIsSpelled(s: string) returns (prefix: string, bytes: seq<int>, checksum: string)
    requires AddressToHex(s).Some?
    ensures Bytes20(bytes) && Spells(s, prefix, bytes, checksum)
    ensures AddressToHex(s) == Some("0x" + Hex(bytes))
  {
    var pos := LastOne(s);
    prefix, checksum := s[..pos], s[|s| - 6..];
    DecodedWords(s);
    bytes := Regroup(Decoded(s).value.1, 5, 8, false).value;
    DataSpells(s[pos + 1..|s| - 6], Decoded(s).value.1, bytes);
    SplitAt(s, pos);
    NoOneAfter(s);
  }

  lemma DataSpells(chars: string, words: seq<int>, bytes: seq<int>)
    requires WordsOf(chars) == Some(words) && Digits(words, 5)
    requires Regroup(words, 5, 8, false) == Some(bytes) && |bytes| == 20
    ensures Bytes20(bytes) && DataPart(bytes) == chars
  {
    AcceptedIsEncoding(words);
    assert Pow2(8) == 256;
    CharsOfWords(chars);
  }

  lemma SplitAt(s: string, pos: nat)
    requires pos + 7 <= |s| && s[pos] == '1'
    ensures s == s[..pos] + "1" + s[pos + 1..|s| - 6] + s[|s| - 6..]
  {
  }

  lemma NoOneAfter(s: string)
    requires LastOne(s) + 7 <= |s|
    ensures '1' !in s[|s| - 6..]
  {
    NoLaterOne(s);
    var tail := s[|s| - 6..];
    forall i | 0 <= i < 6 ensures tail[i] != '1' {
      assert tail[i] == s[|s| - 6 + i];
    }
  }

  // ------------------------------------------------------------ the table itself

  /** Each character has its value in the table of BIP-173. */
  lemma CharacterValues(i: nat)
    requires i < 32
    ensures CharMap("qpzry9x8gf2tvdw0s3jn54khce6mua7l"[i], 32) == Some(i)
  {
    CharsetDistinct(i, 32);
  }

  // The words 0 to 31 and their bits as bytes, by 40 bits each.
  const WORDS_0 := [0, 1, 2, 3, 4, 5, 6, 7]
  const WORDS_1 := [8, 9, 10, 11, 12, 13, 14, 15]
  const WORDS_2 := [16, 17, 18, 19, 20, 21, 22, 23]
  const WORDS_3 := [24, 25, 26, 27, 28, 29, 30, 31]
  const BYTES_0 := [0x00, 0x44, 0x32, 0x14, 0xc7]
  const BYTES_1 := [0x42, 0x54, 0xb6, 0x35, 0xcf]
  const BYTES_2 := [0x84, 0x65, 0x3a, 0x56, 0xd7]
  const BYTES_3 := [0xc6, 0x75, 0xbe, 0x77, 0xdf]

  function AllWords(): seq<int> { (WORDS_0 + WORDS_1) + (WORDS_2 + WORDS_3) }
  function AllBytes(): seq<int> { (BYTES_0 + BYTES_1) + (BYTES_2 + BYTES_3) }

  /** The address whose data part is the whole table, in its order. */
  lemma TableAddress()
    ensures AddressToHex("init" + "1" + "qpzry9x8gf2tvdw0s3jn54khce6mua7l" + "qqqqqq")
         == Some("0x" + (("00443214c7" + "4254b635cf") + ("84653a56d7" + "c675be77df")))
  {
    TableIsData();
    BytesAreHex();
    var data, checksum := "qpzry9x8gf2tvdw0s3jn54khce6mua7l", "qqqqqq";
    SpelledConverts("init" + "1" + data + checksum, "init", AllBytes(), checksum);
  }

  lemma TableIsData()
    ensures Bytes20(AllBytes()) && DataPart(AllBytes()) == "qpzry9x8gf2tvdw0s3jn54khce6mua7l"
  {
    WordsCount();
    BytesFit();
    SameForty();
    SameBits(WORDS_0, BYTES_0, WORDS_1, BYTES_1);
    SameBits(WORDS_2, BYTES_2, WORDS_3, BYTES_3);
    SameBits(WORDS_0 + WORDS_1, BYTES_0 + BYTES_1, WORDS_2 + WORDS_3, BYTES_2 + BYTES_3);
    assert Pow2(0) == 1;
    DecodeIs(AllWords(), 5, 8, AllBytes(), 0);
    AcceptedIsEncoding(AllWords());
  }

  lemma WordsCount()
    ensures |AllWords()| == 32 && forall i :: 0 <= i < 32 ==> AllWords()[i] == i
    ensures Digits(AllWords(), 5) && Chars(AllWords()) == "qpzry9x8gf2tvdw0s3jn54khce6mua7l"
  {
    assert Pow2(5) == 32;
  }

  lemma BytesFit()
    ensures |AllBytes()| == 20 && Digits(AllBytes(), 8) && Bytes20(AllBytes())
  {
    assert Pow2(8) == 256;
  }

  lemma SameForty()
    ensures Val(WORDS_0, 5) == Val(BYTES_0, 8) && Val(WORDS_1, 5) == Val(BYTES_1, 8)
    ensures Val(WORDS_2, 5) == Val(BYTES_2, 8) && Val(WORDS_3, 5) == Val(BYTES_3, 8)
  {
    EightWords(0, 1, 2, 3, 4, 5, 6, 7);
    EightWords(8, 9, 10, 11, 12, 13, 14, 15);
    EightWords(16, 17, 18, 19, 20, 21, 22, 23);
    EightWords(24, 25, 26, 27, 28, 29, 30, 31);
    FiveBytes(0x00, 0x44, 0x32, 0x14, 0xc7);
    FiveBytes(0x42, 0x54, 0xb6, 0x35, 0xcf);
    FiveBytes(0x84, 0x65, 0x3a, 0x56, 0xd7);
    FiveBytes(0xc6, 0x75, 0xbe, 0x77, 0xdf);
  }

  lemma FourDigits(a: int, b: int, c: int, d: int, w: nat)
    ensures Val([a, b, c, d], w) == ((a * Pow2(w) + b) * Pow2(w) + c) * Pow2(w) + d
  {
    assert [] + [a] == [a] && [a] + [b] == [a, b] && [a, b] + [c] == [a, b, c] && [a, b, c] + [d] == [a, b, c, d];
    ValAppend([], a, w);
    ValAppend([a], b, w);
    ValAppend([a, b], c, w);
    ValAppend([a, b, c], d, w);
  }

  lemma EightWords(a: int, b: int, c: int, d: int, e: int, f: int, g: int, h: int)
    ensures Val([a, b, c, d, e, f, g, h], 5) ==
      (((a * 32 + b) * 32 + c) * 32 + d) * 0x10_0000 + ((e * 32 + f) * 32 + g) * 32 + h
  {
    assert Pow2(5) == 32;
    FourDigits(a, b, c, d, 5);
    FourDigits(e, f, g, h, 5);
    assert [a, b, c, d] + [e, f, g, h] == [a, b, c, d, e, f, g, h];
    TwentyMore([a, b, c, d], [e, f, g, h]);
  }

  lemma TwentyMore(high: seq<int>, low: seq<int>)
    requires |low| == 4
    ensures Val(high + low, 5) == Val(high, 5) * 0x10_0000 + Val(low, 5)
  {
    ValJoin(high, low, 5);
    TwentyBits();
    assert |low| * 5 == 20;
  }

  lemma TwentyBits()
    ensures Pow2(20) == 0x10_0000
  {
    assert Pow2(5) == 32;
    Pow2Add(5, 5);
    Pow2Add(10, 10);
  }

  lemma FiveBytes(a: int, b: int, c: int, d: int, e: int)
    ensures Val([a, b, c, d, e], 8) == (((a * 256 + b) * 256 + c) * 256 + d) * 256 + e
  {
    assert Pow2(8) == 256;
    assert [a, b, c, d] + [e] == [a, b, c, d, e];
    FourDigits(a, b, c, d, 8);
    ValAppend([a, b, c, d], e, 8);
  }

  // Runs of the same bits stay so side by side.
  lemma SameBits(a: seq<int>, b: seq<int>, c: seq<int>, d: seq<int>)
    requires Val(a, 5) == Val(b, 8) && Val(c, 5) == Val(d, 8) && |c| * 5 == |d| * 8
    ensures Val(a + c, 5) == Val(b + d, 8)
  {
    ValJoin(a, c, 5);
    ValJoin(b, d, 8);
  }

  lemma {:induction false} ValJoin(a: seq<int>, b: seq<int>, w: nat)
    ensures |b| * w >= 0 && Val(a + b, w) == Val(a, w) * Pow2(|b| * w) + Val(b, w)
    decreases |b|
  {
    if b == [] {
      assert a + b == a && Pow2(0) == 1;
    } else {
      var k := |b| - 1;
      ValJoin(a, b[..k], w);
      assert a + b == (a + b[..k]) + [b[k]] && b == b[..k] + [b[k]];
      ValAppend(a + b[..k], b[k], w);
      ValAppend(b[..k], b[k], w);
      Pow2Step(|b|, w);
      Distributes(Val(a, w), Pow2(k * w), Val(b[..k], w), Pow2(w));
    }
  }

  lemma Distributes(a: int, p: int, b: int, q: int)
    ensures (a * p + b) * q == a * (p * q) + b * q
  {
  }

  lemma BytesAreHex()
    ensures Hex(AllBytes()) == ("00443214c7" + "4254b635cf") + ("84653a56d7" + "c675be77df")
  {
    FiveHex(0x00, 0x44, 0x32, 0x14, 0xc7, "00443214c7");
    FiveHex(0x42, 0x54, 0xb6, 0x35, 0xcf, "4254b635cf");
    FiveHex(0x84, 0x65, 0x3a, 0x56, 0xd7, "84653a56d7");
    FiveHex(0xc6, 0x75, 0xbe, 0x77, 0xdf, "c675be77df");
    JoinFour(BYTES_0, BYTES_1, BYTES_2, BYTES_3);
  }

  lemma JoinFour(a: seq<int>, b: seq<int>, c: seq<int>, d: seq<int>)
    ensures Hex((a + b) + (c + d)) == (Hex(a) + Hex(b)) + (Hex(c) + Hex(d))
  {
    HexJoin(a, b);
    HexJoin(c, d);
    HexJoin(a + b, c + d);
  }

  // A hex digit by its place after '0' or 'a'.
  function HexChar(n: int): char
    requires 0 <= n < 16
  {
    if n < 10 then ('0' as int + n) as char else ('a' as int + n - 10) as char
  }

  lemma FiveHex(a: int, b: int, c: int, d: int, e: int, t: string)
    requires 0 <= a < 256 && 0 <= b < 256 && 0 <= c < 256 && 0 <= d < 256 && 0 <= e < 256 && |t| == 10
    requires t[0] == HexChar(a / 16) && t[1] == HexChar(a % 16) && t[2] == HexChar(b / 16) && t[3] == HexChar(b % 16)
    requires t[4] == HexChar(c / 16) && t[5] == HexChar(c % 16) && t[6] == HexChar(d / 16) && t[7] == HexChar(d % 16)
    requires t[8] == HexChar(e / 16) && t[9] == HexChar(e % 16)
    ensures Hex([a, b, c, d, e]) == t
  {
    MoreHex([], a, [a], t, 2);
    MoreHex([a], b, [a, b], t, 4);
    MoreHex([a, b], c, [a, b, c], t, 6);
    MoreHex([a, b, c], d, [a, b, c, d], t, 8);
    MoreHex([a, b, c, d], e, [a, b, c, d, e], t, 10);
  }

  lemma MoreHex(before: seq<int>, b: int, bytes: seq<int>, t: string, n: nat)
    requires 0 <= b < 256 && 2 <= n <= |t| && Hex(before) == t[..n - 2] && bytes == before + [b]
    requires t[n - 2] == HexChar(b / 16) && t[n - 1] == HexChar(b % 16)
    ensures Hex(bytes) == t[..n]
  {
    OneHex(before, b);
  }

  lemma OneHex(bytes: seq<int>, b: int)
    requires 0 <= b < 256
    ensures Hex(bytes + [b]) == Hex(bytes) + [HexChar(b / 16), HexChar(b % 16)]
  {
    LastHex(bytes, b);
    HexOfByte(b);
  }

  lemma LastHex(bytes: seq<int>, b: int)
    ensures Hex(bytes + [b]) == Hex(bytes) + HexByte(b)
  {
    assert (bytes + [b])[..|bytes|] == bytes;
  }

  lemma {:induction false} HexJoin(a: seq<int>, b: seq<int>)
    ensures Hex(a + b) == Hex(a) + Hex(b)
    decreases |b|
  {
    if b == [] {
      assert a + b == a;
    } else {
      var k := |b| - 1;
      HexJoin(a, b[..k]);
      assert a + b == (a + b[..k]) + [b[k]] && b == b[..k] + [b[k]];
      LastHex(a + b[..k], b[k]);
      LastHex(b[..k], b[k]);
      assert (Hex(a) + Hex(b[..k])) + HexByte(b[k]) == Hex(a) + (Hex(b[..k]) + HexByte(b[k]));
    }
  }

  /** A byte is two lower-case hex digits. */
  lemma HexOfByte(b: int)
    requires 0 <= b < 256
    ensures HexByte(b) == [HexChar(b / 16), HexChar(b % 16)]
  {
    HexDigit(b / 16);
    HexDigit(b % 16);
  }

  lemma HexDigit(n: int)
    requires 0 <= n < 16
    ensures HEX_DIGITS[n] == HexChar(n)
  {
  }
}

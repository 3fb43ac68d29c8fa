/** Small shared vocabulary: optional and failing results, and the string
    operations that several services apply to addresses and identifiers. */
module Common {

  datatype Option<+T> = None | Some(value: T)

  datatype Result<+T> = Ok(value: T) | Err

  const TWO_31 := 0x8000_0000
  const TWO_32 := 0x1_0000_0000
  const TWO_63 := 0x8000_0000_0000_0000
  const TWO_64 := 0x1_0000_0000_0000_0000
  const TWO_128 := 0x1_0000_0000_0000_0000_0000_0000_0000_0000

  // Whether a text contains another.
  predicate Includes(text: string, part: string) {
    part <= text || (text != "" && Includes(text[1..], part))
  }

  // ASCII lower-casing of one character.
  function LowerChar(c: char): (r: char)
    ensures !('A' <= r <= 'Z')
    ensures r == c || ('A' <= c <= 'Z' && 'a' <= r <= 'z')
  {
    if 'A' <= c <= 'Z' then (c as int + 32) as char else c
  }

  function Lower(s: string): (r: string)
    ensures |r| == |s|
    ensures forall i :: 0 <= i < |s| ==> r[i] == LowerChar(s[i])
  {
    seq(|s|, i requires 0 <= i < |s| => LowerChar(s[i]))
  }

  // One optional leading "0x", as `strip_prefix("0x")` and `^0x` remove it.
  function Strip0x(s: string): (r: string)
  {
    if |s| >= 2 && s[..2] == "0x" then s[2..] else s
  }

  lemma StripsOnce(s: string)
    ensures Strip0x("0x" + s) == s
    ensures !("0x" <= s) ==> Strip0x(s) == s
  {
  }

  lemma LowerIdempotent(s: string)
    ensures Lower(Lower(s)) == Lower(s)
  {
  }

  /** Every upper-case letter has its lower-case one. */
  lemma LowerLetters()
    ensures Lower("ABCDEFGHIJKLMNOPQRSTUVWXYZ") == "abcdefghijklmnopqrstuvwxyz"
  {
  }

  /** A text includes a part exactly when it can be split around it. */
  lemma {:induction false} SplitIncludes(before: string, part: string, after: string)
    ensures Includes(before + part + after, part)
    decreases |before|
  {
    var text := before + part + after;
    if before == "" {
      assert text == part + after;
    } else {
      SplitIncludes(before[1..], part, after);
      assert text[1..] == before[1..] + part + after;
    }
  }

  lemma {:induction false} IncludesSplit(text: string, part: string) returns (before: string, after: string)
    requires Includes(text, part)
    ensures text == before + part + after
    decreases |text|
  {
    if part <= text {
      before, after := "", text[|part|..];
    } else {
      before, after := IncludesSplit(text[1..], part);
      before := [text[0]] + before;
    }
  }

  lemma LowerConcat(a: string, b: string)
    ensures Lower(a + b) == Lower(a) + Lower(b)
  {
  }
}

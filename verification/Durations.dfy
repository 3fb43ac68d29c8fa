/** `parseDurationMs` of initia-rollup/scripts/finalize-withdrawals-lib.ts and
    `parseDurationSeconds` of initia-fe/src/lib/withdrawal-tracker.ts. */
module Durations {
  import opened Common
  import opened Powers

  datatype Unit = Hours | Minutes | Seconds | Millis

  // One match of the pattern: its digits and its unit.
  datatype Part = Part(digits: string, unit: Unit)

  predicate IsDigit(c: char) { '0' <= c <= '9' }

  predicate AllDigits(s: string) { forall i :: 0 <= i < |s| ==> IsDigit(s[i]) }

  function UnitText(u: Unit): (r: string)
    ensures r != "" && !IsDigit(r[0])
  {
    match u case Hours => "h" case Minutes => "m" case Seconds => "s" case Millis => "ms"
  }

  predicate StartsWith(s: string, c: char) { s != "" && s[0] == c }

  // (ms|h|m|s): the alternatives in their order.
  function UnitAt(s: string): Option<Unit> {
    if |s| >= 2 && s[0] == 'm' && s[1] == 's' then Some(Millis)
    else if StartsWith(s, 'h') then Some(Hours)
    else if StartsWith(s, 'm') then Some(Minutes)
    else if StartsWith(s, 's') then Some(Seconds)
    else None
  }

  // How far the greedy \d+ reaches; giving digits back never helps, because
  // no unit starts with a digit.
  function DigitRun(s: string): (n: nat)
    ensures n <= |s| && AllDigits(s[..n]) && (n < |s| ==> !IsDigit(s[n]))
  {
    if s != "" && IsDigit(s[0]) then
      var n := DigitRun(s[1..]);
      assert forall i :: 0 < i <= n ==> s[i] == s[1..][i - 1];
      n + 1
    else 0
  }

  function Text(p: Part): string { p.digits + UnitText(p.unit) }

  // A match that begins exactly here.
  function MatchHere(s: string): (r: Option<Part>)
    ensures r.Some? ==> r.value.digits != "" && AllDigits(r.value.digits) && Text(r.value) <= s
  {
    var n := DigitRun(s);
    var u := UnitAt(s[n..]);
    if n > 0 && u.Some? then Some(Part(s[..n], u.value)) else None
  }

  // `matchAll`: leftmost matches, each search starting where the last match ended.
  function Matches(s: string): seq<Part>
    decreases |s|
  {
    if s == "" then []
    else
      var m := MatchHere(s);
      if m.Some? then [m.value] + Matches(s[|Text(m.value)|..]) else Matches(s[1..])
  }

  function Value(digits: string): nat
    requires AllDigits(digits)
  {
    if digits == "" then 0
    else Value(digits[..|digits| - 1]) * 10 + (digits[|digits| - 1] as int - '0' as int)
  }

  function Millisecs(p: Part): nat
    requires AllDigits(p.digits)
  {
    var value := Value(p.digits);
    match p.unit
    case Hours => value * 3600000
    case Minutes => value * 60000
    case Seconds => value * 1000
    case Millis => value
  }

  predicate WellFormed(parts: seq<Part>) {
    forall i :: 0 <= i < |parts| ==> parts[i].digits != "" && AllDigits(parts[i].digits)
  }

  function Total(parts: seq<Part>): nat
    requires WellFormed(parts)
  {
    if parts == [] then 0 else Total(parts[..|parts| - 1]) + Millisecs(parts[|parts| - 1])
  }

  // The total of the first n parts.
  ghost function TotalUpTo(parts: seq<Part>, n: nat): nat
    requires WellFormed(parts) && n <= |parts|
  {
    if n == 0 then 0 else TotalUpTo(parts, n - 1) + Millisecs(parts[n - 1])
  }

  lemma {:induction false} AllOfThem(parts: seq<Part>, n: nat)
    requires WellFormed(parts) && n <= |parts|
    ensures TotalUpTo(parts, n) == Total(parts[..n])
    ensures n == |parts| ==> TotalUpTo(parts, n) == Total(parts)
  {
    if n > 0 {
      AllOfThem(parts, n - 1);
      assert parts[..n][..n - 1] == parts[..n - 1];
    }
    if n == |parts| { assert parts[..n] == parts; }
  }

  lemma {:induction false} MatchesWellFormed(s: string)
    ensures WellFormed(Matches(s))
    decreases |s|
  {
    if s != "" {
      var m := MatchHere(s);
      if m.Some? { MatchesWellFormed(s[|Text(m.value)|..]); } else { MatchesWellFormed(s[1..]); }
    }
  }

  // The milliseconds a text stands for; text without a match stands for none.
  ghost function Amount(s: string): nat {
    MatchesWellFormed(s);
    Total(Matches(s))
  }

  method ParseDurationMs(duration: string) returns (r: Option<nat>)
    ensures r == if Matches(duration) == [] then None else Some(Amount(duration))
  {
    var matches := Matches(duration);
    MatchesWellFormed(duration);
    var total, matched := 0, false;
    for i := 0 to |matches|
      invariant matched <==> i > 0
      invariant total == TotalUpTo(matches, i)
    {
      matched := true;
      total := total + Millisecs(matches[i]);
    }
    AllOfThem(matches, |matches|);
    r := if matched then Some(total) else None;
  }

  lemma TotalAppend(parts: seq<Part>, p: Part)
    requires WellFormed(parts) && p.digits != "" && AllDigits(p.digits)
    ensures Total(parts + [p]) == Total(parts) + Millisecs(p)
  {
    assert (parts + [p])[..|parts|] == parts;
  }

  lemma {:induction false} TotalConcat(a: seq<Part>, b: seq<Part>)
    requires WellFormed(a) && WellFormed(b)
    ensures Total(a + b) == Total(a) + Total(b)
    decreases |b|
  {
    if b == [] {
      assert a + b == a;
    } else {
      var n := |b| - 1;
      TotalConcat(a, b[..n]);
      assert (a + b)[..|a| + n] == a + b[..n];
    }
  }

  // ------------------------------------------------------ printing and parsing

  function TextOf(parts: seq<Part>): string {
    if parts == [] then "" else Text(parts[0]) + TextOf(parts[1..])
  }

  // The one place where the text of a part continues: "m" before "s".
  predicate Fuses(p: Part, tail: string) { p.unit.Minutes? && StartsWith(tail, 's') }

  predicate LastFuses(parts: seq<Part>, tail: string) { parts != [] && Fuses(parts[|parts| - 1], tail) }

  lemma {:induction false} DigitRunOf(d: string, t: string)
    requires AllDigits(d) && (t == "" || !IsDigit(t[0]))
    ensures DigitRun(d + t) == |d|
  {
    if d == "" {
      assert d + t == t;
    } else {
      assert (d + t)[1..] == d[1..] + t;
      DigitRunOf(d[1..], t);
    }
  }

  lemma MatchOfText(p: Part, tail: string)
    requires p.digits != "" && AllDigits(p.digits) && !Fuses(p, tail)
    ensures MatchHere(Text(p) + tail) == Some(p)
    ensures Matches(Text(p) + tail) == [p] + Matches(tail)
  {
    var u := UnitText(p.unit);
    var s := Text(p) + tail;
    assert s == p.digits + (u + tail);
    DigitRunOf(p.digits, u + tail);
    assert s[..|p.digits|] == p.digits && s[|p.digits|..] == u + tail;
    assert UnitAt(u + tail) == Some(p.unit);
    assert s[|Text(p)|..] == tail;
  }

  lemma Assoc(a: string, b: string, c: string)
    ensures (a + b) + c == a + (b + c)
  {
  }

  lemma StartsWithDigit(parts: seq<Part>, tail: string)
    requires parts != [] && WellFormed(parts)
    ensures TextOf(parts) + tail != "" && IsDigit((TextOf(parts) + tail)[0])
  {
    assert IsDigit(parts[0].digits[0]);
    assert Text(parts[0])[0] == parts[0].digits[0];
  }

  // The first part of a printed text never runs into the next one.
  lemma FirstPart(parts: seq<Part>, tail: string)
    requires parts != [] && WellFormed(parts) && !LastFuses(parts, tail)
    ensures TextOf(parts) + tail == Text(parts[0]) + (TextOf(parts[1..]) + tail)
    ensures !Fuses(parts[0], TextOf(parts[1..]) + tail)
  {
    var rest := parts[1..];
    Assoc(Text(parts[0]), TextOf(rest), tail);
    if rest == [] {
      assert TextOf(rest) + tail == tail;
    } else {
      StartsWithDigit(rest, tail);
    }
  }

  lemma RestOfParts(parts: seq<Part>, tail: string)
    requires parts != [] && WellFormed(parts) && !LastFuses(parts, tail)
    ensures WellFormed(parts[1..]) && !LastFuses(parts[1..], tail)
  {
    var rest := parts[1..];
    if rest != [] { assert rest[|rest| - 1] == parts[|parts| - 1]; }
  }

  lemma {:induction false} MatchesOfText(parts: seq<Part>, tail: string)
    requires WellFormed(parts) && !LastFuses(parts, tail)
    ensures Matches(TextOf(parts) + tail) == parts + Matches(tail)
    decreases |parts|
  {
    if parts == [] {
      assert TextOf(parts) + tail == tail;
    } else {
      RestOfParts(parts, tail);
      MatchesOfText(parts[1..], tail);
      FirstPart(parts, tail);
      PrependMatch(parts, TextOf(parts) + tail, TextOf(parts[1..]) + tail, Matches(tail));
    }
  }

  lemma PrependMatch(parts: seq<Part>, text: string, after: string, last: seq<Part>)
    requires parts != [] && WellFormed(parts) && text == Text(parts[0]) + after && !Fuses(parts[0], after)
    requires Matches(after) == parts[1..] + last
    ensures Matches(text) == parts + last
  {
    MatchOfText(parts[0], after);
    ConsConcat(parts, last);
  }

  lemma ConsConcat<T>(parts: seq<T>, more: seq<T>)
    requires parts != []
    ensures [parts[0]] + (parts[1..] + more) == parts + more
  {
  }

  /** Parsing inverts printing: any list of integral parts, in any order, is read
      back as exactly those parts. */
  lemma ParseInvertsPrint(parts: seq<Part>)
    requires WellFormed(parts)
    ensures Matches(TextOf(parts)) == parts && Amount(TextOf(parts)) == Total(parts)
  {
    MatchesOfText(parts, "");
    assert TextOf(parts) + "" == TextOf(parts);
  }

  /** Parsing a well-formed text followed by any text adds the two amounts,
      except exactly when a nonzero "m" runs into an "s". */
  lemma AdditiveUnlessFused(parts: seq<Part>, tail: string)
    requires WellFormed(parts)
    ensures Amount(TextOf(parts) + tail) == Amount(TextOf(parts)) + Amount(tail)
      <==> !(LastFuses(parts, tail) && Value(parts[|parts| - 1].digits) != 0)
  {
    ParseInvertsPrint(parts);
    if LastFuses(parts, tail) { FusedDiffers(parts, tail); } else { UnfusedAmount(parts, tail); }
  }

  /** Five minutes, then an "s": five milliseconds. */
  lemma FiveMinutesFuse()
    ensures Amount("5m") == 300000 && Amount("s") == 0 && Amount("5m" + "s") == 5
  {
    var parts := [Part("5", Minutes)];
    OneDigit('5');
    assert TextOf(parts[1..]) == "" && TextOf(parts) == "5m";
    assert parts == [] + [Part("5", Minutes)];
    TotalAppend([], Part("5", Minutes));
    ParseInvertsPrint(parts);
    FusedAmount(parts, [], Part("5", Minutes), "s");
    SkipsUnit("s");
  }

  /** A number with a unit stands for so many hours, minutes, seconds or milliseconds. */
  lemma UnitsRead(d: string)
    requires d != "" && AllDigits(d)
    ensures Amount(d + "h") == 3600000 * Value(d) && Amount(d + "m") == 60000 * Value(d)
    ensures Amount(d + "s") == 1000 * Value(d) && Amount(d + "ms") == Value(d)
    ensures Value("0") == 0 && Value("9") == 9 && Value("604800") == 604800
  {
    OnePart(Part(d, Hours));
    OnePart(Part(d, Minutes));
    OnePart(Part(d, Seconds));
    OnePart(Part(d, Millis));
    ValueOfWeek();
  }

  lemma OnePart(p: Part)
    requires p.digits != "" && AllDigits(p.digits)
    ensures Amount(p.digits + UnitText(p.unit)) == Millisecs(p)
  {
    assert TextOf([p][1..]) == "" && TextOf([p]) == p.digits + UnitText(p.unit);
    TotalAppend([], p);
    assert [] + [p] == [p];
    ParseInvertsPrint([p]);
  }

  lemma ValueOfWeek()
    ensures Value("0") == 0 && Value("9") == 9 && Value("604800") == 604800
  {
    OneDigit('0');
    OneDigit('9');
    OneDigit('6');
    assert "60"[..1] == "6" && "604"[..2] == "60" && "6048"[..3] == "604";
    assert "60480"[..4] == "6048" && "604800"[..5] == "60480";
  }

  lemma UnfusedAmount(parts: seq<Part>, tail: string)
    requires WellFormed(parts) && !LastFuses(parts, tail)
    ensures Amount(TextOf(parts) + tail) == Total(parts) + Amount(tail)
  {
    MatchesWellFormed(tail);
    MatchesOfText(parts, tail);
    TotalConcat(parts, Matches(tail));
  }

  lemma FusedDiffers(parts: seq<Part>, tail: string)
    requires WellFormed(parts) && LastFuses(parts, tail)
    ensures Amount(TextOf(parts) + tail) == Total(parts) + Amount(tail)
      <==> Value(parts[|parts| - 1].digits) == 0
  {
    LastPart(parts);
    FusedAmount(parts, parts[..|parts| - 1], parts[|parts| - 1], tail);
  }

  lemma LastPart(parts: seq<Part>)
    requires parts != [] && WellFormed(parts)
    ensures parts == parts[..|parts| - 1] + [parts[|parts| - 1]] && WellFormed(parts[..|parts| - 1])
  {
  }

  lemma {:induction false} TextOfAppend(parts: seq<Part>, p: Part)
    ensures TextOf(parts + [p]) == TextOf(parts) + Text(p)
    decreases |parts|
  {
    if parts == [] {
      assert parts + [p] == [p] && TextOf([p][1..]) == "";
      assert TextOf([p]) == Text(p) + TextOf([p][1..]);
    } else {
      assert (parts + [p])[0] == parts[0] && (parts + [p])[1..] == parts[1..] + [p];
      TextOfAppend(parts[1..], p);
    }
  }

  // The text of minutes followed by "s" is the text of milliseconds.
  lemma FusedText(front: seq<Part>, p: Part, tail: string)
    requires Fuses(p, tail)
    ensures TextOf(front + [p]) + tail == TextOf(front + [Part(p.digits, Millis)]) + tail[1..]
  {
    var q := Part(p.digits, Millis);
    TextOfAppend(front, p);
    TextOfAppend(front, q);
    assert Text(p) + tail == Text(q) + tail[1..];
  }

  lemma FusedAmount(parts: seq<Part>, front: seq<Part>, p: Part, tail: string)
    requires WellFormed(front) && p.digits != "" && AllDigits(p.digits) && Fuses(p, tail)
    requires parts == front + [p] && WellFormed(parts)
    ensures Amount(TextOf(parts) + tail) == Total(front) + Value(p.digits) + Amount(tail)
    ensures Total(parts) == Total(front) + 60000 * Value(p.digits)
  {
    FusedText(front, p, tail);
    FusedTotal(TextOf(parts) + tail, front, Part(p.digits, Millis), tail[1..]);
    SkipsUnit(tail);
    TotalAppend(front, p);
  }

  lemma FusedTotal(text: string, front: seq<Part>, q: Part, rest: string)
    requires WellFormed(front) && q.digits != "" && AllDigits(q.digits) && q.unit.Millis?
    requires text == TextOf(front + [q]) + rest
    ensures Amount(text) == Total(front) + Value(q.digits) + Amount(rest)
  {
    MatchesOfText(front + [q], rest);
    MatchesWellFormed(rest);
    TotalConcat(front + [q], Matches(rest));
    TotalAppend(front, q);
  }

  lemma SkipsUnit(tail: string)
    requires StartsWith(tail, 's')
    ensures Matches(tail) == Matches(tail[1..])
  {
    assert DigitRun(tail) == 0;
  }

  // ------------------------------------------------------- the tracker's parser

  function Decimal(i: string, f: string): real
    requires AllDigits(i) && AllDigits(f)
  {
    Value(i) as real + Fraction(Value(f), Pow10(|f|))
  }

  function Fraction(f: nat, p: nat): real
    requires p > 0
  {
    f as real / p as real
  }

  // Number(text) for text made of digits and dots; NaN is None.
  function NumberOf(text: string): Option<real> {
    var n := DigitRun(text);
    if n == |text| then (if n == 0 then None else Some(Value(text) as real))
    else if text[n] != '.' || !AllDigits(text[n + 1..]) || |text| == 1 then None
    else Some(Decimal(text[..n], text[n + 1..]))
  }

  // `parseDurationSeconds`: ^([\d.]+)s$ and a finite number.
  function ParseDurationSeconds(raw: Option<string>): Option<real> {
    if raw.None? || raw.value == "" then None
    else
      var n := |raw.value| - 1;
      var body := raw.value[..n];
      if raw.value[n] != 's' || body == "" || !(forall i :: 0 <= i < n ==> IsDigit(body[i]) || body[i] == '.')
      then None else NumberOf(body)
  }

  lemma WholeSeconds(d: string)
    requires d != "" && AllDigits(d)
    ensures Matches(d + "s") == [Part(d, Seconds)] && Amount(d + "s") == Value(d) * 1000
    ensures NumberOf(d) == Some(Value(d) as real)
  {
    var p := Part(d, Seconds);
    MatchOfText(p, "");
    assert Text(p) + "" == d + "s";
    TotalAppend([], p);
    assert [] + [p] == [p];
    assert d + "" == d;
    DigitRunOf(d, "");
  }

  // Digits followed by a dot contribute nothing.
  lemma {:induction false} SkipsToDot(i: string, t: string)
    requires AllDigits(i)
    ensures Matches(i + ("." + t)) == Matches(t)
    decreases |i|
  {
    var s := i + ("." + t);
    DigitRunOf(i, "." + t);
    assert s[|i|..] == "." + t;
    assert MatchHere(s).None?;
    if i == "" {
      assert s[1..] == t;
    } else {
      assert s[1..] == i[1..] + ("." + t);
      SkipsToDot(i[1..], t);
    }
  }

  lemma {:induction false} ValueBelowPow10(d: string)
    requires AllDigits(d)
    ensures Value(d) < Pow10(|d|)
    decreases |d|
  {
    if d != "" { ValueBelowPow10(d[..|d| - 1]); }
  }

  lemma FractionBounds(f: nat, p: nat)
    requires f < p
    ensures 0.0 <= Fraction(f, p) < 1.0 && (Fraction(f, p) == 0.0 <==> f == 0)
  {
    var q := Fraction(f, p);
    assert q * p as real == f as real;
  }

  lemma WholeAgrees(i: nat, q: real, f: nat)
    requires 0.0 <= q < 1.0 && (q == 0.0 <==> f == 0)
    ensures (f * 1000) as real == 1000.0 * (i as real + q) <==> i == 0 && f == 0
  {
    if (f * 1000) as real == 1000.0 * (i as real + q) {
      assert q == (f - i) as real;
    }
  }

  lemma DecimalAgrees(i: string, f: string)
    requires AllDigits(i) && AllDigits(f)
    ensures (Value(f) * 1000) as real == 1000.0 * Decimal(i, f) <==> Decimal(i, f) == 0.0
  {
    ValueBelowPow10(f);
    FractionBounds(Value(f), Pow10(|f|));
    WholeAgrees(Value(i), Fraction(Value(f), Pow10(|f|)), Value(f));
  }

  // What the finalizer's pattern finds in a number with a dot.
  lemma DottedMatches(i: string, f: string)
    requires AllDigits(i) && AllDigits(f)
    ensures Matches(i + ("." + (f + "s"))) == if f == "" then [] else [Part(f, Seconds)]
    ensures f != "" ==> Amount(i + ("." + (f + "s"))) == Value(f) * 1000
  {
    SkipsToDot(i, f + "s");
    if f == "" {
      assert f + "s" == "s";
      SkipsUnit("s");
    } else {
      WholeSeconds(f);
    }
  }

  // No digit but zero.
  predicate OnlyZeros(s: string) {
    forall i :: 0 <= i < |s| && IsDigit(s[i]) ==> s[i] == '0'
  }

  lemma {:induction false} ZeroDigits(d: string)
    requires AllDigits(d)
    ensures Value(d) == 0 <==> OnlyZeros(d)
    decreases |d|
  {
    if d != "" {
      var n := |d| - 1;
      ZeroDigits(d[..n]);
      assert OnlyZeros(d) <==> OnlyZeros(d[..n]) && d[n] == '0' by {
        assert IsDigit(d[n]);
        assert forall i :: 0 <= i < n ==> d[..n][i] == d[i];
      }
    }
  }

  lemma DecimalIsZero(i: string, f: string)
    requires AllDigits(i) && AllDigits(f)
    ensures Decimal(i, f) == 0.0 <==> OnlyZeros(i) && OnlyZeros(f)
  {
    ZeroDigits(i);
    ZeroDigits(f);
    ValueBelowPow10(f);
    FractionBounds(Value(f), Pow10(|f|));
  }

  lemma ZerosOfParts(raw: string, i: string, f: string)
    requires raw == i + ("." + (f + "s"))
    ensures OnlyZeros(raw) <==> OnlyZeros(i) && OnlyZeros(f)
  {
    var n := |i|;
    if OnlyZeros(raw) {
      forall k | 0 <= k < |i| && IsDigit(i[k]) ensures i[k] == '0' { assert raw[k] == i[k]; }
      forall k | 0 <= k < |f| && IsDigit(f[k]) ensures f[k] == '0' { assert raw[n + 1 + k] == f[k]; }
    }
    if OnlyZeros(i) && OnlyZeros(f) {
      forall k | 0 <= k < |raw| && IsDigit(raw[k]) ensures raw[k] == '0' {
        if k < n { assert raw[k] == i[k]; } else if n < k < n + 1 + |f| { assert raw[k] == f[k - n - 1]; }
      }
    }
  }

  /** Where the tracker accepts a period, the finalizer reads the same one
      exactly when it has no dot, or all its digits are zeros and one of them
      stands before the "s". */
  lemma ParsersAgree(raw: string)
    requires ParseDurationSeconds(Some(raw)).Some?
    ensures |raw| >= 2
    ensures SameReading(raw, ParseDurationSeconds(Some(raw)).value)
      <==> '.' !in raw || (OnlyZeros(raw) && IsDigit(raw[|raw| - 2]))
  {
    var body := raw[..|raw| - 1];
    assert raw == body + "s";
    var n := DigitRun(body);
    if n == |body| {
      assert body[..n] == body;
      WholeSeconds(body);
    } else {
      assert body == body[..n] + ("." + body[n + 1..]);
      DottedReading(raw, body[..n], body[n + 1..]);
    }
  }

  /** "1.5s": one and a half seconds to the tracker, five to the finalizer. */
  lemma ParsersDisagree()
    ensures ParseDurationSeconds(Some("1.5s")) == Some(1.5) && Amount("1.5s") == 5000
  {
    TrackerReads();
    FinalizerReads();
  }

  lemma TrackerReads()
    ensures ParseDurationSeconds(Some("1.5s")) == Some(1.5)
  {
    assert "1.5s"[..3] == "1.5" && "1.5" == "1" + ("." + "5");
    DottedNumber("1", "5");
    OneDigit('1');
    OneDigit('5');
    Tenths("1", "5");
  }

  lemma Tenths(i: string, f: string)
    requires AllDigits(i) && AllDigits(f) && |f| == 1
    ensures Decimal(i, f) == Value(i) as real + Value(f) as real / 10.0
  {
    assert Pow10(0) == 1;
  }

  lemma FinalizerReads()
    ensures Amount("1.5s") == 5000
  {
    assert "1.5s" == "1" + ("." + ("5" + "s"));
    OneDigit('5');
    DottedMatches("1", "5");
  }

  lemma OneDigit(c: char)
    requires IsDigit(c)
    ensures AllDigits([c]) && Value([c]) == c as int - '0' as int
  {
    assert [c][..0] == "";
  }

  lemma DottedNumber(i: string, f: string)
    requires AllDigits(i) && AllDigits(f) && (i != "" || f != "")
    ensures NumberOf(i + ("." + f)) == Some(Decimal(i, f))
  {
    var text := i + ("." + f);
    DigitRunOf(i, "." + f);
    assert text[..|i|] == i && text[|i| + 1..] == f;
  }

  ghost predicate SameReading(raw: string, seconds: real) {
    Matches(raw) != [] && Amount(raw) as real == 1000.0 * seconds
  }

  lemma DottedReading(raw: string, i: string, f: string)
    requires AllDigits(i) && AllDigits(f) && (i != "" || f != "") && raw == i + ("." + f) + "s"
    ensures '.' in raw && (IsDigit(raw[|raw| - 2]) <==> f != "")
    ensures SameReading(raw, Decimal(i, f)) <==> OnlyZeros(raw) && f != ""
  {
    assert raw == i + ("." + (f + "s"));
    assert raw[|i|] == '.';
    assert f != "" ==> raw[|raw| - 2] == f[|f| - 1];
    DecimalIsZero(i, f);
    ZerosOfParts(raw, i, f);
    DottedMatches(i, f);
    DecimalAgrees(i, f);
  }
}

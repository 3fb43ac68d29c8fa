/** evm-watcher/src/block_range.rs: the block numbers of a round are grouped
    into as few query ranges as the span limit allows. */
module BlockRanges {

  datatype BlockRange = BlockRange(fromBlock: nat, toBlock: nat)

  ghost predicate Ascending(s: seq<nat>) {
    forall i, j :: 0 <= i < j < |s| ==> s[i] < s[j]
  }

  ghost predicate NonDecreasing(s: seq<nat>) {
    forall i, j :: 0 <= i < j < |s| ==> s[i] <= s[j]
  }

  function NonZero(blocks: seq<nat>): set<nat> {
    set b | b in blocks && b != 0
  }

  // ---------------------------------------------------------------- the code

  method RetainNonZero(blocks: seq<nat>) returns (r: seq<nat>)
    ensures forall b :: b in r <==> b in blocks && b != 0
  {
    r := [];
    for i := 0 to |blocks|
      invariant forall b :: b in r <==> b in blocks[..i] && b != 0
    {
      assert blocks[..i + 1] == blocks[..i] + [blocks[i]];
      if blocks[i] != 0 { r := r + [blocks[i]]; }
    }
    assert blocks[..|blocks|] == blocks;
  }

  // Stands for the library's `sort_unstable`.
  method Sort(blocks: seq<nat>) returns (r: seq<nat>)
    ensures NonDecreasing(r)
    ensures forall b :: b in r <==> b in blocks
  {
    r := [];
    for i := 0 to |blocks|
      invariant NonDecreasing(r)
      invariant forall b :: b in r <==> b in blocks[..i]
    {
      assert blocks[..i + 1] == blocks[..i] + [blocks[i]];
      r := Insert(r, blocks[i]);
    }
    assert blocks[..|blocks|] == blocks;
  }

  method Insert(s: seq<nat>, x: nat) returns (r: seq<nat>)
    requires NonDecreasing(s)
    ensures NonDecreasing(r)
    ensures forall b :: b in r <==> b in s || b == x
  {
    var k := |s|;
    while k > 0 && s[k - 1] > x
      invariant 0 <= k <= |s|
      invariant k < |s| ==> s[k] > x
    {
      k := k - 1;
    }
    r := s[..k] + [x] + s[k..];
    InsertSorts(s, k, x);
    InsertAdds(s, k, x);
  }

  lemma InsertSorts(s: seq<nat>, k: nat, x: nat)
    requires NonDecreasing(s) && k <= |s|
    requires k < |s| ==> x < s[k]
    requires k > 0 ==> s[k - 1] <= x
    ensures NonDecreasing(s[..k] + [x] + s[k..])
  {
    var r := s[..k] + [x] + s[k..];
    forall i, j | 0 <= i < j < |r| ensures r[i] <= r[j] {
      assert i < k ==> s[i] <= s[k - 1];
      assert j > k ==> s[k] <= s[j - 1];
    }
  }

  lemma InsertAdds(s: seq<nat>, k: nat, x: nat)
    requires k <= |s|
    ensures forall b :: b in s[..k] + [x] + s[k..] <==> b in s || b == x
  {
    assert s == s[..k] + s[k..];
  }

  // Stands for the library's `dedup`: drops consecutive repetitions.
  method Dedup(blocks: seq<nat>) returns (r: seq<nat>)
    requires NonDecreasing(blocks)
    ensures Ascending(r)
    ensures forall b :: b in r <==> b in blocks
  {
    r := [];
    for i := 0 to |blocks|
      invariant Ascending(r)
      invariant forall b :: b in r <==> b in blocks[..i]
      invariant r != [] ==> 0 < i && r[|r| - 1] == blocks[i - 1]
      invariant r == [] ==> i == 0
    {
      assert blocks[..i + 1] == blocks[..i] + [blocks[i]];
      if r == [] || r[|r| - 1] != blocks[i] { r := r + [blocks[i]]; }
    }
    assert blocks[..|blocks|] == blocks;
  }

  function SaturatingSub(a: nat, b: nat): nat {
    if a < b then 0 else a - b
  }

  /** `group_block_ranges`: filter, sort, dedup, then one greedy pass. */
  method GroupBlockRanges(input: seq<nat>, maxBlockSpan: nat) returns (ranges: seq<BlockRange>)
    ensures ranges == Greedy(Listing(NonZero(input)), maxBlockSpan)
  {
    var retained := RetainNonZero(input);
    if |retained| == 0 {
      NoElements(input, retained);
      return [];
    }
    var sorted := Sort(retained);
    var blocks := Dedup(sorted);
    IsListing(input, blocks);
    LastIsGreatest(blocks);
    assert retained[0] in blocks;
    ranges := GroupAscending(blocks, maxBlockSpan);
  }

  // The greedy pass over the cleaned list.
  method GroupAscending(blocks: seq<nat>, maxBlockSpan: nat) returns (ranges: seq<BlockRange>)
    requires blocks != [] && forall b :: b in blocks ==> b <= blocks[|blocks| - 1]
    ensures ranges == Greedy(blocks, maxBlockSpan)
  {
    var first, last := blocks[0], blocks[|blocks| - 1];
    if |blocks| == 1 {
      return [BlockRange(first, last)];
    }
    ranges := [];
    var start, previous := first, first;
    ghost var whole := Greedy(blocks, maxBlockSpan);
    for i := 1 to |blocks|
      invariant start in blocks && previous == blocks[i - 1]
      invariant whole == ranges + GreedyFrom(start, previous, blocks[i..], maxBlockSpan)
    {
      GreedyUnfolds(start, previous, blocks, i, maxBlockSpan, ranges);
      if SaturatingSub(blocks[i], start) >= maxBlockSpan {
        ranges := ranges + [BlockRange(start, previous)];
        start := blocks[i];
      }
      previous := blocks[i];
    }
    assert blocks[|blocks|..] == [];
    if start <= last {
      ranges := ranges + [BlockRange(start, last)];
    }
  }

  lemma GreedyUnfolds(start: nat, previous: nat, blocks: seq<nat>, i: nat, span: nat, done: seq<BlockRange>)
    requires i < |blocks|
    ensures done + GreedyFrom(start, previous, blocks[i..], span) ==
      if SaturatingSub(blocks[i], start) >= span
      then done + [BlockRange(start, previous)] + GreedyFrom(blocks[i], blocks[i], blocks[i + 1..], span)
      else done + GreedyFrom(start, blocks[i], blocks[i + 1..], span)
  {
    assert blocks[i..][0] == blocks[i] && blocks[i..][1..] == blocks[i + 1..];
  }

  lemma LastIsGreatest(blocks: seq<nat>)
    requires Ascending(blocks)
    ensures forall b :: b in blocks ==> b <= blocks[|blocks| - 1]
  {
  }

  lemma NoElements(input: seq<nat>, retained: seq<nat>)
    requires forall b :: b in retained <==> b in input && b != 0
    requires retained == []
    ensures Listing(NonZero(input)) == []
  {
    assert NonZero(input) == {};
  }

  lemma IsListing(input: seq<nat>, blocks: seq<nat>)
    requires Ascending(blocks)
    requires forall b :: b in blocks <==> b in input && b != 0
    ensures Listing(NonZero(input)) == blocks
  {
    SameElementsSameListing(blocks, Listing(NonZero(input)));
  }

  // ------------------------------------------------------- its specification

  // The ascending listing of a set: the only thing about the input that counts.
  ghost function Listing(s: set<nat>): (r: seq<nat>)
    ensures Ascending(r)
    ensures forall b :: b in r <==> b in s
  {
    if s == {} then [] else
      MaxExists(s);
      var m :| m in s && forall b :: b in s ==> b <= m;
      Listing(s - {m}) + [m]
  }

  lemma MaxExists(s: set<nat>)
    requires s != {}
    ensures exists m :: m in s && forall b :: b in s ==> b <= m
  {
    var x :| x in s;
    if s - {x} == {} {
      assert s == {x};
    } else {
      MaxExists(s - {x});
      var m :| m in s - {x} && forall b :: b in s - {x} ==> b <= m;
      var top := if m < x then x else m;
      forall b | b in s ensures b <= top {
        assert b == x || b in s - {x};
      }
    }
  }

  lemma Nonempty(a: seq<nat>, b: seq<nat>)
    requires forall x :: x in a ==> x in b
    ensures a != [] ==> b != []
  {
    if a != [] { assert a[0] in b; }
  }

  lemma {:induction false} SameElementsSameListing(a: seq<nat>, b: seq<nat>)
    requires Ascending(a) && Ascending(b)
    requires forall x :: x in a <==> x in b
    ensures a == b
  {
    if a == [] {
      Nonempty(b, a);
    } else if b == [] {
      Nonempty(a, b);
    } else {
      assert a[|a| - 1] in b;
      assert b[|b| - 1] in a;
      var a', b' := a[..|a| - 1], b[..|b| - 1];
      forall x ensures x in a' <==> x in b' {
        assert x in a' <==> x in a && x != a[|a| - 1];
        assert x in b' <==> x in b && x != b[|b| - 1];
      }
      SameElementsSameListing(a', b');
      assert a == a' + [a[|a| - 1]] && b == b' + [b[|b| - 1]];
    }
  }

  function Greedy(blocks: seq<nat>, span: nat): seq<BlockRange> {
    if blocks == [] then [] else GreedyFrom(blocks[0], blocks[0], blocks[1..], span)
  }

  // A range open at `start` has reached `previous`; `rest` is still to come.
  function GreedyFrom(start: nat, previous: nat, rest: seq<nat>, span: nat): seq<BlockRange>
    decreases |rest|
  {
    if rest == [] then [BlockRange(start, previous)]
    else if SaturatingSub(rest[0], start) >= span then
      [BlockRange(start, previous)] + GreedyFrom(rest[0], rest[0], rest[1..], span)
    else GreedyFrom(start, rest[0], rest[1..], span)
  }

  // --------------------------------------------------------- what it promises

  predicate Contains(r: BlockRange, b: nat) { r.fromBlock <= b <= r.toBlock }

  function Width(span: nat): nat { if span == 0 then 1 else span }

  ghost predicate Covers(ranges: seq<BlockRange>, blocks: set<nat>) {
    forall b :: b in blocks ==> exists i :: 0 <= i < |ranges| && Contains(ranges[i], b)
  }

  ghost predicate Narrow(ranges: seq<BlockRange>, span: nat) {
    forall i :: 0 <= i < |ranges| ==>
      ranges[i].fromBlock <= ranges[i].toBlock < ranges[i].fromBlock + Width(span)
  }

  ghost predicate Tight(ranges: seq<BlockRange>, blocks: set<nat>) {
    forall i :: 0 <= i < |ranges| ==> ranges[i].fromBlock in blocks && ranges[i].toBlock in blocks
  }

  ghost predicate Disjoint(ranges: seq<BlockRange>) {
    forall i, j :: 0 <= i < j < |ranges| ==> ranges[i].toBlock < ranges[j].fromBlock
  }

  // Consecutive starts are at least a full width apart, so no narrow range
  // can contain two of them.
  ghost predicate StartsApart(ranges: seq<BlockRange>, span: nat) {
    forall i, j :: 0 <= i < j < |ranges| ==> ranges[i].fromBlock + Width(span) <= ranges[j].fromBlock
  }

  ghost predicate IsGrouping(ranges: seq<BlockRange>, blocks: set<nat>, span: nat) {
    && Covers(ranges, blocks) && Tight(ranges, blocks)
    && Disjoint(ranges) && Narrow(ranges, span) && StartsApart(ranges, span)
  }

  lemma {:induction false} GreedyShape(start: nat, previous: nat, rest: seq<nat>, span: nat)
    requires start <= previous < start + Width(span)
    requires Ascending([previous] + rest)
    ensures var g := GreedyFrom(start, previous, rest, span);
      && g != [] && g[0].fromBlock == start && previous <= g[0].toBlock
      && Narrow(g, span) && Disjoint(g) && StartsApart(g, span)
    decreases |rest|
  {
    if rest != [] {
      AscendingTail(previous, rest);
      assert [rest[0]] + rest[1..] == rest;
      if SaturatingSub(rest[0], start) >= span {
        GreedyShape(rest[0], rest[0], rest[1..], span);
        ShapeExtends(BlockRange(start, previous), GreedyFrom(rest[0], rest[0], rest[1..], span), span);
      } else {
        GreedyShape(start, rest[0], rest[1..], span);
      }
    }
  }

  lemma AscendingTail(previous: nat, rest: seq<nat>)
    requires rest != [] && Ascending([previous] + rest)
    ensures previous < rest[0] && Ascending(rest)
  {
    var all := [previous] + rest;
    assert all[0] == previous && all[1] == rest[0];
    assert all[1..] == rest;
  }

  lemma ShapeExtends(r: BlockRange, tail: seq<BlockRange>, span: nat)
    requires tail != [] && Narrow(tail, span) && Disjoint(tail) && StartsApart(tail, span)
    requires r.fromBlock <= r.toBlock < r.fromBlock + Width(span)
    requires r.toBlock < tail[0].fromBlock && r.fromBlock + Width(span) <= tail[0].fromBlock
    ensures var g := [r] + tail; Narrow(g, span) && Disjoint(g) && StartsApart(g, span)
  {
  }

  lemma {:induction false} GreedyEnds(start: nat, previous: nat, rest: seq<nat>, span: nat, i: nat)
    requires i < |GreedyFrom(start, previous, rest, span)|
    ensures var r := GreedyFrom(start, previous, rest, span)[i];
      && (r.fromBlock == start || r.fromBlock in rest)
      && (r.toBlock == previous || r.toBlock in rest)
    decreases |rest|
  {
    if rest == [] {
    } else if SaturatingSub(rest[0], start) >= span {
      if i > 0 { GreedyEnds(rest[0], rest[0], rest[1..], span, i - 1); }
    } else {
      GreedyEnds(start, rest[0], rest[1..], span, i);
    }
  }

  // The index of the range that takes up block `b`.
  lemma {:induction false} GreedyCovers(start: nat, previous: nat, rest: seq<nat>, span: nat, b: nat) returns (i: nat)
    requires start <= previous && Ascending([previous] + rest)
    requires start <= b <= previous || b in rest
    ensures i < |GreedyFrom(start, previous, rest, span)|
    ensures Contains(GreedyFrom(start, previous, rest, span)[i], b)
    decreases |rest|
  {
    i := 0;
    if rest != [] {
      AscendingTail(previous, rest);
      assert [rest[0]] + rest[1..] == rest;
      if SaturatingSub(rest[0], start) >= span {
        if b > previous || b < start { i := GreedyCovers(rest[0], rest[0], rest[1..], span, b); i := i + 1; }
      } else {
        i := GreedyCovers(start, rest[0], rest[1..], span, b);
      }
    }
  }

  /** The ranges cover every nonzero block, are ascending and disjoint, end at
      input blocks and stay narrower than the span limit. */
  lemma GroupingIsACover(input: seq<nat>, span: nat)
    ensures IsGrouping(Greedy(Listing(NonZero(input)), span), NonZero(input), span)
  {
    var blocks := Listing(NonZero(input));
    if blocks != [] {
      GreedyIsTight(blocks, NonZero(input), span);
      GreedyIsComplete(blocks, NonZero(input), span);
      GreedyIsShaped(blocks, span);
    } else {
      assert forall b :: b in NonZero(input) ==> b in blocks;
    }
  }

  lemma GreedyIsShaped(blocks: seq<nat>, span: nat)
    requires blocks != [] && Ascending(blocks)
    ensures var g := Greedy(blocks, span); Narrow(g, span) && Disjoint(g) && StartsApart(g, span)
  {
    assert [blocks[0]] + blocks[1..] == blocks;
    GreedyShape(blocks[0], blocks[0], blocks[1..], span);
  }

  lemma GreedyIsTight(blocks: seq<nat>, s: set<nat>, span: nat)
    requires blocks != [] && forall b :: b in blocks ==> b in s
    ensures Tight(Greedy(blocks, span), s)
  {
    var g := Greedy(blocks, span);
    forall i | 0 <= i < |g| ensures g[i].fromBlock in s && g[i].toBlock in s {
      GreedyEnds(blocks[0], blocks[0], blocks[1..], span, i);
      assert g[i].fromBlock in blocks && g[i].toBlock in blocks;
    }
  }

  lemma GreedyIsComplete(blocks: seq<nat>, s: set<nat>, span: nat)
    requires blocks != [] && Ascending(blocks) && forall b :: b in s ==> b in blocks
    ensures Covers(Greedy(blocks, span), s)
  {
    var g := Greedy(blocks, span);
    assert [blocks[0]] + blocks[1..] == blocks;
    forall b | b in s ensures exists i :: 0 <= i < |g| && Contains(g[i], b) {
      var i := GreedyCovers(blocks[0], blocks[0], blocks[1..], span, b);
      assert Contains(g[i], b);
    }
  }

  /** No cover by ranges under the span limit, wherever its ranges end, is shorter. */
  lemma GroupingIsOptimal(input: seq<nat>, span: nat, cover: seq<BlockRange>)
    requires Narrow(cover, span) && Covers(cover, NonZero(input))
    ensures |Greedy(Listing(NonZero(input)), span)| <= |cover|
  {
    GroupingIsACover(input, span);
    OneRangePerStart(Greedy(Listing(NonZero(input)), span), NonZero(input), cover, span);
  }

  lemma OneRangePerStart(g: seq<BlockRange>, blocks: set<nat>, cover: seq<BlockRange>, span: nat)
    requires StartsApart(g, span) && Tight(g, blocks)
    requires Narrow(cover, span) && Covers(cover, blocks)
    ensures |g| <= |cover|
  {
    Starts(g, span);
    forall b | b in StartSet(g) ensures b in blocks {
      var i := StartOrigin(g, b);
    }
    Pigeonhole(StartSet(g), cover, span);
  }

  function StartSet(g: seq<BlockRange>): set<nat> {
    if g == [] then {} else StartSet(g[..|g| - 1]) + {g[|g| - 1].fromBlock}
  }

  lemma {:induction false} StartOrigin(g: seq<BlockRange>, b: nat) returns (i: nat)
    requires b in StartSet(g)
    ensures i < |g| && g[i].fromBlock == b
  {
    i := |g| - 1;
    if b != g[i].fromBlock { i := StartOrigin(g[..|g| - 1], b); }
  }

  // The starts are one each, and a full width apart.
  lemma {:induction false} Starts(g: seq<BlockRange>, span: nat)
    requires StartsApart(g, span)
    ensures |StartSet(g)| == |g| && Apart(StartSet(g), span)
  {
    if g != [] {
      var h, last := g[..|g| - 1], g[|g| - 1].fromBlock;
      Starts(h, span);
      forall b | b in StartSet(h) ensures b + Width(span) <= last {
        var i := StartOrigin(h, b);
      }
    }
  }

  ghost predicate Apart(points: set<nat>, span: nat) {
    forall a, b :: a in points && b in points && a < b ==> a + Width(span) <= b
  }

  // Points a full width apart need one narrow range each.
  lemma {:induction false} Pigeonhole(points: set<nat>, cover: seq<BlockRange>, span: nat)
    requires Narrow(cover, span) && Covers(cover, points) && Apart(points, span)
    ensures |points| <= |cover|
    decreases |cover|
  {
    if cover == [] {
      assert forall p :: p !in points;
      assert points == {};
    } else {
      var last, others := cover[|cover| - 1], cover[..|cover| - 1];
      var hit := set p | p in points && Contains(last, p);
      AtMostOne(hit, last, span);
      OthersCover(points, cover);
      Pigeonhole(points - hit, others, span);
      assert points == points - hit + hit;
    }
  }

  lemma OthersCover(points: set<nat>, cover: seq<BlockRange>)
    requires cover != [] && Covers(cover, points)
    ensures Covers(cover[..|cover| - 1], points - set p | p in points && Contains(cover[|cover| - 1], p))
  {
    var last, others := cover[|cover| - 1], cover[..|cover| - 1];
    forall b | b in points && !Contains(last, b) ensures exists i :: 0 <= i < |others| && Contains(others[i], b) {
      var i :| 0 <= i < |cover| && Contains(cover[i], b);
      assert others[i] == cover[i];
    }
  }

  lemma AtMostOne(hit: set<nat>, r: BlockRange, span: nat)
    requires Apart(hit, span) && r.toBlock < r.fromBlock + Width(span)
    requires forall p :: p in hit ==> Contains(r, p)
    ensures |hit| <= 1
  {
    if hit != {} {
      var p :| p in hit;
      assert forall q :: q in hit ==> q == p;
      assert hit == {p};
    }
  }

  /** Order and repetition of the input do not matter. */
  lemma GroupingDependsOnSet(a: seq<nat>, b: seq<nat>, span: nat)
    requires forall x :: x != 0 ==> (x in a <==> x in b)
    ensures Greedy(Listing(NonZero(a)), span) == Greedy(Listing(NonZero(b)), span)
  {
    assert NonZero(a) == NonZero(b);
  }
}

/** orderbook/src/pricing/computation.rs in exact arithmetic: the weighted mid
    price of the retained samples and the realized volatility of its history. */
module MarketData {
  import opened Common

  datatype Sample = Sample(
    mid: real, bestBid: real, bestAsk: real, bidDepthUsd: real, askDepthUsd: real, weight: real, isCex: bool)

  datatype Snapshot = Snapshot(
    vwmp: real, bestBid: real, bestAsk: real, bidDepthUsd: real, askDepthUsd: real, activeVenueCount: nat,
    stalenessOk: bool, aggregatorOnly: bool)

  // ----------------------------------------------------------------- the folds

  function WeightedSum(samples: seq<Sample>): real {
    if samples == [] then 0.0 else samples[0].mid * samples[0].weight + WeightedSum(samples[1..])
  }

  function WeightSum(samples: seq<Sample>): real {
    if samples == [] then 0.0 else samples[0].weight + WeightSum(samples[1..])
  }

  function Cex(samples: seq<Sample>): seq<Sample> {
    if samples == [] then []
    else if samples[0].isCex then [samples[0]] + Cex(samples[1..])
    else Cex(samples[1..])
  }

  // The largest positive bid, or zero.
  function BestBid(samples: seq<Sample>): real {
    if samples == [] then 0.0
    else
      var rest := BestBid(samples[1..]);
      if samples[0].bestBid > 0.0 && samples[0].bestBid > rest then samples[0].bestBid else rest
  }

  // The smallest positive ask, or zero.
  function BestAsk(samples: seq<Sample>): real {
    if samples == [] then 0.0
    else
      var rest := BestAsk(samples[1..]);
      if samples[0].bestAsk > 0.0 && (rest == 0.0 || samples[0].bestAsk < rest) then samples[0].bestAsk else rest
  }

  function BidDepth(samples: seq<Sample>): real {
    if samples == [] then 0.0 else samples[0].bidDepthUsd + BidDepth(samples[1..])
  }

  function AskDepth(samples: seq<Sample>): real {
    if samples == [] then 0.0 else samples[0].askDepthUsd + AskDepth(samples[1..])
  }

  function Mean(weightedSum: real, weightSum: real): real
    requires weightSum != 0.0
  {
    weightedSum / weightSum
  }

  // What the snapshot takes from the exchange samples.
  datatype Quotes = Quotes(bestBid: real, bestAsk: real, bidDepthUsd: real, askDepthUsd: real, none: bool)

  function QuotesOf(cex: seq<Sample>): Quotes {
    Quotes(BestBid(cex), BestAsk(cex), BidDepth(cex), AskDepth(cex), cex == [])
  }

  function Snap(weightedSum: real, weightSum: real, quotes: Quotes, venues: nat,
                minActiveVenues: nat): Option<Snapshot> {
    if venues == 0 || weightSum <= 0.0 then None
    else Some(Snapshot(
      Mean(weightedSum, weightSum), quotes.bestBid, quotes.bestAsk, quotes.bidDepthUsd, quotes.askDepthUsd,
      if venues <= 255 then venues else 255, venues >= minActiveVenues, quotes.none))
  }

  // `snapshot_from_samples`; the venue count saturates at 255.
  function SnapshotFromSamples(samples: seq<Sample>, minActiveVenues: nat): Option<Snapshot> {
    Snap(WeightedSum(samples), WeightSum(samples), QuotesOf(Cex(samples)), |samples|, minActiveVenues)
  }

  /** The quotes are the largest positive bid and the smallest positive ask, zero
      where there is none. */
  lemma {:induction false} QuotesAreBest(samples: seq<Sample>)
    ensures forall i :: 0 <= i < |samples| && samples[i].bestBid > 0.0 ==> samples[i].bestBid <= BestBid(samples)
    ensures BestBid(samples) == 0.0 || exists i :: 0 <= i < |samples| && samples[i].bestBid == BestBid(samples) > 0.0
    ensures forall i :: 0 <= i < |samples| && samples[i].bestAsk > 0.0 ==> 0.0 < BestAsk(samples) <= samples[i].bestAsk
    ensures BestAsk(samples) == 0.0 || exists i :: 0 <= i < |samples| && samples[i].bestAsk == BestAsk(samples) > 0.0
  {
    if samples != [] {
      var rest := samples[1..];
      QuotesAreBest(rest);
      if i :| 0 <= i < |rest| && rest[i].bestBid == BestBid(rest) > 0.0 { assert samples[i + 1] == rest[i]; }
      if i :| 0 <= i < |rest| && rest[i].bestAsk == BestAsk(rest) > 0.0 { assert samples[i + 1] == rest[i]; }
      forall i | 0 < i < |samples| ensures samples[i] == rest[i - 1] {}
    }
  }

  /** A snapshot counts the samples up to 255 and compares all of them with the least
      number of venues. */
  lemma VenuesCounted(samples: seq<Sample>, minActiveVenues: nat)
    ensures SnapshotFromSamples(samples, minActiveVenues).Some? <==> WeightSum(samples) > 0.0
    ensures WeightSum(samples) > 0.0 ==>
      var snapshot := SnapshotFromSamples(samples, minActiveVenues).value;
      && snapshot.activeVenueCount == (if |samples| > 255 then 255 else |samples|)
      && (snapshot.stalenessOk <==> minActiveVenues <= |samples|)
  {
  }

  const VENUES := [
    Sample(10.0, 9.0, 11.0, 100.0, 200.0, 1.0, true),
    Sample(20.0, 19.0, 21.0, 5.0, 7.0, 3.0, false),
    Sample(12.0, 11.5, 12.5, 50.0, 60.0, 1.0, true)]

  /** Two exchanges and an aggregator: the mean is over all three, the quotes and
      depths over the exchanges. */
  lemma ThreeVenues()
    ensures SnapshotFromSamples(VENUES, 3) == Some(Snapshot(16.4, 11.5, 11.0, 150.0, 260.0, 3, true, false))
    ensures SnapshotFromSamples(VENUES, 4) == Some(Snapshot(16.4, 11.5, 11.0, 150.0, 260.0, 3, false, false))
    ensures SnapshotFromSamples([VENUES[1]], 1) == Some(Snapshot(20.0, 0.0, 0.0, 0.0, 0.0, 1, true, true))
    ensures SnapshotFromSamples([], 0) == None
    ensures SnapshotFromSamples([VENUES[1].(weight := 0.0)], 1) == None
  {
    var a, b, c := VENUES[0], VENUES[1], VENUES[2];
    assert VENUES[1..] == [b, c] && [b, c][1..] == [c] && [c][1..] == [] && [a, c][1..] == [c] && [b][1..] == [];
    assert [b.(weight := 0.0)][1..] == [];
    assert Cex([c]) == [c] && Cex([b, c]) == [c] && Cex(VENUES) == [a] + [c] && [a] + [c] == [a, c];
  }

  // ---------------------------------------------------------------- convexity

  ghost predicate Weighted(samples: seq<Sample>) {
    forall i :: 0 <= i < |samples| ==> samples[i].weight >= 0.0
  }

  ghost predicate MidsWithin(samples: seq<Sample>, low: real, high: real) {
    forall i :: 0 <= i < |samples| ==> low <= samples[i].mid <= high
  }

  lemma ScaledBounds(mid: real, weight: real, low: real, high: real)
    requires weight >= 0.0 && low <= mid <= high
    ensures low * weight <= mid * weight <= high * weight
  {
  }

  lemma {:induction false} SumBounds(samples: seq<Sample>, low: real, high: real)
    requires Weighted(samples) && MidsWithin(samples, low, high)
    ensures low * WeightSum(samples) <= WeightedSum(samples) <= high * WeightSum(samples)
  {
    if samples != [] {
      var s, rest := samples[0], samples[1..];
      SumBounds(rest, low, high);
      ScaledBounds(s.mid, s.weight, low, high);
      Distribute(low, s.weight, WeightSum(rest));
      Distribute(high, s.weight, WeightSum(rest));
      Sandwich(s.mid * s.weight, WeightedSum(rest), low * s.weight, low * WeightSum(rest), high * s.weight,
        high * WeightSum(rest));
    } else {
      Zero(low);
      Zero(high);
    }
  }

  lemma Zero(x: real)
    ensures x * 0.0 == 0.0
  {
  }

  lemma Distribute(x: real, a: real, b: real)
    ensures x * (a + b) == x * a + x * b
  {
  }

  lemma Sandwich(x: real, y: real, a: real, b: real, c: real, d: real)
    requires a <= x <= c && b <= y <= d
    ensures a + b <= x + y <= c + d
  {
  }

  lemma DivideBounds(x: real, w: real, low: real, high: real)
    requires w > 0.0 && low * w <= x <= high * w
    ensures low <= Mean(x, w) <= high
  {
    var q := Mean(x, w);
    assert q * w == x;
    OrderByProduct(low, q, w);
    OrderByProduct(q, high, w);
  }

  lemma OrderByProduct(x: real, y: real, w: real)
    requires w > 0.0
    ensures x * w <= y * w <==> x <= y
  {
    Distribute(w, y - x, x);
    if x <= y { assert w * (y - x) >= 0.0; } else { assert w * (x - y) > 0.0; }
  }

  /** The weighted mid lies between any bounds on the mids, so between the
      smallest and the largest of them. */
  lemma VwmpIsBetween(samples: seq<Sample>, minActiveVenues: nat, low: real, high: real)
    requires Weighted(samples) && MidsWithin(samples, low, high)
    requires SnapshotFromSamples(samples, minActiveVenues).Some?
    ensures low <= SnapshotFromSamples(samples, minActiveVenues).value.vwmp <= high
  {
    SumBounds(samples, low, high);
    DivideBounds(WeightedSum(samples), WeightSum(samples), low, high);
  }

  function Abs(x: real): real { if x < 0.0 then -x else x }

  // `within_outlier_threshold`
  predicate WithinOutlierThreshold(mid: real, median: real, thresholdPct: real) {
    if median == 0.0 then mid == 0.0 else Ratio(Abs(mid - median), Abs(median)) <= thresholdPct / 100.0
  }

  function Ratio(x: real, y: real): real
    requires y > 0.0
  {
    x / y
  }

  lemma RatioAtMost(x: real, y: real, t: real)
    requires y > 0.0
    ensures Ratio(x, y) <= t <==> x <= t * y
  {
    var q := Ratio(x, y);
    assert q * y == x;
    OrderByProduct(q, t, y);
  }

  // The samples the filter keeps are those in an interval around the median.
  function Reach(median: real, thresholdPct: real): real { thresholdPct / 100.0 * Abs(median) }

  lemma ThresholdIsInterval(mid: real, median: real, thresholdPct: real)
    requires median != 0.0
    ensures WithinOutlierThreshold(mid, median, thresholdPct) <==>
      median - Reach(median, thresholdPct) <= mid <= median + Reach(median, thresholdPct)
  {
    RatioAtMost(Abs(mid - median), Abs(median), thresholdPct / 100.0);
  }

  ghost predicate AllWithin(samples: seq<Sample>, median: real, thresholdPct: real) {
    forall i :: 0 <= i < |samples| ==> WithinOutlierThreshold(samples[i].mid, median, thresholdPct)
  }

  /** When every retained sample passes the outlier filter, so does the mean. */
  lemma VwmpPassesFilter(samples: seq<Sample>, minActiveVenues: nat, median: real, thresholdPct: real)
    requires Weighted(samples) && AllWithin(samples, median, thresholdPct)
    requires SnapshotFromSamples(samples, minActiveVenues).Some?
    ensures WithinOutlierThreshold(SnapshotFromSamples(samples, minActiveVenues).value.vwmp, median, thresholdPct)
  {
    if median == 0.0 {
      VwmpIsBetween(samples, minActiveVenues, 0.0, 0.0);
    } else {
      var reach := Reach(median, thresholdPct);
      forall i | 0 <= i < |samples| ensures median - reach <= samples[i].mid <= median + reach {
        ThresholdIsInterval(samples[i].mid, median, thresholdPct);
      }
      VwmpIsBetween(samples, minActiveVenues, median - reach, median + reach);
      ThresholdIsInterval(SnapshotFromSamples(samples, minActiveVenues).value.vwmp, median, thresholdPct);
    }
  }

  // ------------------------------------------------------------------- scaling

  function Reweigh(s: Sample, k: real): Sample { s.(weight := k * s.weight) }

  function Scaled(samples: seq<Sample>, k: real): seq<Sample> {
    if samples == [] then [] else [Reweigh(samples[0], k)] + Scaled(samples[1..], k)
  }

  lemma {:induction false} ScaledSums(samples: seq<Sample>, k: real)
    ensures |Scaled(samples, k)| == |samples|
    ensures WeightSum(Scaled(samples, k)) == k * WeightSum(samples)
    ensures WeightedSum(Scaled(samples, k)) == k * WeightedSum(samples)
  {
    if samples == [] {
      Zero(k);
    } else {
      var s, rest := samples[0], samples[1..];
      ScaledSums(rest, k);
      MidOut(k, s.mid, s.weight);
      Distribute(k, s.weight, WeightSum(rest));
      Distribute(k, s.mid * s.weight, WeightedSum(rest));
    }
  }

  lemma MidOut(k: real, mid: real, weight: real)
    ensures mid * (k * weight) == k * (mid * weight)
  {
  }

  lemma ScaledCons(s: Sample, rest: seq<Sample>, k: real)
    ensures Scaled([s] + rest, k) == [Reweigh(s, k)] + Scaled(rest, k)
  {
    assert ([s] + rest)[0] == s && ([s] + rest)[1..] == rest;
  }

  lemma CexCons(s: Sample, rest: seq<Sample>)
    ensures Cex([s] + rest) == (if s.isCex then [s] else []) + Cex(rest)
  {
    assert ([s] + rest)[1..] == rest;
  }

  // Everything the snapshot takes from the exchange samples ignores weights.
  lemma {:induction false} ScaledCex(samples: seq<Sample>, k: real)
    ensures Cex(Scaled(samples, k)) == Scaled(Cex(samples), k)
  {
    if samples != [] {
      var s, rest := samples[0], samples[1..];
      ScaledCex(rest, k);
      assert samples == [s] + rest;
      ScaledCons(s, rest, k);
      CexCons(s, rest);
      CexCons(Reweigh(s, k), Scaled(rest, k));
      if s.isCex { ScaledCons(s, Cex(rest), k); }
    }
  }

  lemma {:induction false} ScaledQuotes(samples: seq<Sample>, k: real)
    ensures BestBid(Scaled(samples, k)) == BestBid(samples) && BestAsk(Scaled(samples, k)) == BestAsk(samples)
    ensures BidDepth(Scaled(samples, k)) == BidDepth(samples) && AskDepth(Scaled(samples, k)) == AskDepth(samples)
    ensures Scaled(samples, k) == [] <==> samples == []
  {
    if samples != [] { ScaledQuotes(samples[1..], k); }
  }

  lemma MeanScales(x: real, w: real, k: real)
    requires w > 0.0 && k > 0.0
    ensures k * w > 0.0 && Mean(k * x, k * w) == Mean(x, w)
  {
    var q := Mean(x, w);
    assert q * w == x;
    MidOut(k, q, w);
    assert q * (k * w) == k * x;
  }

  lemma PositiveScales(w: real, k: real)
    requires k > 0.0
    ensures k * w > 0.0 <==> w > 0.0
  {
    Zero(k);
    OrderByProduct(w, 0.0, k);
  }

  lemma SnapScales(x': real, w': real, x: real, w: real, k: real, quotes: Quotes, venues: nat, minActiveVenues: nat)
    requires k > 0.0 && x' == k * x && w' == k * w
    ensures Snap(x', w', quotes, venues, minActiveVenues) == Snap(x, w, quotes, venues, minActiveVenues)
  {
    PositiveScales(w, k);
    if w > 0.0 { MeanScales(x, w, k); }
  }

  lemma QuotesIgnoreScale(samples: seq<Sample>, k: real)
    ensures QuotesOf(Cex(Scaled(samples, k))) == QuotesOf(Cex(samples))
  {
    ScaledCex(samples, k);
    ScaledQuotes(Cex(samples), k);
  }

  /** A common factor on the weights changes nothing in the snapshot. */
  lemma WeightScaleIrrelevant(samples: seq<Sample>, minActiveVenues: nat, k: real)
    requires k > 0.0
    ensures SnapshotFromSamples(Scaled(samples, k), minActiveVenues) == SnapshotFromSamples(samples, minActiveVenues)
  {
    var scaled := Scaled(samples, k);
    ScaledSums(samples, k);
    QuotesIgnoreScale(samples, k);
    SnapScales(WeightedSum(scaled), WeightSum(scaled), WeightedSum(samples), WeightSum(samples), k,
               QuotesOf(Cex(samples)), |samples|, minActiveVenues);
  }

  // --------------------------------------------------------------------- order

  // Moving one sample to the front.
  lemma {:induction false} FrontSums(samples: seq<Sample>, i: nat)
    requires i < |samples|
    ensures WeightSum(samples) == samples[i].weight + WeightSum(samples[..i] + samples[i + 1..])
    ensures WeightedSum(samples) == samples[i].mid * samples[i].weight + WeightedSum(samples[..i] + samples[i + 1..])
  {
    if i > 0 {
      FrontSums(samples[1..], i - 1);
      Without(samples, i);
    } else {
      assert samples[..0] + samples[1..] == samples[1..];
    }
  }

  lemma Without(samples: seq<Sample>, i: nat)
    requires 0 < i < |samples|
    ensures var rest := samples[..i] + samples[i + 1..];
      rest[0] == samples[0] && rest[1..] == samples[1..][..i - 1] + samples[1..][i..]
  {
  }

  lemma {:induction false} FrontQuotes(samples: seq<Sample>, i: nat)
    requires i < |samples|
    ensures var rest := samples[..i] + samples[i + 1..];
      && BestBid(samples) == BestBid([samples[i]] + rest) && BestAsk(samples) == BestAsk([samples[i]] + rest)
      && BidDepth(samples) == samples[i].bidDepthUsd + BidDepth(rest)
      && AskDepth(samples) == samples[i].askDepthUsd + AskDepth(rest)
  {
    var rest := samples[..i] + samples[i + 1..];
    assert ([samples[i]] + rest)[1..] == rest;
    if i > 0 {
      FrontQuotes(samples[1..], i - 1);
      Without(samples, i);
      var inner := samples[1..][..i - 1] + samples[1..][i..];
      assert ([samples[i]] + inner)[1..] == inner;
    } else {
      assert samples[..0] + samples[1..] == samples[1..];
    }
  }

  lemma {:induction false} FrontCex(samples: seq<Sample>, i: nat)
    requires i < |samples|
    ensures multiset(Cex(samples)) == multiset(Cex(samples[..i] + samples[i + 1..]))
      + (if samples[i].isCex then multiset{samples[i]} else multiset{})
  {
    if i > 0 {
      FrontCex(samples[1..], i - 1);
      Without(samples, i);
    } else {
      assert samples[..0] + samples[1..] == samples[1..];
    }
  }

  lemma RemoveAt(b: seq<Sample>, i: nat)
    requires i < |b|
    ensures multiset(b) == multiset{b[i]} + multiset(b[..i] + b[i + 1..])
  {
    assert b == b[..i] + ([b[i]] + b[i + 1..]);
  }

  lemma Cancel(x: Sample, a: multiset<Sample>, b: multiset<Sample>)
    requires multiset{x} + a == multiset{x} + b
    ensures a == b
  {
    assert a == (multiset{x} + a) - multiset{x};
  }

  // The front of one list, found in the other.
  lemma FindFront(a: seq<Sample>, b: seq<Sample>) returns (i: nat)
    requires a != [] && multiset(a) == multiset(b)
    ensures i < |b| && b[i] == a[0] && multiset(a[1..]) == multiset(b[..i] + b[i + 1..])
  {
    assert a[0] in multiset(a);
    i :| 0 <= i < |b| && b[i] == a[0];
    RemoveAt(b, i);
    RemoveAt(a, 0);
    assert a[..0] + a[1..] == a[1..];
    Cancel(a[0], multiset(a[1..]), multiset(b[..i] + b[i + 1..]));
  }

  lemma {:induction false} SumsIgnoreOrder(a: seq<Sample>, b: seq<Sample>)
    requires multiset(a) == multiset(b)
    ensures WeightSum(a) == WeightSum(b) && WeightedSum(a) == WeightedSum(b)
    decreases |a|
  {
    if a == [] {
      assert |multiset(b)| == 0;
    } else {
      var i := FindFront(a, b);
      SumsIgnoreOrder(a[1..], b[..i] + b[i + 1..]);
      FrontSums(b, i);
    }
  }

  lemma {:induction false} CexIgnoresOrder(a: seq<Sample>, b: seq<Sample>)
    requires multiset(a) == multiset(b)
    ensures multiset(Cex(a)) == multiset(Cex(b))
    decreases |a|
  {
    if a == [] {
      assert |multiset(b)| == 0;
    } else {
      var i := FindFront(a, b);
      CexIgnoresOrder(a[1..], b[..i] + b[i + 1..]);
      FrontCex(b, i);
      FrontCex(a, 0);
      assert a[..0] + a[1..] == a[1..];
    }
  }

  lemma {:induction false} QuotesIgnoreOrder(a: seq<Sample>, b: seq<Sample>)
    requires multiset(a) == multiset(b)
    ensures QuotesOf(a) == QuotesOf(b)
    decreases |a|
  {
    if a == [] {
      assert |multiset(b)| == 0;
    } else {
      var i := FindFront(a, b);
      var rest := b[..i] + b[i + 1..];
      QuotesIgnoreOrder(a[1..], rest);
      FrontQuotes(b, i);
      assert ([b[i]] + rest)[1..] == rest;
      assert b != [];
    }
  }

  /** The order of the samples changes nothing in the snapshot. */
  lemma OrderIrrelevant(a: seq<Sample>, b: seq<Sample>, minActiveVenues: nat)
    requires multiset(a) == multiset(b)
    ensures SnapshotFromSamples(a, minActiveVenues) == SnapshotFromSamples(b, minActiveVenues)
  {
    SumsIgnoreOrder(a, b);
    CexIgnoresOrder(a, b);
    assert |multiset(a)| == |multiset(b)|;
    QuotesIgnoreOrder(Cex(a), Cex(b));
  }

  // ---------------------------------------------------------------- volatility

  function Return(prev: real, price: real): real
    requires prev > 0.0
  {
    (price - prev) / prev
  }

  // The returns of the steps that start from a positive price.
  function Returns(prices: seq<real>): seq<real> {
    if |prices| < 2 then []
    else
      var n := |prices| - 1;
      Returns(prices[..n]) + (if prices[n - 1] <= 0.0 then [] else [Return(prices[n - 1], prices[n])])
  }

  function Sum(xs: seq<real>): real {
    if xs == [] then 0.0 else Sum(xs[..|xs| - 1]) + xs[|xs| - 1]
  }

  function Times(x: real, y: real): real { x * y }

  function Square(x: real): real { Times(x, x) }

  function SumSquares(xs: seq<real>, mean: real): real {
    if xs == [] then 0.0 else SumSquares(xs[..|xs| - 1], mean) + Square(xs[|xs| - 1] - mean)
  }

  function Average(xs: seq<real>): real
    requires xs != []
  {
    Sum(xs) / |xs| as real
  }

  // The spread of the returns around their mean.
  function Spread(xs: seq<real>): real
    requires xs != []
  {
    SumSquares(xs, Average(xs))
  }

  /** The spread is never negative, and zero exactly when all returns equal the mean. */
  lemma {:induction false} SpreadIsZero(xs: seq<real>, mean: real)
    ensures SumSquares(xs, mean) >= 0.0
    ensures SumSquares(xs, mean) == 0.0 <==> forall i :: 0 <= i < |xs| ==> xs[i] == mean
  {
    if xs != [] {
      var n := |xs| - 1;
      SpreadIsZero(xs[..n], mean);
      SquareIsZero(xs[n] - mean);
    }
  }

  lemma SquareIsZero(x: real)
    ensures Square(x) >= 0.0 && (Square(x) == 0.0 <==> x == 0.0)
  {
    if x > 0.0 {
      PositiveProduct(x, x);
    } else if x < 0.0 {
      var y := -x;
      PositiveProduct(y, y);
      SquareOfOpposite(x, y);
      assert Square(y) > 0.0;
    }
  }

  lemma SquareOfOpposite(x: real, y: real)
    requires y == -x
    ensures Square(x) == Square(y)
  {
  }

  lemma SingleAverage(x: real)
    ensures Average([x]) == x
  {
    assert [x][..0] == [];
    assert Sum([x]) == x;
  }

  /** A single return has no spread, so whenever the variance is divided there
      are at least two returns and the divisor is not zero. */
  lemma DivisorIsPositive(xs: seq<real>)
    requires xs != [] && Spread(xs) != 0.0
    ensures |xs| - 1 >= 1
  {
    if |xs| == 1 {
      assert xs == [xs[0]];
      SingleAverage(xs[0]);
      SpreadIsZero(xs, Average(xs));
    }
  }

  // What the square root of Decimal and the yearly factor give, if anything.
  datatype Settings = Settings(sqrt: real -> Option<real>, annualization: Option<real>)

  function Volatility(prices: seq<real>, settings: Settings): Option<real> {
    var growth := Returns(prices);
    if |prices| < 2 || growth == [] then None
    else if Spread(growth) == 0.0 then Some(0.0)
    else Annualized(Variance(growth), settings)
  }

  function Variance(xs: seq<real>): real
    requires xs != [] && Spread(xs) != 0.0
  {
    DivisorIsPositive(xs);
    Spread(xs) / (|xs| - 1) as real
  }

  function Annualized(variance: real, settings: Settings): Option<real> {
    var root := settings.sqrt(variance);
    var stddev := if root.Some? then root.value else 0.0;
    if stddev <= 0.0 then Some(0.0)
    else if settings.annualization.None? then None
    else Some(Times(stddev, settings.annualization.value))
  }

  /** `compute_realized_volatility` */
  method ComputeRealizedVolatility(prices: seq<real>, settings: Settings) returns (r: Option<real>)
    ensures r == Volatility(prices, settings)
  {
    if |prices| < 2 { return None; }
    var growth := [];
    for index := 1 to |prices|
      invariant growth == Returns(prices[..index])
    {
      var prev := prices[index - 1];
      assert prices[..index + 1][..index] == prices[..index];
      if prev <= 0.0 { continue; }
      growth := growth + [Return(prev, prices[index])];
    }
    assert prices[..|prices|] == prices;
    if growth == [] { return None; }
    if Spread(growth) == 0.0 { return Some(0.0); }
    DivisorIsPositive(growth);
    r := Annualized(Spread(growth) / (|growth| - 1) as real, settings);
  }

  const PRICES := [0.0, 100.0, 110.0, 88.0, 96.8]

  /** Prices from 100 up by a tenth, down by a fifth and up by a tenth, after one of
      zero, which is skipped: the variance of the three returns is 0.03. */
  lemma ThreeReturns(settings: Settings)
    ensures var v, root := Volatility(PRICES, settings), settings.sqrt(0.03);
      && (root.None? || root.value <= 0.0 ==> v == Some(0.0))
      && (root.Some? && root.value > 0.0 ==>
            v == match settings.annualization
                 case None => None
                 case Some(factor) => Some(Times(root.value, factor)))
  {
    ReturnsOfPrices();
    VarianceOfReturns([0.1, -0.2, 0.1]);
  }

  lemma ReturnsOfPrices()
    ensures Returns(PRICES) == [0.1, -0.2, 0.1]
  {
    assert PRICES[..4] == [0.0, 100.0, 110.0, 88.0] && PRICES[..4][..3] == [0.0, 100.0, 110.0];
    assert PRICES[..4][..3][..2] == [0.0, 100.0] && [0.0, 100.0][..1] == [0.0];
    assert Returns([0.0, 100.0]) == [] && Returns(PRICES[..4][..3]) == [0.1];
    assert Returns(PRICES[..4]) == [0.1, -0.2];
  }

  lemma VarianceOfReturns(xs: seq<real>)
    requires xs == [0.1, -0.2, 0.1]
    ensures Spread(xs) == 0.06 && Variance(xs) == 0.03
  {
    assert xs[..2] == [0.1, -0.2] && xs[..2][..1] == [0.1] && [0.1][..0] == [];
    assert Sum([0.1]) == 0.1 && Sum(xs[..2]) == -0.1 && Average(xs) == 0.0;
    assert SumSquares([0.1], 0.0) == 0.01 && SumSquares(xs[..2], 0.0) == 0.05;
  }

  lemma {:induction false} ConstantAverage(xs: seq<real>, c: real)
    requires forall i :: 0 <= i < |xs| ==> xs[i] == c
    ensures Sum(xs) == c * |xs| as real
  {
    if xs == [] {
      Zero(c);
    } else {
      var n := |xs| - 1;
      ConstantAverage(xs[..n], c);
      Distribute(c, n as real, 1.0);
    }
  }

  ghost predicate Constant(xs: seq<real>) {
    forall i :: 0 <= i < |xs| ==> xs[i] == xs[0]
  }

  lemma AverageOfConstant(xs: seq<real>)
    requires xs != [] && Constant(xs)
    ensures Average(xs) == xs[0]
  {
    ConstantAverage(xs, xs[0]);
    var n, q := |xs| as real, Average(xs);
    assert q * n == xs[0] * n;
    OrderByProduct(q, xs[0], n);
    OrderByProduct(xs[0], q, n);
  }

  lemma PositiveVariance(xs: seq<real>)
    requires xs != [] && Spread(xs) != 0.0
    ensures Variance(xs) > 0.0
  {
    DivisorIsPositive(xs);
    SpreadIsZero(xs, Average(xs));
    var v, n := Variance(xs), (|xs| - 1) as real;
    assert v * n == Spread(xs);
    if v <= 0.0 { OrderByProduct(v, 0.0, n); }
  }

  // The deviation the annualization would be applied to, if there is one.
  predicate Deviates(prices: seq<real>, settings: Settings) {
    var xs := Returns(prices);
    xs != [] && Spread(xs) != 0.0 && settings.sqrt(Variance(xs)).Some? && settings.sqrt(Variance(xs)).value > 0.0
  }

  /** There is a volatility exactly when some step starts from a positive price and
      the yearly factor is not both needed and missing. It is never negative. It
      is zero exactly when all returns are the same or the square root of their
      variance, which is then positive, is missing or not positive. */
  lemma ZeroVolatility(prices: seq<real>, settings: Settings)
    requires settings.annualization.Some? ==> settings.annualization.value > 0.0
    ensures Volatility(prices, settings).Some? <==>
      Returns(prices) != [] && (Deviates(prices, settings) ==> settings.annualization.Some?)
    ensures Volatility(prices, settings).Some? ==>
      var v := Volatility(prices, settings).value;
      v >= 0.0 && (v == 0.0 <==> !Deviates(prices, settings))
    ensures Returns(prices) != [] ==> (Spread(Returns(prices)) == 0.0 <==> Constant(Returns(prices)))
    ensures Returns(prices) != [] && Spread(Returns(prices)) != 0.0 ==> Variance(Returns(prices)) > 0.0
  {
    var xs := Returns(prices);
    if xs != [] {
      SpreadIsZero(xs, Average(xs));
      if Constant(xs) { AverageOfConstant(xs); }
      if Spread(xs) != 0.0 { PositiveVariance(xs); }
      if Deviates(prices, settings) && settings.annualization.Some? {
        PositiveProduct(settings.sqrt(Variance(xs)).value, settings.annualization.value);
      }
    }
  }

  lemma PositiveProduct(x: real, y: real)
    requires x > 0.0 && y > 0.0
    ensures x * y > 0.0 && Times(x, y) > 0.0
  {
  }

  function Multiplied(prices: seq<real>, k: real): (r: seq<real>)
    ensures |r| == |prices|
  {
    if prices == [] then [] else Multiplied(prices[..|prices| - 1], k) + [Times(k, prices[|prices| - 1])]
  }

  lemma ReturnScales(prev: real, price: real, k: real)
    requires prev > 0.0 && k > 0.0
    ensures Times(k, prev) > 0.0 && Return(Times(k, prev), Times(k, price)) == Return(prev, price)
  {
    PositiveProduct(k, prev);
    Distribute(k, price, -prev);
    MeanScales(price - prev, prev, k);
  }

  lemma StepScales(prev: real, price: real, k: real)
    requires k > 0.0
    ensures Times(k, prev) <= 0.0 <==> prev <= 0.0
    ensures prev > 0.0 ==> Return(Times(k, prev), Times(k, price)) == Return(prev, price)
  {
    PositiveScales(prev, k);
    if prev > 0.0 { ReturnScales(prev, price, k); }
  }

  lemma {:induction false} ReturnsScale(prices: seq<real>, k: real)
    requires k > 0.0
    ensures Returns(Multiplied(prices, k)) == Returns(prices)
    decreases |prices|
  {
    if |prices| >= 2 {
      var n := |prices| - 1;
      var init, scaled := Multiplied(prices[..n], k), Multiplied(prices, k);
      ReturnsScale(prices[..n], k);
      assert scaled[..n] == init && scaled[n] == Times(k, prices[n]);
      assert init[n - 1] == Times(k, prices[n - 1]);
      assert scaled[n - 1] == init[n - 1];
      StepScales(prices[n - 1], prices[n], k);
    }
  }

  /** The volatility does not depend on the unit the prices are quoted in. */
  lemma UnitIrrelevant(prices: seq<real>, settings: Settings, k: real)
    requires k > 0.0
    ensures Volatility(Multiplied(prices, k), settings) == Volatility(prices, settings)
  {
    ReturnsScale(prices, k);
  }
}

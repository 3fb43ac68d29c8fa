/** Confirmations over the rounds of the EVM watcher, completed or failed: what
    they are for one row while its order is open and when it closes, and that the
    watcher's rounds do just that. */
module EvmConfirmations {
  import opened Common
  import opened BlockRanges
  import opened EvmSwaps
  import opened EvmEvents
  import opened EvmRound
  import opened EvmCatchUp
  import opened EvmWatcher

  // What one round reads: the clock, the chain with its one-shot deals, and what
  // fails.
  datatype Reading = Reading(now: int, chain: Chain, faults: Faults, deals: map<string, Deal>)

  // An order as first seen, still open; the logs of its initiation and of the
  // closing some rounds may show; the watcher's configuration.
  datatype Case = Case(id: string, order: Order, init: Log, end: Option<Log>, cfg: Config, buffer: int)

  predicate ClosedAt(c: Case, k: Reading) { c.id in k.chain.orders && k.chain.orders[c.id].fulfilledAt > 0 }

  function OrderAt(c: Case, k: Reading): Order {
    if ClosedAt(c, k) then c.order.(fulfilledAt := k.chain.orders[c.id].fulfilledAt) else c.order
  }

  function DealAt(c: Case, k: Reading): Deal { Deal(c.init, if ClosedAt(c, k) then c.end else None) }

  function SceneOf(c: Case, k: Reading): Scene { Scene(c.cfg, k.chain, map[c.id := OrderAt(c, k)]) }

  // The round's chain shows the order, open or closed.
  ghost predicate Shows(c: Case, k: Reading) {
    && OneShot(k.chain, k.deals) && !IsEmpty(c.order) && c.order.fulfilledAt == 0
    && c.id in k.chain.orders && k.chain.orders[c.id] == OrderAt(c, k) && k.deals[c.id] == DealAt(c, k)
    && (c.end.Some? ==> c.init.block <= c.end.value.block)
  }

  // The row's terms are the order's, and its initiation is recent enough for it.
  predicate Belongs(c: Case, r: Row) {
    && r.terms.chain == c.cfg.name && c.init.address in (if c.init.version == V2 then c.cfg.v2 else c.cfg.v3)
    && Lower(r.terms.redeemer) == Lower(c.order.redeemer) && Lower(r.terms.asset) == Lower(c.init.address)
    && -TWO_31 <= r.terms.timelock == c.order.timelock < TWO_31
    && c.init.txHash != "" && (c.end.Some? ==> c.end.value.txHash != "")
  }

  predicate Recent(c: Case, r: Row, k: Reading) { k.chain.time(c.order.initiatedAt) > r.createdAt - 60 }

  predicate Fresh(r: Row) { StampedRow(r) && RowStatus(r) == NotInitiated && !Ended(r) }

  // ---------------------------------------------------------- one row, one round

  // Whether a round works on the row: the pending query, then the selection.
  predicate Reads(c: Case, p: Row, k: Reading) {
    && p.terms.chain == c.cfg.name && Pending(p, k.now, c.buffer)
    && Selected(p, Some(ChainStatus(OrderAt(c, k))), k.chain.height)
  }

  // The row after a round of which `e` reached it.
  function AfterOne(c: Case, p: Row, k: Reading, e: Effect): Row {
    if Reads(c, p, k) then PartRow(c.id, p, DealAt(c, k), SceneOf(c, k), e) else p
  }

  // The initiation comes before the closing, the count after both.
  predicate Lawful(e: Effect) { (e.end ==> e.init) && (e.counted ==> e.end) }

  // What the faults of a round say about its effect.
  predicate Decided(f: Faults, e: Effect) {
    && (Faultless(f) ==> e == FULL)
    && (f.reading ==> e == NONE)
    && (!f.reading && f.stream == {} && f.updates == map[] ==>
          e.init && e.end && (f.confirmations == Some(0) ==> !e.counted))
  }

  // The count the height alone gives.
  function Exact(c: Case, r: Row, k: Reading): int {
    Confirmations(k.chain.height, c.order.initiatedAt, r.required)
  }

  // A row that grew out of r.
  predicate Grown(c: Case, r: Row, p: Row) {
    && SameRow(r, p) && StampedRow(p)
    && (Positive(p.initiate.block) ==> p.initiate.block == Some(c.order.initiatedAt))
    && (Ended(p) ==> Positive(p.initiate.block))
  }

  lemma Written(c: Case, r: Row, p: Row, k: Reading, e: Effect)
    requires Shows(c, k) && Belongs(c, r) && Recent(c, r, k) && Grown(c, r, p) && Lawful(e)
    ensures var p' := PartRow(c.id, p, DealAt(c, k), SceneOf(c, k), e);
      && Grown(c, r, p')
      && (e.counted ==> p'.confirmations == Exact(c, r, k))
      && (e.init && !e.counted ==> p'.confirmations == 1)
      && (e.init ==> Positive(p'.initiate.block))
      && (!e.init ==> p' == p)
      && (Ended(p') ==> Ended(p) || (ClosedAt(c, k) && e.end))
  {
    var s, d := SceneOf(c, k), DealAt(c, k);
    assert DealOk(c.id, s.orders[c.id], d, s.chain.logs);
    assert Agrees(p, s.orders[c.id], d, s);
    AgreeingEvents(c.id, p, d, s);
    EventsWritten(c, r, p, k, e, Fetched(d.init, s).value, FetchedEnd(d, s));
  }

  // The same for the two events themselves.
  lemma EventsWritten(c: Case, r: Row, p: Row, k: Reading, e: Effect, init: SwapEvent, end: Option<SwapEvent>)
    requires Grown(c, r, p) && Lawful(e) && init.kind.Initiate? && Matches(c.id, p, init)
    requires Positive(init.tx.block) && init.tx.txHash != "" && init.tx.block == Some(c.order.initiatedAt)
    requires end.Some? ==>
      !end.value.kind.Initiate? && Positive(end.value.tx.block) && end.value.tx.txHash != "" && ClosedAt(c, k)
    ensures var p' := Step(c.id, Step(c.id, p, Only(e.init, Some(init))), Only(e.end, end));
      && Grown(c, r, p') && (e.init ==> p'.confirmations == 1 && Positive(p'.initiate.block)) && (!e.init ==> p' == p)
      && (Ended(p') ==> Ended(p) || (ClosedAt(c, k) && e.end))
  {
  }

  // What one round of a row's history is: the row before and after it.
  ghost predicate Moves(c: Case, r: Row, p: Row, p': Row, k: Reading, e: Effect) {
    && Grown(c, r, p) && Grown(c, r, p') && Lawful(e)
    && (Reads(c, p, k) && e.counted ==> p'.confirmations == Exact(c, r, k))
    && (Reads(c, p, k) && e.init && !e.counted ==> p'.confirmations == 1)
    && (Reads(c, p, k) && e.init ==> Positive(p'.initiate.block))
    && (!(Reads(c, p, k) && e.init) ==> p' == p)
    && (Ended(p') ==> Ended(p) || ClosedAt(c, k))
    && (Positive(p.initiate.block) ==>
          (Reads(c, p, k) <==>
             !Ended(p) && (ClosedAt(c, k) || k.chain.height <= c.order.initiatedAt + r.required))
          && Positive(p'.initiate.block))
    && (!Positive(p.initiate.block) ==>
          (Reads(c, p, k) <==> p.terms.chain == c.cfg.name && Pending(p, k.now, c.buffer)))
  }

  lemma RoundMoves(c: Case, r: Row, p: Row, k: Reading, e: Effect)
    requires Shows(c, k) && Belongs(c, r) && Recent(c, r, k) && Grown(c, r, p) && Lawful(e)
    ensures Moves(c, r, p, AfterOne(c, p, k, e), k, e)
  {
    Written(c, r, p, k, e);
    ReadsWhen(c, r, p, k);
  }

  // An initiated row that is not over is read while its order is over or the height
  // is inside its window; one that is over never is; a fresh one is if pending.
  lemma ReadsWhen(c: Case, r: Row, p: Row, k: Reading)
    requires !IsEmpty(c.order) && c.order.fulfilledAt == 0 && Belongs(c, r) && Grown(c, r, p)
    ensures Positive(p.initiate.block) ==>
      (Reads(c, p, k) <==>
         !Ended(p) && (ClosedAt(c, k) || k.chain.height <= c.order.initiatedAt + r.required))
    ensures !Positive(p.initiate.block) ==>
      (Reads(c, p, k) <==> p.terms.chain == c.cfg.name && Pending(p, k.now, c.buffer))
  {
  }

  // ------------------------------------------------------------- a run of rounds

  // One round of a trace: it shows the order and does to the row what its effect says.
  ghost predicate Turned(c: Case, r: Row, p: Row, p': Row, k: Reading, e: Effect) {
    Shows(c, k) && Recent(c, r, k) && Lawful(e) && p' == AfterOne(c, p, k, e)
  }

  // The row before the first round and after each.
  ghost predicate Trace(c: Case, rows: seq<Row>, rounds: seq<Reading>, effects: seq<Effect>) {
    && |rows| == |rounds| + 1 && |effects| == |rounds| && Belongs(c, rows[0]) && Fresh(rows[0])
    && forall i :: 0 <= i < |rounds| ==> Turned(c, rows[0], rows[i], rows[i + 1], rounds[i], effects[i])
  }

  // The same, by what matters to the count.
  ghost predicate History(c: Case, rows: seq<Row>, rounds: seq<Reading>, effects: seq<Effect>) {
    && |rows| == |rounds| + 1 && |effects| == |rounds| && rows[0].terms.chain == c.cfg.name && Fresh(rows[0])
    && Grown(c, rows[0], rows[0])
    && forall i :: 0 <= i < |rounds| ==> Moves(c, rows[0], rows[i], rows[i + 1], rounds[i], effects[i])
  }

  lemma TraceIsHistory(c: Case, rows: seq<Row>, rounds: seq<Reading>, effects: seq<Effect>)
    requires Trace(c, rows, rounds, effects)
    ensures History(c, rows, rounds, effects)
  {
    forall i | 0 <= i < |rounds| ensures Moves(c, rows[0], rows[i], rows[i + 1], rounds[i], effects[i]) {
      TraceMoves(c, rows, rounds, effects, i);
    }
  }

  lemma {:induction false} TraceMoves(c: Case, rows: seq<Row>, rounds: seq<Reading>, effects: seq<Effect>, i: nat)
    requires Trace(c, rows, rounds, effects) && i < |rounds|
    ensures Moves(c, rows[0], rows[i], rows[i + 1], rounds[i], effects[i])
  {
    if i > 0 { TraceMoves(c, rows, rounds, effects, i - 1); }
    assert Turned(c, rows[0], rows[i], rows[i + 1], rounds[i], effects[i]);
    RoundMoves(c, rows[0], rows[i], rounds[i], effects[i]);
  }

  // The n-th round re-applies the initiation.
  predicate Touches(c: Case, rows: seq<Row>, rounds: seq<Reading>, effects: seq<Effect>, n: nat)
    requires n < |rounds| == |effects| < |rows|
  {
    Reads(c, rows[n], rounds[n]) && effects[n].init
  }

  // It does, and fails before the row is counted again.
  predicate Strips(c: Case, rows: seq<Row>, rounds: seq<Reading>, effects: seq<Effect>, n: nat)
    requires n < |rounds| == |effects| < |rows|
  {
    Touches(c, rows, rounds, effects, n) && !effects[n].counted
  }

  // The last round before the n-th that re-applies the initiation.
  function LastTouch(c: Case, rows: seq<Row>, rounds: seq<Reading>, effects: seq<Effect>, n: nat): (t: Option<nat>)
    requires n <= |rounds| == |effects| < |rows|
    ensures t.Some? ==> t.value < n && Touches(c, rows, rounds, effects, t.value)
    ensures t.Some? ==> forall i :: t.value < i < n ==> !Touches(c, rows, rounds, effects, i)
    ensures t.None? ==> forall i :: 0 <= i < n ==> !Touches(c, rows, rounds, effects, i)
  {
    if n == 0 then None
    else if Touches(c, rows, rounds, effects, n - 1) then Some(n - 1)
    else LastTouch(c, rows, rounds, effects, n - 1)
  }

  /** The count after any rounds, failed ones and a closing included, is decided by
      the last round that re-applied the initiation: exact for its height if it
      got as far as the count, else one. */
  lemma {:induction false} CountIs(c: Case, rows: seq<Row>, rounds: seq<Reading>, effects: seq<Effect>, n: nat)
    requires History(c, rows, rounds, effects) && n <= |rounds|
    ensures var t := LastTouch(c, rows, rounds, effects, n);
      && rows[n].confirmations == (match t
           case None => rows[0].confirmations
           case Some(i) => if effects[i].counted then Exact(c, rows[0], rounds[i]) else 1)
      && (Positive(rows[n].initiate.block) <==> t.Some?)
  {
    if n > 0 {
      CountIs(c, rows, rounds, effects, n - 1);
      assert Moves(c, rows[0], rows[n - 1], rows[n], rounds[n - 1], effects[n - 1]);
    }
  }

  /** So every round that reads the row and gets as far as its count, every
      completed one in particular, makes the count exact. */
  lemma ReadingCounts(c: Case, rows: seq<Row>, rounds: seq<Reading>, effects: seq<Effect>, n: nat)
    requires History(c, rows, rounds, effects) && n < |rounds|
    requires Reads(c, rows[n], rounds[n]) && effects[n].counted
    ensures rows[n + 1].confirmations == Exact(c, rows[0], rounds[n])
  {
    assert Moves(c, rows[0], rows[n], rows[n + 1], rounds[n], effects[n]);
  }

  // -------------------------------------------------------- when it stays short

  ghost predicate NoneCounts(effects: seq<Effect>, i: nat, j: nat)
    requires j <= |effects|
  {
    forall m :: i < m < j ==> !effects[m].counted
  }

  // From one round that gets as far as the count to the next, heights never fall
  // and grow by at most `most`.
  ghost predicate Climb(rounds: seq<Reading>, effects: seq<Effect>, most: nat)
    requires |rounds| == |effects|
  {
    forall i, j :: 0 <= i < j < |rounds| && effects[i].counted && effects[j].counted && NoneCounts(effects, i, j) ==>
      rounds[i].chain.height <= rounds[j].chain.height <= rounds[i].chain.height + most
  }

  lemma {:induction false} NextCounting(effects: seq<Effect>, i: nat, n: nat) returns (j: nat)
    requires i < n < |effects| && effects[n].counted
    ensures i < j <= n && effects[j].counted && NoneCounts(effects, i, j)
    decreases n - i
  {
    if effects[i + 1].counted {
      j := i + 1;
    } else {
      j := NextCounting(effects, i + 1, n);
    }
  }

  // The last height of the row's window.
  function WindowEnd(c: Case, r: Row): nat { c.order.initiatedAt + r.required }

  // The i-th round stripped the count, and no later one before the n-th that gets
  // as far as the count is inside the window.
  ghost predicate NotRecovered(c: Case, rows: seq<Row>, rounds: seq<Reading>, effects: seq<Effect>, i: nat, n: nat)
    requires i < n <= |rounds| == |effects| < |rows|
  {
    && Strips(c, rows, rounds, effects, i)
    && forall j :: i < j < n && effects[j].counted ==> rounds[j].chain.height > WindowEnd(c, rows[0])
  }

  ghost predicate StaysOpen(c: Case, rounds: seq<Reading>, n: nat)
    requires n <= |rounds|
  {
    forall i :: 0 <= i < n ==> !ClosedAt(c, rounds[i])
  }

  // No closing is recorded while the order is open.
  lemma {:induction false} NotOver(c: Case, rows: seq<Row>, rounds: seq<Reading>, effects: seq<Effect>, n: nat)
    requires History(c, rows, rounds, effects) && n <= |rounds| && StaysOpen(c, rounds, n)
    ensures !Ended(rows[n])
  {
    if n > 0 {
      NotOver(c, rows, rounds, effects, n - 1);
      assert Moves(c, rows[0], rows[n - 1], rows[n], rounds[n - 1], effects[n - 1]);
    }
  }

  // Once initiated and open, a row is read inside its window and not beyond it.
  lemma OpenReads(c: Case, rows: seq<Row>, rounds: seq<Reading>, effects: seq<Effect>, t: nat, j: nat)
    requires History(c, rows, rounds, effects) && t < j < |rounds| && Touches(c, rows, rounds, effects, t)
    requires StaysOpen(c, rounds, j + 1)
    ensures Reads(c, rows[j], rounds[j]) <==> rounds[j].chain.height <= WindowEnd(c, rows[0])
  {
    CountIs(c, rows, rounds, effects, j);
    NotOver(c, rows, rounds, effects, j);
    assert Moves(c, rows[0], rows[j], rows[j + 1], rounds[j], effects[j]);
  }

  /** Heights of the rounds that get as far as the count grow by at most two, the
      order stays open, and the n-th round is such a round that no longer reads the
      initiated row. Then the row is short for good exactly when more than one
      confirmation is required and some failed round stripped the count after
      which no round at a height inside the window got as far as the count. */
  lemma ShortForGood(c: Case, rows: seq<Row>, rounds: seq<Reading>, effects: seq<Effect>, n: nat)
    requires History(c, rows, rounds, effects) && n < |rounds| && Climb(rounds, effects, 2) && effects[n].counted
    requires StaysOpen(c, rounds, n + 1) && Positive(rows[n].initiate.block) && !Reads(c, rows[n], rounds[n])
    ensures rows[n].confirmations < rows[0].required <==>
      rows[0].required > 1 && exists i :: 0 <= i < n && NotRecovered(c, rows, rounds, effects, i, n)
  {
    CountIs(c, rows, rounds, effects, n);
    var t := LastTouch(c, rows, rounds, effects, n).value;
    if effects[t].counted {
      ReachesEnd(c, rows, rounds, effects, t, n);
      forall i | 0 <= i < n ensures !NotRecovered(c, rows, rounds, effects, i, n) {
        if i < t && Strips(c, rows, rounds, effects, i) { OpenReads(c, rows, rounds, effects, i, t); }
      }
    } else {
      StrippedLast(c, rows, rounds, effects, t, n);
    }
  }

  lemma StrippedLast(c: Case, rows: seq<Row>, rounds: seq<Reading>, effects: seq<Effect>, t: nat, n: nat)
    requires History(c, rows, rounds, effects) && t < n < |rounds| && StaysOpen(c, rounds, n + 1)
    requires LastTouch(c, rows, rounds, effects, n) == Some(t) && !effects[t].counted
    ensures NotRecovered(c, rows, rounds, effects, t, n)
  {
    forall j | t < j < n && effects[j].counted ensures rounds[j].chain.height > WindowEnd(c, rows[0]) {
      OpenReads(c, rows, rounds, effects, t, j);
      assert !Touches(c, rows, rounds, effects, j);
      assert Moves(c, rows[0], rows[j], rows[j + 1], rounds[j], effects[j]);
    }
  }

  // A count made exact by the last round that touches the row is complete: the
  // next round that gets as far as the count is beyond the window, two higher at
  // most.
  lemma ReachesEnd(c: Case, rows: seq<Row>, rounds: seq<Reading>, effects: seq<Effect>, t: nat, n: nat)
    requires History(c, rows, rounds, effects) && t < n < |rounds| && Climb(rounds, effects, 2) && effects[n].counted
    requires StaysOpen(c, rounds, n + 1) && !Reads(c, rows[n], rounds[n])
    requires LastTouch(c, rows, rounds, effects, n) == Some(t) && effects[t].counted
    ensures Exact(c, rows[0], rounds[t]) == rows[0].required
  {
    var q := NextCounting(effects, t, n);
    OpenReads(c, rows, rounds, effects, t, q);
    assert Moves(c, rows[0], rows[q], rows[q + 1], rounds[q], effects[q]);
    if q < n { assert !Touches(c, rows, rounds, effects, q); }
    assert rounds[t].chain.height + 2 >= rounds[q].chain.height;
  }

  // -------------------------------------------------------------- without failures

  ghost predicate AllFull(effects: seq<Effect>) {
    forall i :: 0 <= i < |effects| ==> effects[i] == FULL
  }

  // Heights of completed rounds, one after another.
  ghost predicate Steady(rounds: seq<Reading>, most: nat) {
    forall i :: 0 < i < |rounds| ==>
      rounds[i - 1].chain.height <= rounds[i].chain.height <= rounds[i - 1].chain.height + most
  }

  // All rounds complete; the first finds the row pending and its order initiated.
  ghost predicate Completes(c: Case, rows: seq<Row>, rounds: seq<Reading>, effects: seq<Effect>, most: nat) {
    && History(c, rows, rounds, effects) && AllFull(effects) && Steady(rounds, most)
    && (most <= 2 || rows[0].required <= 1)
    && (rounds != [] ==> Pending(rows[0], rounds[0].now, c.buffer) && rounds[0].chain.height >= c.order.initiatedAt)
  }

  /** If heights grow by at most two (or at any pace, if at most one confirmation is
      required), the count is exact after every completed round up to the one that
      records the closing. */
  lemma {:induction false} CountIsExact(c: Case, rows: seq<Row>, rounds: seq<Reading>, effects: seq<Effect>, most: nat,
                                        n: nat)
    requires Completes(c, rows, rounds, effects, most) && 1 <= n <= |rounds| && (n == 1 || !Ended(rows[n - 1]))
    ensures rows[n].confirmations == Exact(c, rows[0], rounds[n - 1]) && Positive(rows[n].initiate.block)
    ensures rounds[n - 1].chain.height >= c.order.initiatedAt
  {
    assert Moves(c, rows[0], rows[n - 1], rows[n], rounds[n - 1], effects[n - 1]);
    if n > 1 {
      assert Moves(c, rows[0], rows[n - 2], rows[n - 1], rounds[n - 2], effects[n - 2]);
      CountIsExact(c, rows, rounds, effects, most, n - 1);
      assert rounds[n - 2].chain.height <= rounds[n - 1].chain.height <= rounds[n - 2].chain.height + most;
    }
  }

  /** A row whose closing is recorded stays as it is. */
  lemma {:induction false} OverStays(c: Case, rows: seq<Row>, rounds: seq<Reading>, effects: seq<Effect>, i: nat,
                                     n: nat)
    requires History(c, rows, rounds, effects) && i <= n <= |rounds| && Ended(rows[i])
    ensures rows[n] == rows[i]
    decreases n
  {
    if i < n {
      OverStays(c, rows, rounds, effects, i, n - 1);
      assert Moves(c, rows[0], rows[n - 1], rows[n], rounds[n - 1], effects[n - 1]);
    }
  }

  /** The count at the round that records the closing is final. If the round gets
      as far as the count, it is complete exactly when the round's height reaches
      the end of the window; if it fails before that, it is one. */
  lemma ClosingCount(c: Case, rows: seq<Row>, rounds: seq<Reading>, effects: seq<Effect>, n: nat)
    requires History(c, rows, rounds, effects) && n < |rounds| && !Ended(rows[n]) && Ended(rows[n + 1])
    ensures rows[n + 1].confirmations == if effects[n].counted then Exact(c, rows[0], rounds[n]) else 1
    ensures effects[n].counted && rows[0].required > 0 ==>
      (rows[n + 1].confirmations == rows[0].required <==>
         rounds[n].chain.height + 1 >= c.order.initiatedAt + rows[0].required)
    ensures forall m :: n < m <= |rounds| ==> rows[m] == rows[n + 1]
  {
    assert Moves(c, rows[0], rows[n], rows[n + 1], rounds[n], effects[n]);
    forall m | n < m <= |rounds| ensures rows[m] == rows[n + 1] {
      OverStays(c, rows, rounds, effects, n + 1, m);
    }
  }

  /** So between completed rounds the count never drops, and an open row that a
      round no longer reads has exactly the required count. */
  lemma ConfirmationsComplete(c: Case, rows: seq<Row>, rounds: seq<Reading>, effects: seq<Effect>, n: nat)
    requires Completes(c, rows, rounds, effects, 2) && 1 <= n < |rounds|
    ensures rows[n].confirmations <= rows[n + 1].confirmations
    ensures !Ended(rows[n]) && !Reads(c, rows[n], rounds[n]) ==> rows[n].confirmations == rows[0].required
  {
    if Ended(rows[n]) {
      OverStays(c, rows, rounds, effects, n, n + 1);
    } else {
      if Ended(rows[n - 1]) { OverStays(c, rows, rounds, effects, n - 1, n); }
      CountIsExact(c, rows, rounds, effects, 2, n);
      CountIsExact(c, rows, rounds, effects, 2, n + 1);
      assert Moves(c, rows[0], rows[n], rows[n + 1], rounds[n], effects[n]);
      assert rounds[n - 1].chain.height <= rounds[n].chain.height <= rounds[n - 1].chain.height + 2;
    }
  }

  /** Two is the most the heights may jump once two confirmations are required: a
      jump of three at the end of the window leaves the count one short, and no
      later round reads the row while its order stays open. */
  lemma JumpOfThreeStops(c: Case, rows: seq<Row>, rounds: seq<Reading>, effects: seq<Effect>)
    requires History(c, rows, rounds, effects) && AllFull(effects) && |rounds| >= 2 && rows[0].required >= 2
    requires Pending(rows[0], rounds[0].now, c.buffer) && StaysOpen(c, rounds, |rounds|)
    requires rounds[0].chain.height == c.order.initiatedAt + rows[0].required - 2
    requires forall i :: 1 <= i < |rounds| ==> rounds[i].chain.height >= rounds[0].chain.height + 3
    ensures forall n :: 1 <= n < |rounds| ==> !Reads(c, rows[n], rounds[n])
    ensures forall n :: 1 <= n <= |rounds| ==> rows[n].confirmations == rows[0].required - 1
  {
    assert Moves(c, rows[0], rows[0], rows[1], rounds[0], effects[0]);
    forall n | 1 <= n < |rounds| ensures !Reads(c, rows[n], rounds[n]) { OpenReads(c, rows, rounds, effects, 0, n); }
    forall n | 1 <= n <= |rounds| ensures rows[n].confirmations == rows[0].required - 1 {
      CountIs(c, rows, rounds, effects, n);
      assert Touches(c, rows, rounds, effects, 0);
      assert forall i :: 1 <= i < n ==> !Touches(c, rows, rounds, effects, i);
    }
  }

  // --------------------------------------------------------- concrete failures

  const REFUND_LOG := Log("a", RefundedLog, 6, "g", "h", V3)
  const CASE := Case("a", OLD_ORDER, OLD_LOG, Some(REFUND_LOG), Config("c", {}, {"h"}, 1), 60)
  const NO_FAULTS := Faults(false, {}, map[], None)
  const COUNT_FAULT := Faults(false, {}, map[], Some(0))
  const UNCOUNTED := Effect(true, true, false)

  function FreshRow(required: nat): Row { OLD_ROW.(createdAt := 0, required := required) }

  // The order of CASE, initiated at block 5, read at a height; refunded at block 6
  // or still open.
  function ReadAt(height: nat, closed: bool, faults: Faults): Reading {
    var deal := Deal(OLD_LOG, if closed then Some(REFUND_LOG) else None);
    var order := if closed then OLD_ORDER.(fulfilledAt := 6) else OLD_ORDER;
    var logs := if closed then [OLD_LOG, REFUND_LOG] else [OLD_LOG];
    Reading(1, Chain(height, map["a" := order], logs, block => 0), faults, map["a" := deal])
  }

  lemma Shown(height: nat, closed: bool, faults: Faults, required: nat)
    ensures Shows(CASE, ReadAt(height, closed, faults)) && Belongs(CASE, FreshRow(required))
    ensures Fresh(FreshRow(required)) && Recent(CASE, FreshRow(required), ReadAt(height, closed, faults))
    ensures Grown(CASE, FreshRow(required), FreshRow(required))
    ensures Reads(CASE, FreshRow(required), ReadAt(height, closed, faults))
  {
    var k := ReadAt(height, closed, faults);
    assert DealOk("a", k.chain.orders["a"], k.deals["a"], k.chain.logs);
  }

  /** Two confirmations required, initiation at block 5. A round completes at height
      6 and the count is 2; a round at 7 fails in its first confirmation update,
      which can have no other effect than to leave the count at 1; from height 8 on
      no round reads the row. */
  lemma FailedCountStays(later: nat, faults: Faults)
    requires later >= 8
    ensures var r, first, second := FreshRow(2), ReadAt(6, false, NO_FAULTS), ReadAt(7, false, COUNT_FAULT);
      var p := AfterOne(CASE, r, first, FULL);
      var q := AfterOne(CASE, p, second, UNCOUNTED);
      && Trace(CASE, [r, p, q], [first, second], [FULL, UNCOUNTED])
      && (forall e :: Lawful(e) && Decided(second.faults, e) ==> e == UNCOUNTED)
      && p.confirmations == 2 && q.confirmations == 1
      && !Reads(CASE, q, ReadAt(later, false, faults))
  {
    var r, first, second := FreshRow(2), ReadAt(6, false, NO_FAULTS), ReadAt(7, false, COUNT_FAULT);
    var p := AfterOne(CASE, r, first, FULL);
    var q := AfterOne(CASE, p, second, UNCOUNTED);
    Shown(6, false, NO_FAULTS, 2);
    Shown(7, false, COUNT_FAULT, 2);
    Shown(later, false, faults, 2);
    RoundMoves(CASE, r, r, first, FULL);
    RoundMoves(CASE, r, p, second, UNCOUNTED);
    ReadsWhen(CASE, r, q, ReadAt(later, false, faults));
  }

  /** Five confirmations required, initiation at block 5, refund at block 6, both
      read at height 6: the count is 2 and no later round reads the row. */
  lemma EarlyRefundShort(height: nat, closed: bool, faults: Faults)
    ensures var r, k := FreshRow(5), ReadAt(6, true, NO_FAULTS);
      var p := AfterOne(CASE, r, k, FULL);
      && Trace(CASE, [r, p], [k], [FULL]) && !Ended(r) && Ended(p) && p.confirmations == 2
      && !Reads(CASE, p, ReadAt(height, closed, faults))
  {
    var r, k := FreshRow(5), ReadAt(6, true, NO_FAULTS);
    Shown(6, true, NO_FAULTS, 5);
    Shown(height, closed, faults, 5);
    RoundMoves(CASE, r, r, k, FULL);
    var p := AfterOne(CASE, r, k, FULL);
    assert Ended(p);
    ReadsWhen(CASE, r, p, ReadAt(height, closed, faults));
  }

  /** Two confirmations required, completed rounds at heights 5 and 8: the count is
      1 and no later round reads the row while the order is open. */
  lemma JumpLeavesOne(later: nat, faults: Faults)
    requires later >= 8
    ensures var r, first, second := FreshRow(2), ReadAt(5, false, NO_FAULTS), ReadAt(8, false, NO_FAULTS);
      var p := AfterOne(CASE, r, first, FULL);
      && Trace(CASE, [r, p, p], [first, second], [FULL, FULL])
      && p.confirmations == 1 && !Reads(CASE, p, ReadAt(later, false, faults))
  {
    var r, first, second := FreshRow(2), ReadAt(5, false, NO_FAULTS), ReadAt(8, false, NO_FAULTS);
    var p := AfterOne(CASE, r, first, FULL);
    Shown(5, false, NO_FAULTS, 2);
    Shown(8, false, NO_FAULTS, 2);
    Shown(later, false, faults, 2);
    RoundMoves(CASE, r, r, first, FULL);
    ReadsWhen(CASE, r, p, second);
    ReadsWhen(CASE, r, p, ReadAt(later, false, faults));
  }

  // ------------------------------------------------------- the watcher's rounds

  lemma SameScene(c: Case, p: Row, k: Reading, s: Scene, e: Effect)
    requires s.cfg == c.cfg && s.chain == k.chain && c.id in s.orders && s.orders[c.id] == OrderAt(c, k)
    requires DealOk(c.id, OrderAt(c, k), DealAt(c, k), k.chain.logs)
    ensures PartRow(c.id, p, DealAt(c, k), s, e) == PartRow(c.id, p, DealAt(c, k), SceneOf(c, k), e)
    ensures CountsRow(p, DealAt(c, k), s) <==> CountsRow(p, DealAt(c, k), SceneOf(c, k))
  {
    SameFetched(c.init, s, SceneOf(c, k));
    if DealAt(c, k).end.Some? { SameFetched(DealAt(c, k).end.value, s, SceneOf(c, k)); }
  }

  lemma SameFetched(l: Log, s: Scene, s': Scene)
    requires s.cfg == s'.cfg && s.chain == s'.chain && Strip0x(l.orderId) in s.orders
    requires Strip0x(l.orderId) in s'.orders && s.orders[Strip0x(l.orderId)] == s'.orders[Strip0x(l.orderId)]
    ensures Fetched(l, s) == Fetched(l, s')
  {
  }

  lemma PartKeepsTerms(id: string, r: Row, d: Deal, s: Scene, e: Effect)
    ensures SameRow(r, PartRow(id, r, d, s, e))
  {
    StepSameRow(id, r, Only(e.init, Fetched(d.init, s)));
    StepSameRow(id, Step(id, r, Only(e.init, Fetched(d.init, s))), Only(e.end, FetchedEnd(d, s)));
  }

  lemma RoundKeepsTable(rows0: Table, rows: Table, deals: map<string, Deal>, s: Scene, ranges: seq<BlockRange>,
                        reached: Reached)
    requires TableOk(rows0) && DealsOk(s, deals) && Partly(rows0, rows, deals, s, ranges, reached)
    ensures TableOk(rows)
  {
    forall id | id in rows ensures rows[id].terms == rows0[id].terms {
      assert id in rows0;
      if id in s.orders {
        PartKeepsTerms(id, rows0[id], deals[id], s, EffectOf(rows0[id], deals[id], ranges, reached, s));
      }
    }
    SameTermsOk(rows0, rows);
  }

  lemma SameTermsOk(rows0: Table, rows: Table)
    requires TableOk(rows0) && rows.Keys == rows0.Keys && forall id :: id in rows ==> rows[id].terms == rows0[id].terms
    ensures TableOk(rows)
  {
  }

  lemma RoundRangesGroup(s: Scene)
    ensures Covers(RoundRanges(s), EventBlocks(s.orders)) && Disjoint(RoundRanges(s))
  {
    var blocks := Listing(EventBlocks(s.orders));
    assert NonZero(blocks) == EventBlocks(s.orders);
    GroupingIsACover(blocks, s.cfg.maxBlockSpan);
  }

  // The ranges ascend, so the closing is not reached before the initiation.
  lemma EffectIsLawful(id: string, r: Row, d: Deal, s: Scene, reached: Reached)
    requires id in s.orders && DealOk(id, s.orders[id], d, s.chain.logs)
    requires d.end.Some? ==> d.init.block <= d.end.value.block
    ensures Lawful(EffectOf(r, d, RoundRanges(s), reached, s))
  {
    var ranges := RoundRanges(s);
    if reached.AtRange? && reached.k < |ranges| && EffectOf(r, d, ranges, reached, s).end {
      RoundRangesGroup(s);
      assert d.init.block in EventBlocks(s.orders);
      InitiationReached(ranges, reached.k, reached.batches, d.init.block, d.end.value.block);
    }
  }

  lemma InitiationReached(ranges: seq<BlockRange>, k: nat, n: nat, a: nat, b: nat)
    requires Disjoint(ranges) && k < |ranges| && a <= b && exists i :: 0 <= i < |ranges| && Contains(ranges[i], a)
    requires Covered(ranges[..k], b) || (n >= 2 && Contains(ranges[k], b))
    ensures Covered(ranges[..k], a) || (n >= 1 && Contains(ranges[k], a))
  {
    var i :| 0 <= i < |ranges| && Contains(ranges[i], a);
    var j := ReachedRange(b, ranges, k);
    InOrder(ranges, i, j, a, b);
    if Covered(ranges[..k], b) {
      var m :| 0 <= m < k && Contains(ranges[..k][m], b);
      InOrder(ranges, i, m, a, b);
    }
    if i < k { assert Contains(ranges[..k][i], a); }
  }

  lemma InOrder(ranges: seq<BlockRange>, i: nat, j: nat, a: nat, b: nat)
    requires Disjoint(ranges) && i < |ranges| && j < |ranges|
    requires Contains(ranges[i], a) && Contains(ranges[j], b) && a <= b
    ensures i <= j
  {
  }

  lemma ReachedRange(b: nat, ranges: seq<BlockRange>, k: nat) returns (j: nat)
    requires k < |ranges| && (Covered(ranges[..k], b) || Contains(ranges[k], b))
    ensures j <= k && Contains(ranges[j], b)
  {
    if Covered(ranges[..k], b) {
      var i :| 0 <= i < k && Contains(ranges[..k][i], b);
      j := i;
    } else {
      j := k;
    }
  }

  // What the faults of a round that did not stop at a range leave.
  function Ending(f: Faults): Effect {
    if f.reading then NONE else Effect(true, true, f.confirmations != Some(0))
  }

  lemma EndingIsDecided(f: Faults)
    ensures Lawful(Ending(f)) && Decided(f, Ending(f))
  {
  }

  lemma StopIsDecided(f: Faults, reached: Reached, rows0: Table, deals: map<string, Deal>, s: Scene, id: string)
    requires DealsOk(s, deals) && s.orders.Keys <= rows0.Keys && id in s.orders
    requires Stops(f, reached, rows0, deals, s) && !reached.AtEnd?
    ensures Decided(f, EffectOf(rows0[id], deals[id], RoundRanges(s), reached, s))
  {
  }

  // What one round did to the row of the case.
  lemma RoundEffect(c: Case, k: Reading, s: Scene, rows0: Table, rows: Table, outcome: Outcome, reached: Reached,
                    high: bool)
    returns (e: Effect)
    requires c.id in rows0 && Shows(c, k) && DealsOk(s, k.deals) && s.orders.Keys <= rows0.Keys
    requires s == Scene(c.cfg, k.chain, ScopeOrders(GetSwaps(rows0, c.cfg.name, k.now, c.buffer), k.chain))
    requires !outcome.Idle? ==> Partly(rows0, rows, k.deals, s, RoundRanges(s), reached)
    requires !outcome.Idle? ==> Stops(k.faults, reached, rows0, k.deals, s)
    requires outcome.Idle? ==> rows == rows0 && (!high || s.orders == map[])
    ensures Lawful(e) && (high ==> Decided(k.faults, e))
    ensures c.id in rows && rows[c.id] == AfterOne(c, rows0[c.id], k, e)
  {
    var p := rows0[c.id];
    assert c.id in s.orders <==> Reads(c, p, k);
    EndingIsDecided(k.faults);
    if c.id !in s.orders {
      e := Ending(k.faults);
    } else if outcome.Idle? {
      e := NONE;
      SameScene(c, p, k, s, e);
    } else {
      e := RoundEffectRead(c, k, s, rows0, rows, reached);
    }
  }

  lemma RoundEffectRead(c: Case, k: Reading, s: Scene, rows0: Table, rows: Table, reached: Reached)
    returns (e: Effect)
    requires c.id in rows0 && Shows(c, k) && DealsOk(s, k.deals) && s.orders.Keys <= rows0.Keys
    requires s.cfg == c.cfg && s.chain == k.chain && c.id in s.orders && s.orders[c.id] == OrderAt(c, k)
    requires Partly(rows0, rows, k.deals, s, RoundRanges(s), reached)
    requires Stops(k.faults, reached, rows0, k.deals, s)
    ensures Lawful(e) && Decided(k.faults, e)
    ensures c.id in rows && rows[c.id] == PartRow(c.id, rows0[c.id], DealAt(c, k), SceneOf(c, k), e)
  {
    var p, d := rows0[c.id], DealAt(c, k);
    if reached.AtEnd? {
      e := Ending(k.faults);
      EndingIsDecided(k.faults);
      UncountedSame(c.id, p, d, s, e);
    } else {
      e := EffectOf(p, d, RoundRanges(s), reached, s);
      EffectIsLawful(c.id, p, d, s, reached);
      StopIsDecided(k.faults, reached, rows0, k.deals, s, c.id);
    }
    SameScene(c, p, k, s, e);
  }

  // Where there is nothing to count, not counting makes no difference.
  lemma UncountedSame(id: string, p: Row, d: Deal, s: Scene, e: Effect)
    requires e.init && e.end && (e.counted || !CountsRow(p, d, s))
    ensures PartRow(id, p, d, s, e) == PartRow(id, p, d, s, FULL)
  {
  }

  // One call of `watch`, failing or not.
  method Turn(w: HTLCEventWatcher, k: Reading, ghost c: Case, buffer: int) returns (ghost e: Effect)
    requires TableOk(w.store.rows) && c.id in w.store.rows && c.cfg == w.cfg && c.buffer == buffer && Shows(c, k)
    modifies w`previousBlock, w.store
    ensures TableOk(w.store.rows) && c.id in w.store.rows
    ensures w.store.rows[c.id] == AfterOne(c, old(w.store.rows)[c.id], k, e)
    ensures Lawful(e) && (k.chain.height >= old(w.previousBlock) ==> Decided(k.faults, e))
    ensures w.previousBlock == old(w.previousBlock) || w.previousBlock == k.chain.height
  {
    ghost var rows0 := w.store.rows;
    ghost var high := k.chain.height >= w.previousBlock;
    var outcome;
    ghost var s, reached;
    outcome, s, reached := w.Watch(k.now, buffer, k.chain, k.faults, k.deals);
    if !outcome.Idle? { RoundKeepsTable(rows0, w.store.rows, k.deals, s, RoundRanges(s), reached); }
    e := RoundEffect(c, k, s, rows0, w.store.rows, outcome, reached, high);
  }

  // No earlier round, and no height remembered before, is above the i-th.
  ghost predicate Top(rounds: seq<Reading>, previous: nat, i: nat)
    requires i < |rounds|
  {
    rounds[i].chain.height >= previous && forall j :: 0 <= j < i ==> rounds[j].chain.height <= rounds[i].chain.height
  }

  // Where the height is not below an earlier one, the faults decide the effect.
  ghost predicate AllDecided(rounds: seq<Reading>, effects: seq<Effect>, previous: nat, n: nat) {
    n <= |rounds| && n <= |effects|
    && forall i :: 0 <= i < n && Top(rounds, previous, i) ==> Decided(rounds[i].faults, effects[i])
  }

  lemma DecidedGrows(rounds: seq<Reading>, effects: seq<Effect>, previous: nat, i: nat, last: nat, e: Effect)
    requires i < |rounds| && |effects| == i && AllDecided(rounds, effects, previous, i)
    requires last == previous || exists j :: 0 <= j < i && last == rounds[j].chain.height
    requires rounds[i].chain.height >= last ==> Decided(rounds[i].faults, e)
    ensures AllDecided(rounds, effects + [e], previous, i + 1)
  {
  }

  /** The watcher run over any sequence of chains that show the order, with any
      failures and heights: the row of a fresh swap that belongs to it has a trace,
      whose effects are those the faults decide wherever the height is not below an
      earlier one; so all results above hold of it. */
  method Follow(w: HTLCEventWatcher, rounds: seq<Reading>, ghost c: Case, buffer: int)
    returns (ghost rows: seq<Row>, ghost effects: seq<Effect>)
    requires TableOk(w.store.rows) && c.id in w.store.rows && c.cfg == w.cfg && c.buffer == buffer
    requires Belongs(c, w.store.rows[c.id]) && Fresh(w.store.rows[c.id])
    requires forall i :: 0 <= i < |rounds| ==> Shows(c, rounds[i]) && Recent(c, w.store.rows[c.id], rounds[i])
    modifies w`previousBlock, w.store
    ensures Trace(c, rows, rounds, effects) && History(c, rows, rounds, effects)
    ensures rows[0] == old(w.store.rows)[c.id]
    ensures c.id in w.store.rows && w.store.rows[c.id] == rows[|rounds|]
    ensures AllDecided(rounds, effects, old(w.previousBlock), |rounds|)
  {
    ghost var previous := w.previousBlock;
    rows, effects := [w.store.rows[c.id]], [];
    for i := 0 to |rounds|
      invariant TableOk(w.store.rows) && c.id in w.store.rows && |rows| == i + 1 && w.store.rows[c.id] == rows[i]
      invariant rows[0] == old(w.store.rows)[c.id] && Trace(c, rows, rounds[..i], effects)
      invariant w.previousBlock == previous || exists j :: 0 <= j < i && w.previousBlock == rounds[j].chain.height
      invariant AllDecided(rounds, effects, previous, i)
    {
      ghost var last := w.previousBlock;
      ghost var e := Turn(w, rounds[i], c, buffer);
      DecidedGrows(rounds, effects, previous, i, last, e);
      TraceGrows(c, rows, rounds, effects, i, e, w.store.rows[c.id]);
      rows, effects := rows + [w.store.rows[c.id]], effects + [e];
    }
    assert rounds[..|rounds|] == rounds;
    TraceIsHistory(c, rows, rounds, effects);
  }

  lemma TraceGrows(c: Case, rows: seq<Row>, rounds: seq<Reading>, effects: seq<Effect>, i: nat, e: Effect, p: Row)
    requires i < |rounds| && Trace(c, rows, rounds[..i], effects) && Lawful(e)
    requires Shows(c, rounds[i]) && Recent(c, rows[0], rounds[i]) && p == AfterOne(c, rows[i], rounds[i], e)
    ensures Trace(c, rows + [p], rounds[..i + 1], effects + [e])
  {
    forall j | 0 <= j < i + 1
      ensures Turned(c, rows[0], (rows + [p])[j], (rows + [p])[j + 1], rounds[..i + 1][j], (effects + [e])[j])
    {
      if j < i { assert Turned(c, rows[0], rows[j], rows[j + 1], rounds[..i][j], effects[j]); }
    }
  }
}

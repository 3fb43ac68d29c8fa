/** What one round of the EVM watcher, completed or not, does to one row: the reference
    the watcher's loops are proved against, and the round's main results. */
module EvmRound {
  import opened Common
  import opened BlockRanges
  import opened EvmSwaps
  import opened EvmEvents

  // ------------------------------------------------ selection (validate_swap.rs)

  function InitBlock(r: Row): nat {
    match r.initiate.block case None => 0 case Some(n) => n
  }

  predicate Selected(r: Row, status: Option<OrderStatus>, height: nat) {
    match status
    case None => true
    case Some(s) => s != RowStatus(r) || (s == Initiated && height <= InitBlock(r) + r.required)
  }

  // The orders a round works on: selected pending rows with a non-empty order.
  function ScopeOrders(swaps: Table, chain: Chain): (r: map<string, Order>)
    ensures forall id :: id in r ==> id in swaps && id in chain.orders && r[id] == chain.orders[id] && !IsEmpty(r[id])
  {
    map id | id in swaps && id in chain.orders && !IsEmpty(chain.orders[id])
           && Selected(swaps[id], Some(ChainStatus(chain.orders[id])), chain.height) :: chain.orders[id]
  }

  // ------------------------------------------------------- the ledger assumption

  // The logs of one HTLC: an initiation and, once it is over, one redeem or refund.
  datatype Deal = Deal(init: Log, end: Option<Log>)

  ghost predicate DealOk(id: string, o: Order, d: Deal, logs: seq<Log>) {
    && d.init in logs && d.init.kind.InitiatedLog? && Strip0x(d.init.orderId) == id
    && d.init.block == o.initiatedAt > 0
    && (d.end.Some? <==> o.fulfilledAt > 0)
    && (d.end.Some? ==>
          && d.end.value in logs && Strip0x(d.end.value.orderId) == id && d.end.value.block == o.fulfilledAt
          && (d.end.value.kind.RedeemedLog? || d.end.value.kind.RefundedLog?)
          && d.end.value.address == d.init.address && d.end.value.version == d.init.version)
    && forall l :: l in logs && Strip0x(l.orderId) == id && !l.kind.OtherLog? ==> l == d.init || Some(l) == d.end
  }

  // Each order on the chain is a one-shot HTLC whose logs carry its blocks.
  ghost predicate OneShot(chain: Chain, deals: map<string, Deal>) {
    forall id :: id in chain.orders && !IsEmpty(chain.orders[id]) ==>
      id in deals && DealOk(id, chain.orders[id], deals[id], chain.logs)
  }

  // Row keys differ by more than case; timelocks are 32-bit columns.
  ghost predicate TableOk(t: Table) {
    && (forall a, b :: a in t && b in t && Lower(a) == Lower(b) ==> a == b)
    && (forall id :: id in t ==> -0x8000_0000 <= t[id].terms.timelock < 0x8000_0000)
  }

  // ------------------------------------------------------------ one row's round

  // What a round reads besides the rows: configuration, chain, orders in scope.
  datatype Scene = Scene(cfg: Config, chain: Chain, orders: map<string, Order>) {
    function Event(l: Log): Option<SwapEvent> { EventOf(l, orders, chain.time, cfg.name) }
  }

  function Step(id: string, r: Row, e: Option<SwapEvent>): Row {
    if e.Some? && Matches(id, r, e.value) then ApplyEvent(r, e.value) else r
  }

  ghost predicate Covered(done: seq<BlockRange>, b: nat) {
    exists i :: 0 <= i < |done| && Contains(done[i], b)
  }

  // The event of a log, once a queried range and the address filter reach it.
  ghost function Seen(l: Log, done: seq<BlockRange>, s: Scene): Option<SwapEvent> {
    if Covered(done, l.block) && l.address in Addresses(s.cfg, l.version) then s.Event(l) else None
  }

  ghost function SeenEnd(d: Deal, done: seq<BlockRange>, s: Scene): Option<SwapEvent> {
    if d.end.Some? then Seen(d.end.value, done, s) else None
  }

  // The row once the ranges `done` have been processed.
  ghost function SoFar(id: string, r: Row, d: Deal, done: seq<BlockRange>, s: Scene): Row {
    Step(id, Step(id, r, Seen(d.init, done, s)), SeenEnd(d, done, s))
  }

  // `(current_block + 1).saturating_sub(event_block).min(required)`
  function Confirmations(height: nat, block: nat, required: nat): nat {
    var seen := SaturatingSub(height + 1, block);
    if seen <= required then seen else required
  }

  function EventBlock(e: SwapEvent): nat {
    match e.tx.block case None => 0 case Some(n) => n
  }

  // ---------------------------------------------------- events of one range

  // The validated events of one range.
  function RangeEvents(range: BlockRange, swaps: Table, s: Scene): seq<SwapEvent> {
    ValidateEvents(swaps,
      Events(Query(s.chain.logs, range, V2, s.cfg.v2), s.orders, s.chain.time, s.cfg.name)
      + Events(Query(s.chain.logs, range, V3, s.cfg.v3), s.orders, s.chain.time, s.cfg.name))
  }

  ghost predicate Reaches(range: BlockRange, s: Scene, l: Log) {
    l in s.chain.logs && Contains(range, l.block) && l.address in Addresses(s.cfg, l.version)
  }

  // Which events those are.
  lemma RangeEventsAre(range: BlockRange, swaps: Table, s: Scene, e: SwapEvent)
    ensures e in RangeEvents(range, swaps, s) <==>
      && e.swapId in swaps && ValidEvent(e, swaps[e.swapId])
      && exists l :: Reaches(range, s, l) && s.Event(l) == Some(e)
  {
    var q2, q3 := Query(s.chain.logs, range, V2, s.cfg.v2), Query(s.chain.logs, range, V3, s.cfg.v3);
    var e2, e3 := Events(q2, s.orders, s.chain.time, s.cfg.name), Events(q3, s.orders, s.chain.time, s.cfg.name);
    assert e in e2 + e3 <==> e in e2 || e in e3;
    if e in e2 {
      var l :| l in q2 && s.Event(l) == Some(e);
      assert Reaches(range, s, l);
    }
    if e in e3 {
      var l :| l in q3 && s.Event(l) == Some(e);
      assert Reaches(range, s, l);
    }
    if l :| Reaches(range, s, l) && s.Event(l) == Some(e) {
      assert l in q2 || l in q3;
    }
  }

  lemma EventShape(s: Scene, l: Log, e: SwapEvent)
    requires s.Event(l) == Some(e)
    ensures e.swapId == Strip0x(l.orderId) && e.swapId in s.orders && !l.kind.OtherLog?
    ensures e.kind.Initiate? <==> l.kind.InitiatedLog?
    ensures e.tx == Stamp(l.txHash, Some(l.block), s.chain.time(l.block))
  {
  }

  lemma SeenInRange(range: BlockRange, s: Scene, l: Log)
    requires Reaches(range, s, l)
    ensures Seen(l, [range], s) == s.Event(l)
  {
    assert Contains([range][0], l.block);
  }

  // Within one range the events joining row `id` are those of its own deal.
  lemma OwnEvents(id: string, t: Table, range: BlockRange, s: Scene, d: Deal, e: SwapEvent)
    requires TableOk(t) && id in s.orders && id in t
    requires DealOk(id, s.orders[id], d, s.chain.logs)
    requires e in RangeEvents(range, t, s) && Lower(id) == Lower(e.swapId)
    ensures e.swapId == id
    ensures e.kind.Initiate? ==> Seen(d.init, [range], s) == Some(e)
    ensures !e.kind.Initiate? ==> SeenEnd(d, [range], s) == Some(e)
  {
    RangeEventsAre(range, t, s, e);
    var l :| Reaches(range, s, l) && s.Event(l) == Some(e);
    EventShape(s, l, e);
    SeenInRange(range, s, l);
  }

  // And those events are there whenever their terms match the row.
  lemma OwnEventPresent(id: string, t: Table, range: BlockRange, s: Scene, l: Log, e: SwapEvent)
    requires TableOk(t) && id in t && l in s.chain.logs && e.swapId == id && SameTerms(t[id].terms, e.terms)
    requires Seen(l, [range], s) == Some(e)
    ensures e in RangeEvents(range, t, s)
  {
    assert Reaches(range, s, l);
    RangeEventsAre(range, t, s, e);
  }

  // ------------------------------------------------ one range, seen by one row

  // Updates never touch what the WHERE clauses look at.
  predicate SameRow(r: Row, r': Row) { r'.terms == r.terms && r'.createdAt == r.createdAt && r'.required == r.required }

  // A batch whose only matching event is `hit` applies `hit`.
  lemma OneBatch(id: string, r: Row, r': Row, batch: seq<SwapEvent>, hit: Option<SwapEvent>)
    requires RowBatch(id, r, r', batch)
    requires forall e :: e in batch && Matches(id, r, e) ==> hit == Some(e)
    requires hit.Some? && Matches(id, r, hit.value) ==> hit.value in batch
    ensures r' == Step(id, r, hit) && SameRow(r, r')
  {
  }

  ghost predicate Setting(id: string, r: Row, t: Table, s: Scene, d: Deal) {
    TableOk(t) && id in s.orders && id in t && SameRow(t[id], r) && DealOk(id, s.orders[id], d, s.chain.logs)
  }

  lemma OwnOnly(id: string, r: Row, t: Table, range: BlockRange, s: Scene, d: Deal)
    requires Setting(id, r, t, s, d)
    ensures forall e :: e in RangeEvents(range, t, s) && Matches(id, r, e) && e.kind.Initiate? ==>
      Seen(d.init, [range], s) == Some(e)
    ensures forall e :: e in RangeEvents(range, t, s) && Matches(id, r, e) && !e.kind.Initiate? ==>
      SeenEnd(d, [range], s) == Some(e)
  {
    forall e | e in RangeEvents(range, t, s) && Matches(id, r, e)
      ensures e.kind.Initiate? ==> Seen(d.init, [range], s) == Some(e)
      ensures !e.kind.Initiate? ==> SeenEnd(d, [range], s) == Some(e)
    {
      OwnEvents(id, t, range, s, d, e);
    }
  }

  lemma OwnPresent(id: string, r: Row, t: Table, range: BlockRange, s: Scene, d: Deal)
    requires Setting(id, r, t, s, d)
    ensures var e := Seen(d.init, [range], s);
      e.Some? && Matches(id, r, e.value) ==> e.value in RangeEvents(range, t, s)
    ensures var e := SeenEnd(d, [range], s);
      e.Some? && Matches(id, r, e.value) ==> e.value in RangeEvents(range, t, s)
  {
    var a, b := Seen(d.init, [range], s), SeenEnd(d, [range], s);
    if a.Some? && Matches(id, r, a.value) {
      EventShape(s, d.init, a.value);
      OwnEventPresent(id, t, range, s, d.init, a.value);
    }
    if b.Some? && Matches(id, r, b.value) {
      EventShape(s, d.end.value, b.value);
      OwnEventPresent(id, t, range, s, d.end.value, b.value);
    }
  }

  lemma InitBatch(id: string, r: Row, r': Row, t: Table, range: BlockRange, s: Scene, d: Deal)
    requires Setting(id, r, t, s, d)
    requires RowBatch(id, r, r', Inits(RangeEvents(range, t, s)))
    ensures r' == Step(id, r, Seen(d.init, [range], s)) && SameRow(r, r')
  {
    OwnOnly(id, r, t, range, s, d);
    OwnPresent(id, r, t, range, s, d);
    DealKinds(id, d, [range], s);
    OneBatch(id, r, r', Inits(RangeEvents(range, t, s)), Seen(d.init, [range], s));
  }

  function OnlyRedeem(e: Option<SwapEvent>): Option<SwapEvent> { if e.Some? && e.value.kind.Redeem? then e else None }
  function OnlyRefund(e: Option<SwapEvent>): Option<SwapEvent> { if e.Some? && e.value.kind.Refund? then e else None }

  lemma RedeemBatch(id: string, r: Row, r': Row, t: Table, range: BlockRange, s: Scene, d: Deal)
    requires Setting(id, r, t, s, d)
    requires RowBatch(id, r, r', Redeems(RangeEvents(range, t, s)))
    ensures r' == Step(id, r, OnlyRedeem(SeenEnd(d, [range], s))) && SameRow(r, r')
  {
    OwnOnly(id, r, t, range, s, d);
    OwnPresent(id, r, t, range, s, d);
    OneBatch(id, r, r', Redeems(RangeEvents(range, t, s)), OnlyRedeem(SeenEnd(d, [range], s)));
  }

  lemma RefundBatch(id: string, r: Row, r': Row, t: Table, range: BlockRange, s: Scene, d: Deal)
    requires Setting(id, r, t, s, d)
    requires RowBatch(id, r, r', Refunds(RangeEvents(range, t, s)))
    ensures r' == Step(id, r, OnlyRefund(SeenEnd(d, [range], s))) && SameRow(r, r')
  {
    OwnOnly(id, r, t, range, s, d);
    OwnPresent(id, r, t, range, s, d);
    OneBatch(id, r, r', Refunds(RangeEvents(range, t, s)), OnlyRefund(SeenEnd(d, [range], s)));
  }

  lemma EndBatches(id: string, r: Row, r1: Row, r': Row, t: Table, range: BlockRange, s: Scene, d: Deal)
    requires Setting(id, r, t, s, d)
    requires RowBatch(id, r, r1, Redeems(RangeEvents(range, t, s)))
    requires RowBatch(id, r1, r', Refunds(RangeEvents(range, t, s)))
    ensures r' == Step(id, r, SeenEnd(d, [range], s))
  {
    RedeemBatch(id, r, r1, t, range, s, d);
    RefundBatch(id, r1, r', t, range, s, d);
    DealKinds(id, d, [range], s);
    OneEnd(id, r, SeenEnd(d, [range], s));
  }

  lemma OneEnd(id: string, r: Row, e: Option<SwapEvent>)
    requires IsEnd(e)
    ensures Step(id, Step(id, r, OnlyRedeem(e)), OnlyRefund(e)) == Step(id, r, e)
  {
  }

  lemma SeenGrows(l: Log, done: seq<BlockRange>, range: BlockRange, s: Scene)
    ensures Seen(l, done + [range], s)
         == if Seen(l, [range], s).Some? then Seen(l, [range], s) else Seen(l, done, s)
  {
    var more := done + [range];
    assert more[|done|] == range && [range][0] == range;
    assert forall i :: 0 <= i < |done| ==> more[i] == done[i];
    assert Covered(more, l.block) <==> Covered(done, l.block) || Contains(range, l.block);
    assert Covered([range], l.block) <==> Contains(range, l.block);
  }

  predicate IsInit(e: Option<SwapEvent>) { e.Some? ==> e.value.kind.Initiate? }
  predicate IsEnd(e: Option<SwapEvent>) { e.Some? ==> !e.value.kind.Initiate? }

  // A deal's events set different columns, so the order of arrival and
  // repeated arrival do not matter.
  lemma StepsMerge(id: string, r: Row, a: Option<SwapEvent>, b: Option<SwapEvent>, a': Option<SwapEvent>,
                   b': Option<SwapEvent>)
    requires IsInit(a) && IsInit(a') && IsEnd(b) && IsEnd(b')
    requires a.Some? && a'.Some? ==> a == a'
    requires b.Some? && b'.Some? ==> b == b'
    ensures Step(id, Step(id, Step(id, Step(id, r, a), b), a'), b')
         == Step(id, Step(id, r, if a'.Some? then a' else a), if b'.Some? then b' else b)
  {
  }

  lemma DealKinds(id: string, d: Deal, done: seq<BlockRange>, s: Scene)
    requires id in s.orders && DealOk(id, s.orders[id], d, s.chain.logs)
    ensures IsInit(Seen(d.init, done, s)) && IsEnd(SeenEnd(d, done, s))
    ensures Seen(d.init, done, s).Some? ==> Seen(d.init, done, s) == s.Event(d.init)
    ensures SeenEnd(d, done, s).Some? ==> SeenEnd(d, done, s) == s.Event(d.end.value)
  {
  }

  // Events keep the row in its setting.
  lemma SoFarSetting(id: string, r0: Row, t: Table, done: seq<BlockRange>, s: Scene, d: Deal)
    requires Setting(id, r0, t, s, d)
    ensures Setting(id, SoFar(id, r0, d, done, s), t, s, d)
  {
    StepSameRow(id, r0, Seen(d.init, done, s));
    StepSameRow(id, Step(id, r0, Seen(d.init, done, s)), SeenEnd(d, done, s));
  }

  lemma StepSameRow(id: string, r: Row, e: Option<SwapEvent>)
    ensures SameRow(r, Step(id, r, e))
  {
  }

  /** One range takes the row from what `done` gave to what `done + [range]` gives. */
  lemma RowRange(id: string, r: Row, r': Row, r0: Row, t: Table, done: seq<BlockRange>, range: BlockRange, s: Scene,
                 d: Deal)
    requires Setting(id, r0, t, s, d) && t[id] == r0
    requires r == SoFar(id, r0, d, done, s)
    requires RowEvents(id, r, r', RangeEvents(range, t, s))
    ensures r' == SoFar(id, r0, d, done + [range], s)
  {
    SoFarSetting(id, r0, t, done, s, d);
    OneRange(id, r, r', t, range, s, d);
    DealKinds(id, d, done, s);
    DealKinds(id, d, [range], s);
    StepsMerge(id, r0, Seen(d.init, done, s), SeenEnd(d, done, s), Seen(d.init, [range], s), SeenEnd(d, [range], s));
    SeenGrows(d.init, done, range, s);
    if d.end.Some? { SeenGrows(d.end.value, done, range, s); }
  }

  lemma OneRange(id: string, r: Row, r': Row, t: Table, range: BlockRange, s: Scene, d: Deal)
    requires Setting(id, r, t, s, d)
    requires RowEvents(id, r, r', RangeEvents(range, t, s))
    ensures r' == SoFar(id, r, d, [range], s)
  {
    var events := RangeEvents(range, t, s);
    var r1, r2 :| RowBatch(id, r, r1, Inits(events)) && RowBatch(id, r1, r2, Redeems(events))
      && RowBatch(id, r2, r', Refunds(events));
    InitBatch(id, r, r1, t, range, s, d);
    EndBatches(id, r1, r2, r', t, range, s, d);
  }

  // Rows outside the scope join no event.
  lemma NoEventOf(id: string, r: Row, rows: Table, t: Table, range: BlockRange, s: Scene)
    requires TableOk(rows) && id in rows && id !in s.orders && t.Keys <= rows.Keys
    ensures forall e :: e in RangeEvents(range, t, s) ==> !Matches(id, r, e)
  {
    forall e | e in RangeEvents(range, t, s) ensures !Matches(id, r, e) {
      RangeEventsAre(range, t, s, e);
      var l :| Reaches(range, s, l) && s.Event(l) == Some(e);
      EventShape(s, l, e);
    }
  }

  lemma OtherRow(id: string, r: Row, r': Row, rows: Table, t: Table, range: BlockRange, s: Scene)
    requires TableOk(rows) && id in rows && id !in s.orders && t.Keys <= rows.Keys
    requires RowEvents(id, r, r', RangeEvents(range, t, s))
    ensures r' == r
  {
    var events := RangeEvents(range, t, s);
    NoEventOf(id, r, rows, t, range, s);
    var r1, r2 :| RowBatch(id, r, r1, Inits(events)) && RowBatch(id, r1, r2, Redeems(events))
      && RowBatch(id, r2, r', Refunds(events));
    OnlyMatchers(id, r, r1, Inits(events), events);
    OnlyMatchers(id, r1, r2, Redeems(events), events);
    OnlyMatchers(id, r2, r', Refunds(events), events);
  }

  // Nor when the store fails after some of the batches.
  lemma OtherRowPartly(id: string, r: Row, r': Row, rows: Table, t: Table, range: BlockRange, s: Scene, n: nat)
    requires TableOk(rows) && id in rows && id !in s.orders && t.Keys <= rows.Keys
    requires RowBatches(id, r, r', RangeEvents(range, t, s), n)
    ensures r' == r
  {
    var events := RangeEvents(range, t, s);
    NoEventOf(id, r, rows, t, range, s);
    if n == 1 {
      OnlyMatchers(id, r, r', Inits(events), events);
    } else if n > 1 {
      var r1 :| RowBatch(id, r, r1, Inits(events)) && RowBatch(id, r1, r', Redeems(events));
      OnlyMatchers(id, r, r1, Inits(events), events);
      OnlyMatchers(id, r1, r', Redeems(events), events);
    }
  }

  lemma OnlyMatchers(id: string, r: Row, r': Row, batch: seq<SwapEvent>, events: seq<SwapEvent>)
    requires RowBatch(id, r, r', batch) && forall e :: e in batch ==> e in events
    requires forall e :: e in events ==> !Matches(id, r, e)
    ensures r' == r
  {
  }

  // ------------------------------------------------------ the table, range by range

  ghost predicate DealsOk(s: Scene, deals: map<string, Deal>) {
    forall id :: id in s.orders ==> id in deals && DealOk(id, s.orders[id], deals[id], s.chain.logs)
  }

  ghost predicate TableSoFar(rows0: Table, rows: Table, deals: map<string, Deal>, done: seq<BlockRange>, s: Scene)
    requires DealsOk(s, deals)
  {
    rows.Keys == rows0.Keys && forall id :: id in rows0 ==>
      rows[id] == if id in s.orders then SoFar(id, rows0[id], deals[id], done, s) else rows0[id]
  }

  // The selected rows are a snapshot of part of the table.
  ghost predicate Snapshot(swaps: Table, rows0: Table, s: Scene) {
    && TableOk(rows0) && swaps.Keys <= rows0.Keys && s.orders.Keys <= swaps.Keys
    && forall id :: id in swaps ==> swaps[id] == rows0[id]
  }

  lemma TableRange(rows0: Table, rows: Table, rows': Table, swaps: Table, deals: map<string, Deal>,
                   done: seq<BlockRange>, range: BlockRange, s: Scene)
    requires DealsOk(s, deals) && Snapshot(swaps, rows0, s)
    requires TableSoFar(rows0, rows, deals, done, s)
    requires EventsApplied(rows, rows', RangeEvents(range, swaps, s))
    ensures TableSoFar(rows0, rows', deals, done + [range], s)
  {
    forall id | id in rows0
      ensures rows'[id] == if id in s.orders then SoFar(id, rows0[id], deals[id], done + [range], s) else rows0[id]
    {
      assert RowEvents(id, rows[id], rows'[id], RangeEvents(range, swaps, s));
      if id in s.orders {
        RowRange(id, rows[id], rows'[id], rows0[id], swaps, done, range, s, deals[id]);
      } else {
        OtherRow(id, rows[id], rows'[id], rows0, swaps, range, s);
      }
    }
  }

  lemma NothingApplied(t: Table)
    ensures EventsApplied(t, t, [])
  {
    forall id | id in t ensures RowEvents(id, t[id], t[id], []) {
      var r := t[id];
      assert RowBatch(id, r, r, Inits([])) && RowBatch(id, r, r, Redeems([])) && RowBatch(id, r, r, Refunds([]));
    }
  }

  lemma NothingSeen(rows0: Table, deals: map<string, Deal>, s: Scene)
    requires DealsOk(s, deals)
    ensures TableSoFar(rows0, rows0, deals, [], s)
  {
  }

  // ------------------------------------------------------------- confirmations

  ghost predicate In(confs: map<int, seq<string>>, c: int, id: string) { c in confs && id in confs[c] }

  ghost predicate Counted(id: string, r: Row, d: Deal, done: seq<BlockRange>, s: Scene) {
    Seen(d.init, done, s).Some? && ValidEvent(Seen(d.init, done, s).value, r)
  }

  ghost predicate CountsSoFar(confs: map<int, seq<string>>, rows0: Table, deals: map<string, Deal>,
                              done: seq<BlockRange>, s: Scene)
    requires DealsOk(s, deals) && s.orders.Keys <= rows0.Keys
  {
    forall c, id :: In(confs, c, id) <==>
      id in s.orders && Counted(id, rows0[id], deals[id], done, s)
      && c == Confirmations(s.chain.height, deals[id].init.block, rows0[id].required)
  }

  // An initiation among `events`, counted for its row.
  ghost predicate Adds(events: seq<SwapEvent>, swaps: Table, height: nat, c: int, id: string) {
    exists e :: e in events && e.kind.Initiate? && e.swapId == id && id in swaps
      && c == Confirmations(height, EventBlock(e), swaps[id].required)
  }

  lemma RangeAdds(range: BlockRange, swaps: Table, rows0: Table, deals: map<string, Deal>, s: Scene, c: int, id: string)
    requires DealsOk(s, deals) && Snapshot(swaps, rows0, s)
    ensures Adds(RangeEvents(range, swaps, s), swaps, s.chain.height, c, id) <==>
      && id in s.orders && Counted(id, rows0[id], deals[id], [range], s)
      && c == Confirmations(s.chain.height, deals[id].init.block, rows0[id].required)
  {
    var events := RangeEvents(range, swaps, s);
    if Adds(events, swaps, s.chain.height, c, id) {
      var e :| e in events && e.kind.Initiate? && e.swapId == id
        && c == Confirmations(s.chain.height, EventBlock(e), swaps[id].required);
      AddedIsOwn(range, swaps, rows0, deals, s, e);
    }
    if id in s.orders && Counted(id, rows0[id], deals[id], [range], s) {
      var e := Seen(deals[id].init, [range], s).value;
      EventShape(s, deals[id].init, e);
      OwnEventPresent(id, swaps, range, s, deals[id].init, e);
    }
  }

  lemma AddedIsOwn(range: BlockRange, swaps: Table, rows0: Table, deals: map<string, Deal>, s: Scene, e: SwapEvent)
    requires DealsOk(s, deals) && Snapshot(swaps, rows0, s)
    requires e in RangeEvents(range, swaps, s) && e.kind.Initiate?
    ensures e.swapId in s.orders && Counted(e.swapId, rows0[e.swapId], deals[e.swapId], [range], s)
    ensures EventBlock(e) == deals[e.swapId].init.block
  {
    RangeEventsAre(range, swaps, s, e);
    var l :| Reaches(range, s, l) && s.Event(l) == Some(e);
    EventShape(s, l, e);
    var id := e.swapId;
    OwnEvents(id, swaps, range, s, deals[id], e);
    EventShape(s, deals[id].init, e);
  }

  lemma CountsRange(confs: map<int, seq<string>>, confs': map<int, seq<string>>, rows0: Table, swaps: Table,
                    deals: map<string, Deal>, done: seq<BlockRange>, range: BlockRange, s: Scene)
    requires DealsOk(s, deals) && Snapshot(swaps, rows0, s)
    requires CountsSoFar(confs, rows0, deals, done, s)
    requires forall c, id :: In(confs', c, id) <==>
      In(confs, c, id) || Adds(RangeEvents(range, swaps, s), swaps, s.chain.height, c, id)
    ensures CountsSoFar(confs', rows0, deals, done + [range], s)
  {
    forall c, id
      ensures In(confs', c, id) <==>
        id in s.orders && Counted(id, rows0[id], deals[id], done + [range], s)
        && c == Confirmations(s.chain.height, deals[id].init.block, rows0[id].required)
    {
      RangeAdds(range, swaps, rows0, deals, s, c, id);
      if id in s.orders {
        SeenGrows(deals[id].init, done, range, s);
        DealKinds(id, deals[id], done, s);
        DealKinds(id, deals[id], [range], s);
      }
    }
  }

  // ------------------------------------------------------------ the whole round

  // The event of a log the address filter admits.
  function Fetched(l: Log, s: Scene): Option<SwapEvent> {
    if l.address in Addresses(s.cfg, l.version) then s.Event(l) else None
  }

  function FetchedEnd(d: Deal, s: Scene): Option<SwapEvent> {
    if d.end.Some? then Fetched(d.end.value, s) else None
  }

  /** The row of an order in scope after a completed round. */
  function RoundRow(id: string, r: Row, d: Deal, s: Scene): Row {
    var init := Fetched(d.init, s);
    var stepped := Step(id, Step(id, r, init), FetchedEnd(d, s));
    if init.Some? && ValidEvent(init.value, r)
    then stepped.(confirmations := Least(r.required, Confirmations(s.chain.height, d.init.block, r.required)))
    else stepped
  }

  // ------------------------------------------------- a round that stops half way

  // Which of a round's three writes reach a row.
  datatype Effect = Effect(init: bool, end: bool, counted: bool)

  const NONE := Effect(false, false, false)
  const FULL := Effect(true, true, true)

  function Only(on: bool, e: Option<SwapEvent>): Option<SwapEvent> { if on then e else None }

  // Whether the initiation of the row's order is counted.
  predicate CountsRow(r: Row, d: Deal, s: Scene) {
    Fetched(d.init, s).Some? && ValidEvent(Fetched(d.init, s).value, r)
  }

  /** The row of an order in scope after those writes. */
  function PartRow(id: string, r: Row, d: Deal, s: Scene, e: Effect): Row {
    var stepped := Step(id, Step(id, r, Only(e.init, Fetched(d.init, s))), Only(e.end, FetchedEnd(d, s)));
    if e.counted && CountsRow(r, d, s)
    then stepped.(confirmations := Least(r.required, Confirmations(s.chain.height, d.init.block, r.required)))
    else stepped
  }

  lemma FullIsRound(id: string, r: Row, d: Deal, s: Scene)
    ensures PartRow(id, r, d, s, FULL) == RoundRow(id, r, d, s)
  {
  }

  // Where a round stopped: before its ranges, at the k-th range after some of its
  // batches, after some of the confirmation counts, or not at all.
  datatype Reached = AtRead | AtRange(k: nat, batches: nat) | AtCounts(counts: seq<int>) | AtEnd

  ghost function EffectOf(r: Row, d: Deal, ranges: seq<BlockRange>, reached: Reached, s: Scene): Effect {
    match reached
    case AtRead => NONE
    case AtRange(k, n) =>
      if k >= |ranges| then NONE
      else Effect(
        Covered(ranges[..k], d.init.block) || (n >= 1 && Contains(ranges[k], d.init.block)),
        d.end.Some? && (Covered(ranges[..k], d.end.value.block)
          || (n >= 2 && Contains(ranges[k], d.end.value.block) && d.end.value.kind.RedeemedLog?)),
        false)
    case AtCounts(counts) => Effect(true, true, Confirmations(s.chain.height, d.init.block, r.required) in counts)
    case AtEnd => FULL
  }

  lemma SoFarIsPart(id: string, r: Row, d: Deal, done: seq<BlockRange>, s: Scene)
    ensures SoFar(id, r, d, done, s) == PartRow(id, r, d, s,
      Effect(Covered(done, d.init.block), d.end.Some? && Covered(done, d.end.value.block), false))
  {
  }

  // The redeem batch of one range, as the row sees it.
  lemma RedeemIn(range: BlockRange, d: Deal, s: Scene, id: string)
    requires id in s.orders && DealOk(id, s.orders[id], d, s.chain.logs)
    ensures OnlyRedeem(SeenEnd(d, [range], s)) == Only(
      d.end.Some? && Contains(range, d.end.value.block) && d.end.value.kind.RedeemedLog?, FetchedEnd(d, s))
    ensures Seen(d.init, [range], s) == Only(Contains(range, d.init.block), Fetched(d.init, s))
  {
    assert [range][0] == range;
  }

  // What a row is after the first batches of a range, from what it was before it.
  lemma MergedIsPart(id: string, r0: Row, d: Deal, done: seq<BlockRange>, range: BlockRange, s: Scene, n: nat)
    requires id in s.orders && DealOk(id, s.orders[id], d, s.chain.logs) && 1 <= n <= 2
    ensures Step(id, Step(id, SoFar(id, r0, d, done, s), Seen(d.init, [range], s)),
                 if n == 2 then OnlyRedeem(SeenEnd(d, [range], s)) else None)
      == PartRow(id, r0, d, s, Effect(
           Covered(done, d.init.block) || Contains(range, d.init.block),
           d.end.Some? && (Covered(done, d.end.value.block)
             || (n == 2 && Contains(range, d.end.value.block) && d.end.value.kind.RedeemedLog?)),
           false))
  {
    DealKinds(id, d, done, s);
    DealKinds(id, d, [range], s);
    RedeemIn(range, d, s, id);
    StepsMerge(id, r0, Seen(d.init, done, s), SeenEnd(d, done, s), Seen(d.init, [range], s),
               if n == 2 then OnlyRedeem(SeenEnd(d, [range], s)) else None);
  }

  /** A row at a range whose update failed after n batches. */
  lemma RowPartly(id: string, r: Row, r': Row, r0: Row, t: Table, ranges: seq<BlockRange>, k: nat, n: nat, s: Scene,
                  d: Deal)
    requires Setting(id, r0, t, s, d) && t[id] == r0 && k < |ranges| && n < 3
    requires r == SoFar(id, r0, d, ranges[..k], s)
    requires RowBatches(id, r, r', RangeEvents(ranges[k], t, s), n)
    ensures r' == PartRow(id, r0, d, s, EffectOf(r0, d, ranges, AtRange(k, n), s))
  {
    if n == 0 {
      SoFarIsPart(id, r0, d, ranges[..k], s);
    } else {
      SoFarSetting(id, r0, t, ranges[..k], s, d);
      BatchSteps(id, r, r', t, ranges[k], n, s, d);
      MergedIsPart(id, r0, d, ranges[..k], ranges[k], s, n);
    }
  }

  lemma BatchSteps(id: string, r: Row, r': Row, t: Table, range: BlockRange, n: nat, s: Scene, d: Deal)
    requires Setting(id, r, t, s, d) && 1 <= n <= 2 && RowBatches(id, r, r', RangeEvents(range, t, s), n)
    ensures r' == Step(id, Step(id, r, Seen(d.init, [range], s)),
                       if n == 2 then OnlyRedeem(SeenEnd(d, [range], s)) else None)
  {
    if n == 1 {
      InitBatch(id, r, r', t, range, s, d);
    } else {
      var events := RangeEvents(range, t, s);
      var r1 :| RowBatch(id, r, r1, Inits(events)) && RowBatch(id, r1, r', Redeems(events));
      InitBatch(id, r, r1, t, range, s, d);
      RedeemBatch(id, r1, r', t, range, s, d);
    }
  }

  // Every row in scope has the writes the round got to, every other row none.
  ghost predicate Partly(rows0: Table, rows: Table, deals: map<string, Deal>, s: Scene, ranges: seq<BlockRange>,
                         reached: Reached)
    requires DealsOk(s, deals)
  {
    rows.Keys == rows0.Keys && forall id :: id in rows0 ==>
      rows[id] == if id in s.orders
        then PartRow(id, rows0[id], deals[id], s, EffectOf(rows0[id], deals[id], ranges, reached, s))
        else rows0[id]
  }

  lemma StoppedIn(rows0: Table, rows: Table, rows': Table, swaps: Table, deals: map<string, Deal>,
                  ranges: seq<BlockRange>, k: nat, n: nat, s: Scene)
    requires DealsOk(s, deals) && Snapshot(swaps, rows0, s) && k < |ranges| && n < 3
    requires TableSoFar(rows0, rows, deals, ranges[..k], s)
    requires BatchesApplied(rows, rows', RangeEvents(ranges[k], swaps, s), n)
    ensures Partly(rows0, rows', deals, s, ranges, AtRange(k, n))
  {
    forall id | id in rows0
      ensures rows'[id] == if id in s.orders
        then PartRow(id, rows0[id], deals[id], s, EffectOf(rows0[id], deals[id], ranges, AtRange(k, n), s))
        else rows0[id]
    {
      assert RowBatches(id, rows[id], rows'[id], RangeEvents(ranges[k], swaps, s), n);
      if id in s.orders {
        RowPartly(id, rows[id], rows'[id], rows0[id], swaps, ranges, k, n, s, deals[id]);
      } else {
        OtherRowPartly(id, rows[id], rows'[id], rows0, swaps, ranges[k], s, n);
      }
    }
  }

  // The blocks the round must query.
  ghost function EventBlocks(orders: map<string, Order>): set<nat> {
    (set id | id in orders && orders[id].initiatedAt > 0 :: orders[id].initiatedAt)
    + (set id | id in orders && orders[id].fulfilledAt > 0 :: orders[id].fulfilledAt)
  }

  lemma AllSeen(id: string, d: Deal, done: seq<BlockRange>, s: Scene)
    requires id in s.orders && DealOk(id, s.orders[id], d, s.chain.logs)
    requires Covers(done, EventBlocks(s.orders))
    ensures Seen(d.init, done, s) == Fetched(d.init, s) && SeenEnd(d, done, s) == FetchedEnd(d, s)
  {
    assert d.init.block in EventBlocks(s.orders);
    if d.end.Some? { assert d.end.value.block in EventBlocks(s.orders); }
  }

  // The confirmation updates, seen by one row.
  lemma RowCounts(id: string, rows0: Table, rows1: Table, confs: map<int, seq<string>>, order: seq<int>,
                  deals: map<string, Deal>, done: seq<BlockRange>, s: Scene)
    requires DealsOk(s, deals) && s.orders.Keys <= rows0.Keys && id in rows0 && id in rows1
    requires CountsSoFar(confs, rows0, deals, done, s)
    requires forall c :: c in order <==> c in confs
    ensures ApplyCounts(rows1, confs, order)[id] ==
      if id in s.orders && Counted(id, rows0[id], deals[id], done, s)
      then rows1[id].(confirmations :=
             Least(rows1[id].required, Confirmations(s.chain.height, deals[id].init.block, rows0[id].required)))
      else rows1[id]
  {
    CountsApplied(rows1, confs, order, id);
    assert forall c :: c in order && id in confs[c] <==> In(confs, c, id);
    if id in s.orders && Counted(id, rows0[id], deals[id], done, s) {
      var n := Confirmations(s.chain.height, deals[id].init.block, rows0[id].required);
      assert In(confs, n, id);
    }
  }

  // The confirmation updates up to one that fails.
  lemma RowCountsPartly(id: string, rows0: Table, rows1: Table, confs: map<int, seq<string>>, order: seq<int>,
                        deals: map<string, Deal>, done: seq<BlockRange>, s: Scene)
    requires DealsOk(s, deals) && s.orders.Keys <= rows0.Keys && id in rows0 && id in rows1
    requires CountsSoFar(confs, rows0, deals, done, s) && forall c :: c in order ==> c in confs
    ensures id !in s.orders ==> ApplyCounts(rows1, confs, order)[id] == rows1[id]
    ensures id in s.orders ==>
      var n := Confirmations(s.chain.height, deals[id].init.block, rows0[id].required);
      ApplyCounts(rows1, confs, order)[id] ==
        if n in order && Counted(id, rows0[id], deals[id], done, s)
        then rows1[id].(confirmations := Least(rows1[id].required, n))
        else rows1[id]
  {
    CountsApplied(rows1, confs, order, id);
    forall c | c in order ensures id in confs[c] <==> In(confs, c, id) {}
    if id in s.orders {
      var n := Confirmations(s.chain.height, deals[id].init.block, rows0[id].required);
      if n in order && Counted(id, rows0[id], deals[id], done, s) { assert In(confs, n, id); }
    }
  }

  lemma StoppedCounting(rows0: Table, rows1: Table, confs: map<int, seq<string>>, order: seq<int>,
                        deals: map<string, Deal>, ranges: seq<BlockRange>, s: Scene)
    requires DealsOk(s, deals) && s.orders.Keys <= rows0.Keys && TableSoFar(rows0, rows1, deals, ranges, s)
    requires CountsSoFar(confs, rows0, deals, ranges, s) && forall c :: c in order ==> c in confs
    requires Covers(ranges, EventBlocks(s.orders))
    ensures Partly(rows0, ApplyCounts(rows1, confs, order), deals, s, ranges, AtCounts(order))
  {
    forall id | id in rows0
      ensures ApplyCounts(rows1, confs, order)[id] == if id in s.orders
        then PartRow(id, rows0[id], deals[id], s, EffectOf(rows0[id], deals[id], ranges, AtCounts(order), s))
        else rows0[id]
    {
      RowCountsPartly(id, rows0, rows1, confs, order, deals, ranges, s);
      if id in s.orders { CountedPart(id, rows0[id], deals[id], ranges, s); }
    }
  }

  lemma CountedPart(id: string, r: Row, d: Deal, ranges: seq<BlockRange>, s: Scene)
    requires id in s.orders && DealOk(id, s.orders[id], d, s.chain.logs) && Covers(ranges, EventBlocks(s.orders))
    ensures SoFar(id, r, d, ranges, s) == PartRow(id, r, d, s, Effect(true, true, false))
    ensures Counted(id, r, d, ranges, s) <==> CountsRow(r, d, s)
    ensures SameRow(r, SoFar(id, r, d, ranges, s))
  {
    AllSeen(id, d, ranges, s);
  }

  lemma RowDone(id: string, rows0: Table, rows1: Table, confs: map<int, seq<string>>, order: seq<int>,
                deals: map<string, Deal>, done: seq<BlockRange>, s: Scene)
    requires DealsOk(s, deals) && s.orders.Keys <= rows0.Keys && id in rows0
    requires TableSoFar(rows0, rows1, deals, done, s) && CountsSoFar(confs, rows0, deals, done, s)
    requires Covers(done, EventBlocks(s.orders))
    requires forall c :: c in order <==> c in confs
    ensures ApplyCounts(rows1, confs, order)[id]
         == if id in s.orders then RoundRow(id, rows0[id], deals[id], s) else rows0[id]
  {
    RowCounts(id, rows0, rows1, confs, order, deals, done, s);
    if id in s.orders {
      assert rows1[id] == SoFar(id, rows0[id], deals[id], done, s);
      RoundRowIs(id, rows0[id], deals[id], done, s);
    }
  }

  lemma RoundRowIs(id: string, r: Row, d: Deal, done: seq<BlockRange>, s: Scene)
    requires id in s.orders && DealOk(id, s.orders[id], d, s.chain.logs)
    requires Covers(done, EventBlocks(s.orders))
    ensures var p := SoFar(id, r, d, done, s);
      RoundRow(id, r, d, s) == if Counted(id, r, d, done, s)
        then p.(confirmations := Least(p.required, Confirmations(s.chain.height, d.init.block, r.required)))
        else p
  {
    AllSeen(id, d, done, s);
  }
}

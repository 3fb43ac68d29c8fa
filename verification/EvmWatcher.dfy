/** evm-watcher/src/watcher/watcher.rs: one polling round. */
module EvmWatcher {
  import opened Common
  import opened BlockRanges
  import opened EvmSwaps
  import opened EvmEvents
  import opened EvmRound

  datatype Outcome = Done | Idle | Failed

  // What fails in a round: reading the orders or the height; the items of the
  // event stream whose query or block-time lookup fails; the items at which the
  // store fails, with the failing statement; the failing confirmation update.
  datatype Faults = Faults(reading: bool, stream: set<nat>, updates: map<nat, nat>, confirmations: Option<nat>)

  predicate Faultless(f: Faults) { !f.reading && f.stream == {} && f.updates == map[] && f.confirmations.None? }

  // `get_swaps`: not initiated and not expired, or initiated and not over.
  predicate Pending(r: Row, now: int, deadlineBuffer: int) {
    || (r.initiate.txHash == "" && r.createdAt + deadlineBuffer > now)
    || (r.initiate.txHash != "" && r.redeem.txHash == "" && r.refund.txHash == "")
  }

  function GetSwaps(rows: Table, chain: string, now: int, deadlineBuffer: int): (r: Table)
    ensures r.Keys <= rows.Keys && forall id :: id in r ==> r[id] == rows[id]
  {
    map id | id in rows && rows[id].terms.chain == chain && Pending(rows[id], now, deadlineBuffer) :: rows[id]
  }

  // `fetch_onchain_orders`: the non-empty orders of the given swaps.
  function FetchOrders(swaps: Table, chain: Chain): map<string, Order> {
    map id | id in swaps && id in chain.orders && !IsEmpty(chain.orders[id]) :: chain.orders[id]
  }

  // `validate_swap::validate_swaps`
  function ValidateSwaps(statuses: map<string, OrderStatus>, swaps: Table, height: nat): set<string> {
    set id | id in swaps && Selected(swaps[id], if id in statuses then Some(statuses[id]) else None, height)
  }

  // The blocks an order contributes to the round.
  function BlocksOf(o: Order): seq<nat> {
    (if o.initiatedAt > 0 then [o.initiatedAt] else []) + (if o.fulfilledAt > 0 then [o.fulfilledAt] else [])
  }

  method CreateEventBlocksRanges(orders: map<string, Order>, maxBlockSpan: nat) returns (ranges: seq<BlockRange>)
    ensures Covers(ranges, EventBlocks(orders))
    ensures ranges == Greedy(Listing(EventBlocks(orders)), maxBlockSpan)
  {
    var blocks: seq<nat> := [];
    var todo: set<string> := orders.Keys;
    while todo != {}
      invariant todo <= orders.Keys
      invariant forall b :: b in blocks <==> exists id :: id in orders && id !in todo && b in BlocksOf(orders[id])
      decreases |todo|
    {
      var id :| id in todo;
      blocks := blocks + BlocksOf(orders[id]);
      todo := todo - {id};
    }
    BlocksAreEventBlocks(blocks, orders);
    var grouped := GroupBlockRanges(blocks, maxBlockSpan);
    GroupingIsACover(blocks, maxBlockSpan);
    ranges := DropEmpty(grouped, NonZero(blocks));
  }

  lemma BlocksAreEventBlocks(blocks: seq<nat>, orders: map<string, Order>)
    requires forall b :: b in blocks <==> exists id :: id in orders && b in BlocksOf(orders[id])
    ensures NonZero(blocks) == EventBlocks(orders)
  {
    forall b | b in EventBlocks(orders) ensures b in NonZero(blocks) {
      var id :| id in orders && (b == orders[id].initiatedAt > 0 || b == orders[id].fulfilledAt > 0);
      assert b in BlocksOf(orders[id]);
    }
  }

  // The filter on `is_empty`; grouped ranges never are.
  method DropEmpty(grouped: seq<BlockRange>, blocks: set<nat>) returns (ranges: seq<BlockRange>)
    requires Tight(grouped, blocks) && 0 !in blocks
    ensures ranges == grouped
  {
    ranges := [];
    for i := 0 to |grouped|
      invariant ranges == grouped[..i]
    {
      if !(grouped[i].fromBlock == 0 || grouped[i].toBlock == 0) { ranges := ranges + [grouped[i]]; }
    }
  }

  // `collect_initiated_event_confirmations`
  method CollectConfirmations(events: seq<SwapEvent>, current: map<int, seq<string>>, swaps: Table, height: nat)
    returns (confs: map<int, seq<string>>)
    ensures forall c, id :: In(confs, c, id) <==> In(current, c, id) || Adds(events, swaps, height, c, id)
  {
    confs := current;
    for i := 0 to |events|
      invariant forall c, id :: In(confs, c, id) <==> In(current, c, id) || Adds(events[..i], swaps, height, c, id)
    {
      var e := events[i];
      ghost var before := confs;
      if e.kind.Initiate? && e.swapId in swaps {
        var n := Confirmations(height, EventBlock(e), swaps[e.swapId].required);
        confs := confs[n := (if n in confs then confs[n] else []) + [e.swapId]];
      }
      AddOne(events, i, swaps, height, before, confs);
    }
    assert events[..|events|] == events;
  }

  lemma AddOne(events: seq<SwapEvent>, i: nat, swaps: Table, height: nat, before: map<int, seq<string>>,
               after: map<int, seq<string>>)
    requires i < |events|
    requires var e := events[i];
      after == if e.kind.Initiate? && e.swapId in swaps
        then var n := Confirmations(height, EventBlock(e), swaps[e.swapId].required);
             before[n := (if n in before then before[n] else []) + [e.swapId]]
        else before
    ensures forall c, id :: In(after, c, id) || Adds(events[..i], swaps, height, c, id) <==>
      In(before, c, id) || Adds(events[..i + 1], swaps, height, c, id)
    ensures forall c, id :: Adds(events[..i], swaps, height, c, id) ==> Adds(events[..i + 1], swaps, height, c, id)
  {
  }

  class HTLCEventWatcher {
    const cfg: Config
    const store: SwapStore
    var previousBlock: nat

    constructor (cfg: Config, store: SwapStore)
      ensures this.cfg == cfg && this.store == store && previousBlock == 0
    {
      this.cfg, this.store, previousBlock := cfg, store, 0;
    }

    /** `process_events`: it ends exactly at `reached`, and every row in scope has the
        writes up to there. */
    method ProcessEvents(swaps: Table, s: Scene, faults: Faults, ghost deals: map<string, Deal>)
      returns (ok: bool, ghost reached: Reached)
      requires s.cfg == cfg && DealsOk(s, deals) && Snapshot(swaps, store.rows, s)
      requires s.orders != map[] && !faults.reading
      modifies store
      ensures ok <==> reached.AtEnd?
      ensures Partly(old(store.rows), store.rows, deals, s, RoundRanges(s), reached)
      ensures Stops(faults, reached, old(store.rows), deals, s)
      ensures Halts(faults, RoundRanges(s), reached, swaps, s)
    {
      var ranges := CreateEventBlocksRanges(s.orders, cfg.maxBlockSpan);
      if ranges == [] {
        SomeRange(s, deals, ranges);
        assert false;
      }
      var confs: map<int, seq<string>>;
      ghost var rows0 := store.rows;
      ok, confs, reached := ProcessRanges(ranges, swaps, s, faults, deals);
      if !ok { return; }
      ok, reached := StoreConfirmations(confs, s, faults, deals, rows0, ranges);
    }

    // `store_confirmations`, after the stream.
    method StoreConfirmations(confs: map<int, seq<string>>, s: Scene, faults: Faults, ghost deals: map<string, Deal>,
                              ghost rows0: Table, ghost ranges: seq<BlockRange>)
      returns (ok: bool, ghost reached: Reached)
      requires DealsOk(s, deals) && s.orders.Keys <= rows0.Keys && !faults.reading
      requires TableSoFar(rows0, store.rows, deals, ranges, s) && CountsSoFar(confs, rows0, deals, ranges, s)
      requires Covers(ranges, EventBlocks(s.orders))
      modifies store
      ensures ok <==> reached.AtEnd?
      ensures reached.AtCounts? || reached.AtEnd?
      ensures Partly(rows0, store.rows, deals, s, ranges, reached) && Stops(faults, reached, rows0, deals, s)
    {
      ghost var rows1 := store.rows;
      ghost var order;
      ok, order := store.UpdateConfirmations(confs, faults.confirmations);
      if ok {
        reached := AtEnd;
        TableDone(rows0, rows1, confs, order, deals, ranges, s);
        if faults.confirmations == Some(0) { NoneCounted(confs, rows0, deals, ranges, s); }
      } else {
        reached := AtCounts(order);
        StoppedCounting(rows0, rows1, confs, order, deals, ranges, s);
      }
    }

    // The loop over the event stream: the first item that fails ends it.
    method ProcessRanges(ranges: seq<BlockRange>, swaps: Table, s: Scene, faults: Faults,
                         ghost deals: map<string, Deal>)
      returns (ok: bool, confs: map<int, seq<string>>, ghost reached: Reached)
      requires s.cfg == cfg && DealsOk(s, deals) && Snapshot(swaps, store.rows, s) && !faults.reading
      modifies store
      ensures ok <==> reached.AtEnd?
      ensures Halts(faults, ranges, reached, swaps, s)
      ensures ok ==> TableSoFar(old(store.rows), store.rows, deals, ranges, s)
      ensures ok ==> CountsSoFar(confs, old(store.rows), deals, ranges, s)
      ensures !ok ==> Stops(faults, reached, old(store.rows), deals, s)
      ensures !ok ==> Partly(old(store.rows), store.rows, deals, s, ranges, reached)
    {
      ghost var rows0 := store.rows;
      NothingSeen(rows0, deals, s);
      NothingCounted(rows0, deals, s);
      confs, reached := map[], AtEnd;
      for k := 0 to |ranges|
        invariant TableSoFar(rows0, store.rows, deals, ranges[..k], s)
        invariant CountsSoFar(confs, rows0, deals, ranges[..k], s)
        invariant NoneFails(faults, ranges, k, swaps, s)
      {
        ok, confs := ProcessItem(ranges, k, swaps, s, confs, faults, deals, rows0);
        if !ok {
          reached := AtRange(k, BatchesAt(faults, k));
          return;
        }
      }
      assert ranges[..|ranges|] == ranges;
      ok := true;
    }

    // One turn of that loop.
    method ProcessItem(ranges: seq<BlockRange>, k: nat, swaps: Table, s: Scene, current: map<int, seq<string>>,
                       faults: Faults, ghost deals: map<string, Deal>, ghost rows0: Table)
      returns (ok: bool, confs: map<int, seq<string>>)
      requires s.cfg == cfg && DealsOk(s, deals) && Snapshot(swaps, rows0, s) && k < |ranges|
      requires TableSoFar(rows0, store.rows, deals, ranges[..k], s)
      requires CountsSoFar(current, rows0, deals, ranges[..k], s)
      modifies store
      ensures ok <==> !FailsAt(faults, k, ranges[k], swaps, s)
      ensures ok ==> TableSoFar(rows0, store.rows, deals, ranges[..k + 1], s)
      ensures ok ==> CountsSoFar(confs, rows0, deals, ranges[..k + 1], s)
      ensures !ok ==> Partly(rows0, store.rows, deals, s, ranges, AtRange(k, BatchesAt(faults, k)))
    {
      ghost var rows := store.rows;
      ok, confs := ProcessRange(ranges[k], swaps, s, current, k, faults, deals, rows0, ranges[..k]);
      if ok {
        assert ranges[..k + 1] == ranges[..k] + [ranges[k]];
      } else {
        StoppedIn(rows0, rows, store.rows, swaps, deals, ranges, k, BatchesAt(faults, k), s);
      }
    }

    // The k-th item of the stream.
    method ProcessRange(range: BlockRange, swaps: Table, s: Scene, current: map<int, seq<string>>, k: nat,
                        faults: Faults, ghost deals: map<string, Deal>, ghost rows0: Table,
                        ghost done: seq<BlockRange>)
      returns (ok: bool, confs: map<int, seq<string>>)
      requires s.cfg == cfg && DealsOk(s, deals) && Snapshot(swaps, rows0, s)
      requires TableSoFar(rows0, store.rows, deals, done, s) && CountsSoFar(current, rows0, deals, done, s)
      modifies store
      ensures ok <==> !FailsAt(faults, k, range, swaps, s)
      ensures ok ==> TableSoFar(rows0, store.rows, deals, done + [range], s)
      ensures ok ==> CountsSoFar(confs, rows0, deals, done + [range], s)
      ensures !ok ==> BatchesAt(faults, k) < 3
      ensures !ok ==>
        BatchesApplied(old(store.rows), store.rows, RangeEvents(range, swaps, s), BatchesAt(faults, k))
    {
      if k in faults.stream { return false, current; }
      var validated := FetchEvents(range, swaps, s);
      ok, confs := ApplyEvents(validated, range, swaps, s, current, k, faults, deals, rows0, done);
    }

    // The item's logs as validated events.
    method FetchEvents(range: BlockRange, swaps: Table, s: Scene) returns (validated: seq<SwapEvent>)
      requires s.cfg == cfg
      ensures validated == RangeEvents(range, swaps, s)
    {
      var v2 := Query(s.chain.logs, range, V2, cfg.v2);
      var v3 := Query(s.chain.logs, range, V3, cfg.v3);
      var events := PrepareStoreEvents(v2, v3, s.orders, s.chain.time, cfg.name);
      validated := ValidateEvents(swaps, events);
    }

    // Storing them and collecting their confirmations.
    method ApplyEvents(validated: seq<SwapEvent>, range: BlockRange, swaps: Table, s: Scene,
                       current: map<int, seq<string>>, k: nat, faults: Faults, ghost deals: map<string, Deal>,
                       ghost rows0: Table, ghost done: seq<BlockRange>)
      returns (ok: bool, confs: map<int, seq<string>>)
      requires validated == RangeEvents(range, swaps, s) && k !in faults.stream
      requires DealsOk(s, deals) && Snapshot(swaps, rows0, s)
      requires TableSoFar(rows0, store.rows, deals, done, s) && CountsSoFar(current, rows0, deals, done, s)
      modifies store
      ensures ok <==> !FailsAt(faults, k, range, swaps, s)
      ensures ok ==> TableSoFar(rows0, store.rows, deals, done + [range], s)
      ensures ok ==> CountsSoFar(confs, rows0, deals, done + [range], s)
      ensures !ok ==> BatchesAt(faults, k) < 3
      ensures !ok ==>
        BatchesApplied(old(store.rows), store.rows, RangeEvents(range, swaps, s), BatchesAt(faults, k))
    {
      confs, ok := current, true;
      ghost var rows := store.rows;
      NothingApplied(rows);
      if |validated| > 0 {
        ok := store.UpdateEvents(validated, if k in faults.updates then Some(faults.updates[k]) else None);
        if !ok { return; }
        confs := CollectConfirmations(validated, confs, swaps, s.chain.height);
      }
      TableRange(rows0, rows, store.rows, swaps, deals, done, range, s);
      CountsRange(current, confs, rows0, swaps, deals, done, range, s);
    }

    /** `watch`: one round on the chain as read; `s` is the round's scope. A round
        that fails leaves every row in scope with the writes it got to. */
    method Watch(now: int, deadlineBuffer: int, chain: Chain, faults: Faults, ghost deals: map<string, Deal>)
      returns (outcome: Outcome, ghost s: Scene, ghost reached: Reached)
      requires TableOk(store.rows) && OneShot(chain, deals)
      modifies this`previousBlock, store
      ensures s == Scene(cfg, chain, ScopeOrders(GetSwaps(old(store.rows), cfg.name, now, deadlineBuffer), chain))
      ensures DealsOk(s, deals) && Frame(old(store.rows), store.rows, s)
      ensures outcome.Failed? ==> !Faultless(faults) && !reached.AtEnd?
      ensures outcome.Done? ==> RoundDone(old(store.rows), store.rows, deals, s) && reached.AtEnd?
      ensures !outcome.Idle? ==> Partly(old(store.rows), store.rows, deals, s, RoundRanges(s), reached)
      ensures !outcome.Idle? ==> Stops(faults, reached, old(store.rows), deals, s)
      ensures outcome.Idle? ==>
        store.rows == old(store.rows) && (chain.height < old(previousBlock) || s.orders == map[])
      ensures !faults.reading ==> (outcome.Idle? <==> chain.height < old(previousBlock) || s.orders == map[])
      ensures previousBlock == if outcome.Done? then chain.height else old(previousBlock)
      ensures !outcome.Idle? ==> faults.reading || chain.height >= old(previousBlock)
      ensures old(previousBlock) <= previousBlock
    {
      var pending := GetSwaps(store.rows, cfg.name, now, deadlineBuffer);
      ghost var scope := ScopeOrders(pending, chain);
      s, reached := Scene(cfg, chain, scope), AtRead;
      ScopeDeals(s, pending, deals);
      NothingLeft(store.rows, deals, s);
      var fetched := FetchOrders(pending, chain);
      ScopeIsFetched(pending, fetched, chain);
      ghost var rows0 := store.rows;
      outcome := Idle;
      if |pending| != 0 && |fetched| != 0 {
        if faults.reading {
          outcome := Failed;
        } else if chain.height >= previousBlock {
          outcome, reached := ValidateAndProcess(pending, fetched, chain, faults, deals, s);
          if !outcome.Idle? { PartlyFrames(rows0, store.rows, deals, s, RoundRanges(s), reached); }
        }
      }
    }

    // The second half of `watch`, once the height has been accepted.
    method ValidateAndProcess(pending: Table, fetched: map<string, Order>, chain: Chain, faults: Faults,
                              ghost deals: map<string, Deal>, ghost s: Scene)
      returns (outcome: Outcome, ghost reached: Reached)
      requires TableOk(store.rows) && DealsOk(s, deals)
      requires pending.Keys <= store.rows.Keys && forall id :: id in pending ==> pending[id] == store.rows[id]
      requires fetched == FetchOrders(pending, chain) && s == Scene(cfg, chain, ScopeOrders(pending, chain))
      requires !faults.reading
      modifies this`previousBlock, store
      ensures outcome.Failed? ==> !reached.AtEnd?
      ensures outcome.Done? ==> reached.AtEnd?
      ensures !outcome.Idle? ==> Partly(old(store.rows), store.rows, deals, s, RoundRanges(s), reached)
      ensures !outcome.Idle? ==> Stops(faults, reached, old(store.rows), deals, s)
      ensures outcome.Idle? <==> s.orders == map[]
      ensures outcome.Idle? ==> store.rows == old(store.rows)
      ensures previousBlock == if outcome.Done? then chain.height else old(previousBlock)
    {
      reached := AtRead;
      var swaps, orders := SelectSwaps(pending, fetched, chain);
      if |swaps| == 0 || |orders| == 0 { return Idle, reached; }
      ScopeSnapshot(store.rows, pending, swaps, s);
      var ok;
      ok, reached := ProcessEvents(swaps, Scene(cfg, chain, orders), faults, deals);
      if !ok { return Failed, reached; }
      previousBlock := chain.height;
      outcome := Done;
    }
  }

  // The ranges a round queries.
  ghost function RoundRanges(s: Scene): seq<BlockRange> {
    Greedy(Listing(EventBlocks(s.orders)), s.cfg.maxBlockSpan)
  }

  // Whether the k-th item of the stream fails: its query, or a statement the store
  // has something to do in.
  ghost predicate FailsAt(faults: Faults, k: nat, range: BlockRange, swaps: Table, s: Scene) {
    || k in faults.stream
    || (k in faults.updates && faults.updates[k] < 3 && Batch(RangeEvents(range, swaps, s), faults.updates[k]) != [])
  }

  ghost predicate NoneFails(faults: Faults, ranges: seq<BlockRange>, n: nat, swaps: Table, s: Scene)
    requires n <= |ranges|
  {
    forall k :: 0 <= k < n ==> !FailsAt(faults, k, ranges[k], swaps, s)
  }

  // The round stopped at the first item that fails.
  ghost predicate FirstFails(faults: Faults, ranges: seq<BlockRange>, reached: Reached, swaps: Table, s: Scene) {
    && reached.AtRange? && reached.k < |ranges| && FailsAt(faults, reached.k, ranges[reached.k], swaps, s)
    && NoneFails(faults, ranges, reached.k, swaps, s) && reached.batches == BatchesAt(faults, reached.k)
  }

  // Where the stream ended: at its first item that fails, or not at all.
  ghost predicate Halts(faults: Faults, ranges: seq<BlockRange>, reached: Reached, swaps: Table, s: Scene) {
    if reached.AtRange? then FirstFails(faults, ranges, reached, swaps, s)
    else NoneFails(faults, ranges, |ranges|, swaps, s)
  }

  // The batches committed before that.
  function BatchesAt(faults: Faults, k: nat): nat {
    if k in faults.stream || k !in faults.updates then 0 else faults.updates[k]
  }

  /** What the faults say about where a round stops. */
  ghost predicate Stops(faults: Faults, reached: Reached, rows0: Table, deals: map<string, Deal>, s: Scene)
    requires DealsOk(s, deals) && s.orders.Keys <= rows0.Keys
  {
    match reached
    case AtRead => faults.reading
    case AtRange(k, n) => !faults.reading && (k in faults.stream || k in faults.updates) && n == BatchesAt(faults, k)
    case AtCounts(counts) => !faults.reading && faults.confirmations == Some(|counts|)
    case AtEnd =>
      !faults.reading
      && (faults.confirmations == Some(0) ==> forall id :: id in s.orders ==> !CountsRow(rows0[id], deals[id], s))
  }

  // `HTLCEventWatcher::validate_swaps`: both collections cut to the selected ids.
  method SelectSwaps(pending: Table, fetched: map<string, Order>, chain: Chain)
    returns (swaps: Table, orders: map<string, Order>)
    requires fetched == FetchOrders(pending, chain)
    ensures swaps.Keys <= pending.Keys && forall id :: id in swaps ==> swaps[id] == pending[id]
    ensures orders == ScopeOrders(pending, chain) && orders.Keys <= swaps.Keys
    ensures forall id :: id in pending && id !in fetched ==> id in swaps
  {
    var statuses := map id | id in fetched :: ChainStatus(fetched[id]);
    var valid := ValidateSwaps(statuses, pending, chain.height);
    swaps := map id | id in pending && id in valid :: pending[id];
    orders := map id | id in fetched && id in valid :: fetched[id];
  }

  lemma ScopeDeals(s: Scene, pending: Table, deals: map<string, Deal>)
    requires OneShot(s.chain, deals) && s.orders == ScopeOrders(pending, s.chain)
    ensures DealsOk(s, deals)
  {
  }

  lemma ScopeSnapshot(rows: Table, pending: Table, swaps: Table, s: Scene)
    requires TableOk(rows) && s.orders.Keys <= swaps.Keys <= pending.Keys <= rows.Keys
    requires forall id :: id in pending ==> pending[id] == rows[id]
    requires forall id :: id in swaps ==> swaps[id] == pending[id]
    ensures Snapshot(swaps, rows, s)
  {
  }

  // Every row in scope has its round result, every other row is as before.
  ghost predicate RoundDone(rows0: Table, rows: Table, deals: map<string, Deal>, s: Scene)
    requires DealsOk(s, deals)
  {
    rows.Keys == rows0.Keys && forall id :: id in rows0 ==>
      rows[id] == if id in s.orders then RoundRow(id, rows0[id], deals[id], s) else rows0[id]
  }

  // Even a round that fails half way leaves rows outside the scope alone.
  ghost predicate Frame(rows0: Table, rows: Table, s: Scene) {
    rows.Keys == rows0.Keys && forall id :: id in rows0 && id !in s.orders ==> rows[id] == rows0[id]
  }

  lemma NothingLeft(rows: Table, deals: map<string, Deal>, s: Scene)
    requires DealsOk(s, deals)
    ensures Frame(rows, rows, s) && Partly(rows, rows, deals, s, RoundRanges(s), AtRead)
  {
  }

  lemma PartlyFrames(rows0: Table, rows: Table, deals: map<string, Deal>, s: Scene, ranges: seq<BlockRange>,
                     reached: Reached)
    requires DealsOk(s, deals) && Partly(rows0, rows, deals, s, ranges, reached)
    ensures Frame(rows0, rows, s)
    ensures reached.AtEnd? ==> RoundDone(rows0, rows, deals, s)
  {
    if reached.AtEnd? {
      forall id | id in rows0 && id in s.orders ensures rows[id] == RoundRow(id, rows0[id], deals[id], s) {
        FullIsRound(id, rows0[id], deals[id], s);
      }
    }
  }

  lemma NoneCounted(confs: map<int, seq<string>>, rows0: Table, deals: map<string, Deal>, ranges: seq<BlockRange>,
                    s: Scene)
    requires DealsOk(s, deals) && s.orders.Keys <= rows0.Keys && |confs| == 0
    requires CountsSoFar(confs, rows0, deals, ranges, s) && Covers(ranges, EventBlocks(s.orders))
    ensures forall id :: id in s.orders ==> !CountsRow(rows0[id], deals[id], s)
  {
    forall id | id in s.orders ensures !CountsRow(rows0[id], deals[id], s) {
      CountedPart(id, rows0[id], deals[id], ranges, s);
      assert !In(confs, Confirmations(s.chain.height, deals[id].init.block, rows0[id].required), id);
    }
  }

  lemma NothingCounted(rows0: Table, deals: map<string, Deal>, s: Scene)
    requires DealsOk(s, deals) && s.orders.Keys <= rows0.Keys
    ensures CountsSoFar(map[], rows0, deals, [], s)
  {
  }

  // An order in scope has a positive block, so there is a range to query.
  lemma SomeRange(s: Scene, deals: map<string, Deal>, ranges: seq<BlockRange>)
    requires DealsOk(s, deals) && s.orders != map[] && Covers(ranges, EventBlocks(s.orders))
    ensures ranges != []
  {
    var id :| id in s.orders;
    assert s.orders[id].initiatedAt in EventBlocks(s.orders);
  }

  lemma TableDone(rows0: Table, rows1: Table, confs: map<int, seq<string>>, order: seq<int>,
                  deals: map<string, Deal>, done: seq<BlockRange>, s: Scene)
    requires DealsOk(s, deals) && s.orders.Keys <= rows0.Keys
    requires TableSoFar(rows0, rows1, deals, done, s) && CountsSoFar(confs, rows0, deals, done, s)
    requires Covers(done, EventBlocks(s.orders))
    requires forall c :: c in order <==> c in confs
    ensures Partly(rows0, ApplyCounts(rows1, confs, order), deals, s, done, AtEnd)
  {
    forall id | id in rows0
      ensures ApplyCounts(rows1, confs, order)[id]
           == if id in s.orders then PartRow(id, rows0[id], deals[id], s, FULL) else rows0[id]
    {
      RowDone(id, rows0, rows1, confs, order, deals, done, s);
      if id in s.orders { FullIsRound(id, rows0[id], deals[id], s); }
    }
  }

  lemma ScopeIsFetched(pending: Table, fetched: map<string, Order>, chain: Chain)
    requires fetched == FetchOrders(pending, chain)
    ensures |pending| == 0 || |fetched| == 0 ==> ScopeOrders(pending, chain) == map[]
  {
    assert forall id :: id in ScopeOrders(pending, chain) ==> id in pending && id in fetched;
  }
}

/** The rows of the `swaps` table as the EVM watcher sees them, the events it
    applies to them, and the store that runs the updates
    (evm-watcher/src/primitives.rs, swaps/primitives.rs, swaps/store.rs). */
module EvmSwaps {
  import opened Common

  datatype OrderStatus = NotInitiated | Initiated | Fulfilled

  datatype Terms = Terms(redeemer: string, asset: string, chain: string, timelock: int)

  // The transaction, block and time columns of one step of a swap.
  datatype Stamp = Stamp(txHash: string, block: Option<nat>, time: int)

  datatype Row = Row(
    terms: Terms, createdAt: int, required: nat, confirmations: int, filled: nat,
    initiate: Stamp, redeem: Stamp, secret: string, refund: Stamp)

  type Table = map<string, Row>

  datatype SwapEventType = Initiate | Redeem(secret: string) | Refund

  datatype SwapEvent = SwapEvent(
    kind: SwapEventType, swapId: string, tx: Stamp, terms: Terms, amount: nat)

  predicate Positive(block: Option<nat>) { block.Some? && block.value > 0 }

  predicate Ended(r: Row) { Positive(r.redeem.block) || Positive(r.refund.block) }

  // `OrderStatus::from(&SingleSwap)`
  function RowStatus(r: Row): OrderStatus {
    match r.initiate.block
    case None => NotInitiated
    case Some(n) => if n == 0 then NotInitiated else if Ended(r) then Fulfilled else Initiated
  }

  // Equal up to ASCII case in the text fields.
  predicate SameTerms(a: Terms, b: Terms) {
    && Lower(a.redeemer) == Lower(b.redeemer)
    && Lower(a.asset) == Lower(b.asset)
    && Lower(a.chain) == Lower(b.chain)
    && a.timelock == b.timelock
  }

  // The WHERE clause of the three updates; only the initiate update looks at time.
  predicate Matches(id: string, r: Row, e: SwapEvent) {
    && Lower(id) == Lower(e.swapId)
    && SameTerms(r.terms, e.terms)
    && (e.kind.Initiate? ==> e.tx.time > r.createdAt - 60)
  }

  // The SET clause of the three updates.
  function ApplyEvent(r: Row, e: SwapEvent): Row {
    match e.kind
    case Initiate => r.(filled := e.amount, initiate := e.tx, confirmations := 1)
    case Redeem(secret) => r.(redeem := e.tx, secret := secret)
    case Refund => r.(refund := e.tx)
  }

  // UPDATE ... FROM: a row joined by several events takes one of them.
  ghost predicate RowBatch(id: string, r: Row, r': Row, events: seq<SwapEvent>) {
    if exists e :: e in events && Matches(id, r, e)
    then exists e :: e in events && Matches(id, r, e) && r' == ApplyEvent(r, e)
    else r' == r
  }

  ghost predicate BatchApplied(before: Table, after: Table, events: seq<SwapEvent>) {
    after.Keys == before.Keys && forall id :: id in before ==> RowBatch(id, before[id], after[id], events)
  }

  // One row through the initiate, redeem and refund batches, in that order.
  ghost predicate RowEvents(id: string, r: Row, r': Row, events: seq<SwapEvent>) {
    exists r1, r2 ::
      RowBatch(id, r, r1, Inits(events)) && RowBatch(id, r1, r2, Redeems(events))
        && RowBatch(id, r2, r', Refunds(events))
  }

  function UpdateRow(id: string, r: Row, events: seq<SwapEvent>): Row {
    if events == [] then r
    else if Matches(id, r, events[0]) then ApplyEvent(r, events[0])
    else UpdateRow(id, r, events[1..])
  }

  lemma {:induction false} UpdateRowIsBatch(id: string, r: Row, events: seq<SwapEvent>)
    ensures RowBatch(id, r, UpdateRow(id, r, events), events)
  {
    if events != [] {
      if Matches(id, r, events[0]) {
        assert events[0] in events;
      } else {
        UpdateRowIsBatch(id, r, events[1..]);
        assert forall e :: e in events ==> e == events[0] || e in events[1..];
      }
    }
  }

  /** What one event does to a row: it writes it exactly if it names the row's swap,
      redeemer, asset and chain agree up to case, the timelocks are equal and, for an
      initiation, it is less than a minute older than the row; and it writes its own
      columns only. */
  lemma EventWrites(id: string, r: Row, r': Row, e: SwapEvent)
    requires RowBatch(id, r, r', [e])
    ensures r' ==
      if && Lower(e.swapId) == Lower(id) && Lower(e.terms.redeemer) == Lower(r.terms.redeemer)
         && Lower(e.terms.asset) == Lower(r.terms.asset) && Lower(e.terms.chain) == Lower(r.terms.chain)
         && e.terms.timelock == r.terms.timelock && (e.kind == Initiate ==> r.createdAt < e.tx.time + 60)
      then match e.kind
           case Initiate => r.(initiate := e.tx, filled := e.amount, confirmations := 1)
           case Redeem(secret) => r.(redeem := e.tx, secret := secret)
           case Refund => r.(refund := e.tx)
      else r
  {
    assert e in [e];
  }

  function Inits(events: seq<SwapEvent>): (r: seq<SwapEvent>)
    ensures forall e :: e in r <==> e in events && e.kind.Initiate?
  {
    if events == [] then [] else
      var n := |events| - 1;
      assert events == events[..n] + [events[n]];
      Inits(events[..n]) + if events[n].kind.Initiate? then [events[n]] else []
  }

  function Redeems(events: seq<SwapEvent>): (r: seq<SwapEvent>)
    ensures forall e :: e in r <==> e in events && e.kind.Redeem?
  {
    if events == [] then [] else
      var n := |events| - 1;
      assert events == events[..n] + [events[n]];
      Redeems(events[..n]) + if events[n].kind.Redeem? then [events[n]] else []
  }

  function Refunds(events: seq<SwapEvent>): (r: seq<SwapEvent>)
    ensures forall e :: e in r <==> e in events && e.kind.Refund?
  {
    if events == [] then [] else
      var n := |events| - 1;
      assert events == events[..n] + [events[n]];
      Refunds(events[..n]) + if events[n].kind.Refund? then [events[n]] else []
  }

  function Least(a: int, b: int): int { if a <= b then a else b }

  class SwapStore {
    var rows: Table

    constructor (rows: Table)
      ensures this.rows == rows
    {
      this.rows := rows;
    }

    // `handle_inits`, `handle_redeems`, `handle_refunds`: one UPDATE per batch.
    method HandleBatch(events: seq<SwapEvent>)
      modifies this
      ensures BatchApplied(old(rows), rows, events)
    {
      forall id | id in rows ensures RowBatch(id, rows[id], UpdateRow(id, rows[id], events), events) {
        UpdateRowIsBatch(id, rows[id], events);
      }
      rows := map id | id in rows :: UpdateRow(id, rows[id], events);
    }

    /** `update_events`. The statement numbered `fault` fails if its batch is not
        empty; the batches before it stay committed. */
    method UpdateEvents(events: seq<SwapEvent>, fault: Option<nat>) returns (ok: bool)
      modifies this
      ensures ok <==> !(fault.Some? && fault.value < 3 && Batch(events, fault.value) != [])
      ensures ok ==> EventsApplied(old(rows), rows, events)
      ensures !ok ==> BatchesApplied(old(rows), rows, events, fault.value)
    {
      var inits, redeems, refunds := Partition(events);
      ghost var t0 := rows;
      NoEvents(t0);
      if |inits| > 0 {
        if fault == Some(0) { return false; }
        HandleBatch(inits);
      }
      ghost var t1 := rows;
      NoEvents(t1);
      if |redeems| > 0 {
        if fault == Some(1) { return false; }
        HandleBatch(redeems);
      }
      ghost var t2 := rows;
      NoEvents(t2);
      if |refunds| > 0 {
        if fault == Some(2) {
          TwoBatches(t0, t1, t2, events);
          return false;
        }
        HandleBatch(refunds);
      }
      Chained(t0, t1, t2, rows, events);
      ok := true;
    }

    /** `update_confirmations`: one UPDATE per confirmation count, in whatever
        order the map yields them; the one numbered `fault` fails. */
    method UpdateConfirmations(confs: map<int, seq<string>>, fault: Option<nat>)
      returns (ok: bool, ghost order: seq<int>)
      modifies this
      ensures ok <==> !(fault.Some? && fault.value < |confs|)
      ensures forall c :: c in order ==> c in confs
      ensures ok ==> forall c :: c in confs ==> c in order
      ensures !ok ==> fault == Some(|order|)
      ensures rows == ApplyCounts(old(rows), confs, order)
    {
      var todo: set<int> := confs.Keys;
      var n := 0;
      order := [];
      while todo != {}
        invariant todo <= confs.Keys && n == |order| && |todo| + n == |confs.Keys|
        invariant fault.Some? ==> n <= fault.value
        invariant forall c :: c in order <==> c in confs && c !in todo
        invariant rows == ApplyCounts(old(rows), confs, order)
        decreases |todo|
      {
        if fault == Some(n) { return false, order; }
        n := n + 1;
        var c := AnyOf(todo);
        assert (order + [c])[..|order|] == order;
        rows := SetConfirmations(rows, c, confs[c]);
        todo := todo - {c};
        order := order + [c];
      }
      assert |confs.Keys| == |confs|;
      ok := true;
    }
  }

  // The n-th of the three batches.
  function Batch(events: seq<SwapEvent>, n: nat): seq<SwapEvent> {
    if n == 0 then Inits(events) else if n == 1 then Redeems(events) else Refunds(events)
  }

  // One row through the first n batches.
  ghost predicate RowBatches(id: string, r: Row, r': Row, events: seq<SwapEvent>, n: nat) {
    if n == 0 then r' == r
    else if n == 1 then RowBatch(id, r, r', Inits(events))
    else exists r1 :: RowBatch(id, r, r1, Inits(events)) && RowBatch(id, r1, r', Redeems(events))
  }

  ghost predicate BatchesApplied(before: Table, after: Table, events: seq<SwapEvent>, n: nat) {
    after.Keys == before.Keys && forall id :: id in before ==> RowBatches(id, before[id], after[id], events, n)
  }

  lemma TwoBatches(t0: Table, t1: Table, t2: Table, events: seq<SwapEvent>)
    requires BatchApplied(t0, t1, Inits(events)) && BatchApplied(t1, t2, Redeems(events))
    ensures BatchesApplied(t0, t2, events, 2)
  {
    forall id | id in t0 ensures RowBatches(id, t0[id], t2[id], events, 2) {
      assert RowBatch(id, t0[id], t1[id], Inits(events)) && RowBatch(id, t1[id], t2[id], Redeems(events));
    }
  }

  method AnyOf(s: set<int>) returns (c: int)
    requires s != {}
    ensures c in s
  {
    if forall x :: x !in s { assert false; }
    c :| c in s;
  }

  method Partition(events: seq<SwapEvent>)
    returns (inits: seq<SwapEvent>, redeems: seq<SwapEvent>, refunds: seq<SwapEvent>)
    ensures inits == Inits(events) && redeems == Redeems(events) && refunds == Refunds(events)
  {
    inits, redeems, refunds := [], [], [];
    for i := 0 to |events|
      invariant inits == Inits(events[..i]) && redeems == Redeems(events[..i]) && refunds == Refunds(events[..i])
    {
      assert events[..i + 1][..i] == events[..i];
      match events[i].kind
      case Initiate => inits := inits + [events[i]];
      case Refund => refunds := refunds + [events[i]];
      case Redeem(_) => redeems := redeems + [events[i]];
    }
    assert events[..|events|] == events;
  }

  ghost predicate EventsApplied(before: Table, after: Table, events: seq<SwapEvent>) {
    after.Keys == before.Keys && forall id :: id in before ==> RowEvents(id, before[id], after[id], events)
  }

  lemma NoEvents(t: Table)
    ensures BatchApplied(t, t, [])
  {
  }

  // UPDATE swaps SET current_confirmations = LEAST(required, c) WHERE swap_id = ANY(ids)
  function SetConfirmations(t: Table, c: int, ids: seq<string>): Table {
    map id | id in t :: if id in ids then t[id].(confirmations := Least(t[id].required, c)) else t[id]
  }

  function ApplyCounts(t: Table, confs: map<int, seq<string>>, order: seq<int>): (r: Table)
    requires forall c :: c in order ==> c in confs
    ensures r.Keys == t.Keys
  {
    if order == [] then t else
      var n := |order| - 1;
      SetConfirmations(ApplyCounts(t, confs, order[..n]), order[n], confs[order[n]])
  }

  // Whatever the order, a listed row takes one of its counts.
  lemma {:induction false} CountsApplied(t: Table, confs: map<int, seq<string>>, order: seq<int>, id: string)
    requires id in t && forall c :: c in order ==> c in confs
    ensures var r := ApplyCounts(t, confs, order)[id];
      if exists c :: c in order && id in confs[c]
      then exists c ::
        c in order && id in confs[c] && r == t[id].(confirmations := if t[id].required < c then t[id].required else c)
      else r == t[id]
  {
    if order != [] {
      var n := |order| - 1;
      CountsApplied(t, confs, order[..n], id);
      assert order == order[..n] + [order[n]];
      assert order[n] in order;
    }
  }

  lemma Chained(t0: Table, t1: Table, t2: Table, t3: Table, events: seq<SwapEvent>)
    requires BatchApplied(t0, t1, Inits(events)) && BatchApplied(t1, t2, Redeems(events))
    requires BatchApplied(t2, t3, Refunds(events))
    ensures EventsApplied(t0, t3, events)
  {
    forall id | id in t0 ensures RowEvents(id, t0[id], t3[id], events) {
      assert RowBatch(id, t0[id], t1[id], Inits(events));
      assert RowBatch(id, t1[id], t2[id], Redeems(events));
      assert RowBatch(id, t2[id], t3[id], Refunds(events));
    }
  }
}

/** What a completed EVM round achieves: rows catch up with the chain. */
module EvmCatchUp {
  import opened Common
  import opened BlockRanges
  import opened EvmSwaps
  import opened EvmEvents
  import opened EvmRound
  import EvmWatcher

  // ------------------------------------------------------------- catching up

  // The row belongs to the order: the emitting contract is watched and is the
  // row's asset, and redeemer, timelock and chain agree.
  predicate Agrees(r: Row, o: Order, d: Deal, s: Scene) {
    && d.init.address in (if d.init.version == V2 then s.cfg.v2 else s.cfg.v3)
    && Lower(r.terms.redeemer) == Lower(o.redeemer) && Lower(r.terms.asset) == Lower(d.init.address)
    && Lower(r.terms.chain) == Lower(s.cfg.name) && r.terms.timelock == o.timelock
  }

  // The initiate columns end up filled: the block is recent enough, or they were.
  predicate InitKnown(r: Row, o: Order, s: Scene) {
    s.chain.time(o.initiatedAt) > r.createdAt - 60 || Positive(r.initiate.block)
  }

  // The closing log can be used: a redeem needs a 64-character secret.
  predicate EndReadable(d: Deal) {
    d.end.Some? && (d.end.value.kind.RedeemedLog? ==> |Strip0x(d.end.value.kind.secret)| == 64)
  }

  // A closing is recorded only once the order is over: orders never reopen.
  predicate Recorded(r: Row, o: Order) { Ended(r) ==> o.fulfilledAt > 0 }

  // Hash and block of a step are written together.
  predicate StampedRow(r: Row) { Whole(r.initiate) && Whole(r.redeem) && Whole(r.refund) }

  predicate Whole(t: Stamp) { Positive(t.block) <==> t.txHash != "" }

  predicate Hashed(d: Deal) { d.init.txHash != "" && (d.end.Some? ==> d.end.value.txHash != "") }

  /** A round keeps both, from any row that has them: fresh rows do. */
  lemma RoundKeepsRecord(id: string, r: Row, d: Deal, s: Scene)
    requires id in s.orders && DealOk(id, s.orders[id], d, s.chain.logs)
    ensures Recorded(r, s.orders[id]) ==> Recorded(RoundRow(id, r, d, s), s.orders[id])
    ensures StampedRow(r) && Hashed(d) ==> StampedRow(RoundRow(id, r, d, s))
  {
    if Agrees(r, s.orders[id], d, s) {
      AgreeingEvents(id, r, d, s);
    } else {
      DisagreeingUntouched(id, r, d, s);
    }
  }

  /** Every column after the part of a round that reached the row: an agreeing row
      takes its order's initiation, if that is less than a minute older than the
      row, its closing, if a redeem's secret has 64 characters, and the count. */
  lemma ColumnsWritten(id: string, r: Row, d: Deal, s: Scene, e: Effect)
    requires id in s.orders && DealOk(id, s.orders[id], d, s.chain.logs)
    requires Agrees(r, s.orders[id], d, s) && r.terms.timelock < 0x8000_0000
    ensures var o, p := s.orders[id], PartRow(id, r, d, s, e);
      && p.terms == r.terms && p.createdAt == r.createdAt && p.required == r.required
      && (if e.init && r.createdAt < s.chain.time(o.initiatedAt) + 60
          then p.filled == o.amount
            && p.initiate == Stamp(d.init.txHash, Some(o.initiatedAt), s.chain.time(o.initiatedAt))
          else p.filled == r.filled && p.initiate == r.initiate)
      && (if e.end && d.end.Some? && d.end.value.kind.RefundedLog?
          then p.refund == Stamp(d.end.value.txHash, Some(o.fulfilledAt), s.chain.time(o.fulfilledAt))
          else p.refund == r.refund)
      && (if e.end && d.end.Some? && d.end.value.kind.RedeemedLog? && |Strip0x(d.end.value.kind.secret)| == 64
          then p.secret == Strip0x(d.end.value.kind.secret)
            && p.redeem == Stamp(d.end.value.txHash, Some(o.fulfilledAt), s.chain.time(o.fulfilledAt))
          else p.secret == r.secret && p.redeem == r.redeem)
    ensures var o, p := s.orders[id], PartRow(id, r, d, s, e);
      var seen := if s.chain.height + 1 > o.initiatedAt then s.chain.height + 1 - o.initiatedAt else 0;
      p.confirmations ==
        if e.counted then (if seen < r.required then seen else r.required)
        else if e.init && r.createdAt < s.chain.time(o.initiatedAt) + 60 then 1
        else r.confirmations
  {
    AgreeingEvents(id, r, d, s);
  }

  /** Which rows a round works on, column by column: rows of the chain that are not
      initiated and not expired, or initiated and not closed, whose order is not
      empty and stands elsewhere than the row, or is open and inside the row's
      confirmation window. */
  lemma InScopeExactly(rows: Table, id: string, chainName: string, now: int, buffer: int, chain: Chain)
    requires id in rows
    ensures id in ScopeOrders(EvmWatcher.GetSwaps(rows, chainName, now, buffer), chain) <==>
      var r := rows[id];
      && r.terms.chain == chainName
      && (if r.initiate.txHash == "" then now < r.createdAt + buffer
          else r.redeem.txHash == "" && r.refund.txHash == "")
      && id in chain.orders
      && var o := chain.orders[id];
         && (o.amount != 0 || o.timelock != 0 || o.initiator != "0x0000000000000000000000000000000000000000"
             || o.redeemer != "0x0000000000000000000000000000000000000000")
         && var open := r.initiate.block.Some? && r.initiate.block.value != 0;
            var over := (r.redeem.block.Some? && r.redeem.block.value != 0)
              || (r.refund.block.Some? && r.refund.block.value != 0);
            if o.fulfilledAt > 0 then !open || !over
            else !open || over || chain.height <= r.initiate.block.value + r.required
  {
  }

  // For any agreeing row at all, one with a closing its open order does not have
  // included.
  lemma StatusAfterRound(id: string, r: Row, d: Deal, s: Scene)
    requires id in s.orders && DealOk(id, s.orders[id], d, s.chain.logs) && !IsEmpty(s.orders[id])
    requires Agrees(r, s.orders[id], d, s)
    ensures var o := s.orders[id];
      RowStatus(RoundRow(id, r, d, s)) == ChainStatus(o) <==>
        InitKnown(r, o, s) && (if o.fulfilledAt > 0 then EndReadable(d) || Ended(r) else !Ended(r))
  {
    AgreeingEvents(id, r, d, s);
  }

  /** When exactly a round brings an agreeing row to its order's status: the
      initiation must be known and, if the order is over, its closing must be
      readable or already recorded. */
  lemma RoundBringsStatus(id: string, r: Row, d: Deal, s: Scene)
    requires id in s.orders && DealOk(id, s.orders[id], d, s.chain.logs) && !IsEmpty(s.orders[id])
    requires Agrees(r, s.orders[id], d, s) && Recorded(r, s.orders[id])
    ensures var o := s.orders[id];
      RowStatus(RoundRow(id, r, d, s)) == ChainStatus(o) <==>
        InitKnown(r, o, s) && (o.fulfilledAt > 0 ==> EndReadable(d) || Ended(r))
  {
    StatusAfterRound(id, r, d, s);
  }

  // The events of an agreeing row's deal, and that they match it.
  lemma AgreeingEvents(id: string, r: Row, d: Deal, s: Scene)
    requires id in s.orders && DealOk(id, s.orders[id], d, s.chain.logs)
    requires Agrees(r, s.orders[id], d, s)
    ensures Fetched(d.init, s).Some? && Fetched(d.init, s).value.kind.Initiate?
    ensures Fetched(d.init, s).value.tx == Stamp(d.init.txHash, Some(d.init.block), s.chain.time(d.init.block))
    ensures Matches(id, r, Fetched(d.init, s).value) <==> s.chain.time(s.orders[id].initiatedAt) > r.createdAt - 60
    ensures FetchedEnd(d, s).Some? <==> EndReadable(d)
    ensures var e := FetchedEnd(d, s); e.Some? ==>
      !e.value.kind.Initiate? && Matches(id, r, e.value) && EventBlock(e.value) == s.orders[id].fulfilledAt
        && Positive(e.value.tx.block)
  {
  }

  /** A row that differs from its order in one of the four terms, or whose order was
      opened by a contract that is not watched, is left exactly as it was. */
  lemma DisagreeingUntouched(id: string, r: Row, d: Deal, s: Scene)
    requires id in s.orders && DealOk(id, s.orders[id], d, s.chain.logs)
    requires
      || Lower(r.terms.redeemer) != Lower(s.orders[id].redeemer) || Lower(r.terms.asset) != Lower(d.init.address)
      || Lower(r.terms.chain) != Lower(s.cfg.name) || r.terms.timelock != s.orders[id].timelock
      || (d.init.version == V2 && d.init.address !in s.cfg.v2)
      || (d.init.version == V3 && d.init.address !in s.cfg.v3)
    ensures RoundRow(id, r, d, s) == r
  {
  }

  /** After such a round, reading the same chain again selects the row only while
      it is inside its confirmation window. */
  lemma ReselectedOnlyInWindow(id: string, r: Row, d: Deal, s: Scene)
    requires id in s.orders && DealOk(id, s.orders[id], d, s.chain.logs) && !IsEmpty(s.orders[id])
    requires Agrees(r, s.orders[id], d, s)
    requires RowStatus(RoundRow(id, r, d, s)) == ChainStatus(s.orders[id])
    ensures var o, r' := s.orders[id], RoundRow(id, r, d, s);
      && (Selected(r', Some(ChainStatus(o)), s.chain.height) <==>
            o.fulfilledAt == 0 && s.chain.height <= InitBlock(r') + r.required)
      && InitBlock(r') == if s.chain.time(o.initiatedAt) > r.createdAt - 60 then o.initiatedAt else InitBlock(r)
  {
    AgreeingEvents(id, r, d, s);
  }

  /** A finished order's row is no longer pending once its closing is recorded. */
  lemma FinishedNotPending(id: string, r: Row, d: Deal, s: Scene, now: int, buffer: int)
    requires id in s.orders && DealOk(id, s.orders[id], d, s.chain.logs)
    requires Agrees(r, s.orders[id], d, s) && EndReadable(d)
    requires Hashed(d) && (s.chain.time(s.orders[id].initiatedAt) > r.createdAt - 60 || r.initiate.txHash != "")
    ensures !EvmWatcher.Pending(RoundRow(id, r, d, s), now, buffer)
  {
    AgreeingEvents(id, r, d, s);
  }

  /** A row the database shows as over is not read by any round: the pending
      query leaves it out, whatever the chain shows. */
  lemma ClosedRowNotRead(rows: Table, id: string, cfg: Config, now: int, buffer: int, chain: Chain)
    requires id in rows && StampedRow(rows[id]) && RowStatus(rows[id]).Fulfilled?
    ensures id !in EvmWatcher.GetSwaps(rows, cfg.name, now, buffer)
    ensures id !in ScopeOrders(EvmWatcher.GetSwaps(rows, cfg.name, now, buffer), chain)
  {
  }

  /** The table after a completed round, row by row: a row that agrees with its
      order has the order's status exactly under the conditions above, and is
      then selected again only inside its confirmation window; every other row
      is untouched. */
  lemma RoundCatchesUp(rows0: Table, rows: Table, deals: map<string, Deal>, s: Scene, id: string)
    requires DealsOk(s, deals) && EvmWatcher.RoundDone(rows0, rows, deals, s) && id in rows0
    requires forall k :: k in s.orders ==> !IsEmpty(s.orders[k])
    ensures id !in s.orders || !Agrees(rows0[id], s.orders[id], deals[id], s) ==> rows[id] == rows0[id]
    ensures id in s.orders && Agrees(rows0[id], s.orders[id], deals[id], s) && Recorded(rows0[id], s.orders[id]) ==>
      (RowStatus(rows[id]) == ChainStatus(s.orders[id]) <==>
         InitKnown(rows0[id], s.orders[id], s)
         && (s.orders[id].fulfilledAt > 0 ==> EndReadable(deals[id]) || Ended(rows0[id])))
    ensures id in s.orders && Agrees(rows0[id], s.orders[id], deals[id], s) ==>
      RowStatus(rows[id]) == ChainStatus(s.orders[id]) ==>
      Selected(rows[id], Some(ChainStatus(s.orders[id])), s.chain.height) ==>
        ChainStatus(s.orders[id]) == Initiated && s.chain.height <= InitBlock(rows[id]) + rows0[id].required
  {
    if id in s.orders {
      var r, d := rows0[id], deals[id];
      if Agrees(r, s.orders[id], d, s) {
        if Recorded(r, s.orders[id]) { RoundBringsStatus(id, r, d, s); }
        if RowStatus(rows[id]) == ChainStatus(s.orders[id]) { ReselectedOnlyInWindow(id, r, d, s); }
      } else {
        DisagreeingUntouched(id, r, d, s);
      }
    }
  }

  // --------------------------------------------------------- a concrete failure

  const OLD_ORDER := Order("m", "t", 5, 10, 1, 0)
  const OLD_LOG := Log("a", InitiatedLog, 5, "h", "h", V3)
  const NO_STAMP := Stamp("", None, 0)
  const OLD_ROW := Row(Terms("t", "h", "c", 10), 1000, 2, 0, 0, NO_STAMP, NO_STAMP, "", NO_STAMP)

  /** An order initiated at time 0 and a row created at time 1000: the row agrees
      with the order and is pending and selected, and the round leaves it
      uninitiated. */
  lemma OldInitiationStays()
    ensures var cfg := Config("c", {}, {"h"}, 1);
      var s := Scene(cfg, Chain(6, map["a" := OLD_ORDER], [OLD_LOG], block => 0), map["a" := OLD_ORDER]);
      && DealOk("a", OLD_ORDER, Deal(OLD_LOG, None), s.chain.logs) && Agrees(OLD_ROW, OLD_ORDER, Deal(OLD_LOG, None), s)
      && EvmWatcher.Pending(OLD_ROW, 1001, 60) && Selected(OLD_ROW, Some(ChainStatus(OLD_ORDER)), 6)
      && RowStatus(RoundRow("a", OLD_ROW, Deal(OLD_LOG, None), s)) == NotInitiated != ChainStatus(OLD_ORDER)
  {
  }

  const CLOSED_ORDER := Order("m", "t", 5, 10, 1, 6)
  const SHORT_REDEEM := Log("a", RedeemedLog("ab"), 6, "g", "h", V3)
  const OPEN_ROW := OLD_ROW.(createdAt := 0)

  /** An order redeemed with a secret of two characters: its fresh row agrees with
      it and is pending and selected, the round records the initiation and leaves
      the closing out, and the row is selected again at any height. */
  lemma ShortSecretStays(height: nat)
    requires height >= 6
    ensures var cfg, deal := Config("c", {}, {"h"}, 1), Deal(OLD_LOG, Some(SHORT_REDEEM));
      var orders := map["a" := CLOSED_ORDER];
      var s := Scene(cfg, Chain(height, orders, [OLD_LOG, SHORT_REDEEM], block => 0), orders);
      var r := RoundRow("a", OPEN_ROW, deal, s);
      && DealOk("a", CLOSED_ORDER, deal, s.chain.logs) && Agrees(OPEN_ROW, CLOSED_ORDER, deal, s)
      && EvmWatcher.Pending(OPEN_ROW, 1, 60) && Selected(OPEN_ROW, Some(ChainStatus(CLOSED_ORDER)), height)
      && InitKnown(OPEN_ROW, CLOSED_ORDER, s) && !EndReadable(deal)
      && RowStatus(r) == Initiated != ChainStatus(CLOSED_ORDER)
      && Selected(r, Some(ChainStatus(CLOSED_ORDER)), height)
  {
  }
}

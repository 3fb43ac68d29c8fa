/** From contract logs to store events
    (evm-watcher/src/prepare_event.rs, validate_event.rs, onchain_orders/primitives.rs). */
module EvmEvents {
  import opened Common
  import opened BlockRanges
  import opened EvmSwaps

  const ZERO_ADDRESS := "0x0000000000000000000000000000000000000000"

  datatype Order = Order(
    initiator: string, redeemer: string, initiatedAt: nat, timelock: nat, amount: nat, fulfilledAt: nat)

  predicate IsEmpty(o: Order) {
    o.amount == 0 && o.initiator == ZERO_ADDRESS && o.redeemer == ZERO_ADDRESS && o.timelock == 0
  }

  // `OrderStatus::from(&OnChainOrder)`
  function ChainStatus(o: Order): OrderStatus {
    if IsEmpty(o) then NotInitiated else if o.fulfilledAt > 0 then Fulfilled else Initiated
  }

  datatype Version = V2 | V3

  datatype LogKind = InitiatedLog | RedeemedLog(secret: string) | RefundedLog | OtherLog

  datatype Log = Log(orderId: string, kind: LogKind, block: nat, txHash: string, address: string, version: Version)

  // A chain as one round reads it: its height, orders, logs and block times.
  datatype Chain = Chain(height: nat, orders: map<string, Order>, logs: seq<Log>, time: nat -> int)

  datatype Config = Config(name: string, v2: set<string>, v3: set<string>, maxBlockSpan: nat)

  // `get_v2_event_data`, `get_v3_event_data`: other events and secrets that are
  // not 64 characters long are dropped.
  function EventData(l: Log): Option<(string, SwapEventType)> {
    match l.kind
    case InitiatedLog => Some((l.orderId, Initiate))
    case RedeemedLog(secret) =>
      if |Strip0x(secret)| != 64 then None else Some((l.orderId, Redeem(Strip0x(secret))))
    case RefundedLog => Some((l.orderId, Refund))
    case OtherLog => None
  }

  // `create_swap_event`: only for orders of this round; terms come from the
  // order, asset from the emitting contract, chain from the configuration.
  function EventOf(l: Log, orders: map<string, Order>, time: nat -> int, chainName: string): Option<SwapEvent> {
    match EventData(l)
    case None => None
    case Some(data) =>
      var id := Strip0x(data.0);
      if id !in orders then None
      else
        var o := orders[id];
        Some(SwapEvent(data.1, id, Stamp(l.txHash, Some(l.block), time(l.block)),
          Terms(o.redeemer, l.address, chainName, o.timelock), o.amount))
  }

  function Events(logs: seq<Log>, orders: map<string, Order>, time: nat -> int, chainName: string): (r: seq<SwapEvent>)
    ensures forall e :: e in r <==> exists l :: l in logs && EventOf(l, orders, time, chainName) == Some(e)
  {
    if logs == [] then [] else
      var n := |logs| - 1;
      assert logs == logs[..n] + [logs[n]];
      var head := Events(logs[..n], orders, time, chainName);
      match EventOf(logs[n], orders, time, chainName)
      case None => head
      case Some(e) => head + [e]
  }

  method PrepareStoreEvents(v2: seq<Log>, v3: seq<Log>, orders: map<string, Order>, time: nat -> int, chainName: string)
    returns (swapEvents: seq<SwapEvent>)
    ensures swapEvents == Events(v2, orders, time, chainName) + Events(v3, orders, time, chainName)
  {
    if v2 == [] && v3 == [] { return []; }
    var first := CollectEvents(v2, orders, time, chainName);
    var second := CollectEvents(v3, orders, time, chainName);
    swapEvents := first + second;
  }

  // One of the two pushing loops.
  method CollectEvents(logs: seq<Log>, orders: map<string, Order>, time: nat -> int, chainName: string)
    returns (swapEvents: seq<SwapEvent>)
    ensures swapEvents == Events(logs, orders, time, chainName)
  {
    swapEvents := [];
    for i := 0 to |logs|
      invariant swapEvents == Events(logs[..i], orders, time, chainName)
    {
      assert logs[..i + 1][..i] == logs[..i];
      var e := EventOf(logs[i], orders, time, chainName);
      if e.Some? { swapEvents := swapEvents + [e.value]; }
    }
    assert logs[..|logs|] == logs;
  }

  // `validate_event`: the timelock must fit an i32 and all terms agree.
  predicate ValidEvent(e: SwapEvent, r: Row) {
    e.terms.timelock < 0x8000_0000 && SameTerms(r.terms, e.terms)
  }

  /** `validate_events`: kept are the events of pending swaps whose redeemer, asset
      and chain are the row's up to case and whose timelock is the row's and fits. */
  function ValidateEvents(swaps: Table, events: seq<SwapEvent>): (r: seq<SwapEvent>)
    ensures forall e :: e in r <==>
      && e in events && e.swapId in swaps && e.terms.timelock < 0x8000_0000
      && var terms := swaps[e.swapId].terms;
         && Lower(e.terms.redeemer) == Lower(terms.redeemer) && Lower(e.terms.asset) == Lower(terms.asset)
         && Lower(e.terms.chain) == Lower(terms.chain) && e.terms.timelock == terms.timelock
  {
    if events == [] then [] else
      var n := |events| - 1;
      assert events == events[..n] + [events[n]];
      var head, e := ValidateEvents(swaps, events[..n]), events[n];
      if e.swapId in swaps && ValidEvent(e, swaps[e.swapId]) then head + [e] else head
  }

  function Addresses(cfg: Config, v: Version): set<string> {
    match v case V2 => cfg.v2 case V3 => cfg.v3
  }

  // The node's answer to a log query.
  function Query(logs: seq<Log>, range: BlockRange, v: Version, addresses: set<string>): (r: seq<Log>)
    ensures forall l :: l in r <==> l in logs && Contains(range, l.block) && l.version == v && l.address in addresses
  {
    if logs == [] then [] else
      var n := |logs| - 1;
      assert logs == logs[..n] + [logs[n]];
      var head, l := Query(logs[..n], range, v, addresses), logs[n];
      if Contains(range, l.block) && l.version == v && l.address in addresses then head + [l] else head
  }
}

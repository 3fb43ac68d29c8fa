/** initia-watcher/src/watcher/htlc_watcher.rs, manager.rs and
    storage/pg_store.rs: the checkpointed block-range scanner. */
module InitiaScanner {
  import opened Common
  import opened BlockRanges
  import opened Powers

  // `block as i64` when stored, `n as u64` when read.
  function AsI64(block: nat): int
    requires block < TWO_64
  {
    if block < TWO_63 then block else block - TWO_64
  }

  function AsU64(n: int): nat
    requires -TWO_63 <= n < TWO_63
  {
    if n >= 0 then n else n + TWO_64
  }

  // The checkpoint table.
  class PgStore {
    var blockNumbers: map<(string, string), int>

    constructor ()
      ensures blockNumbers == map[]
    {
      blockNumbers := map[];
    }

    predicate WellFormed()
      reads this
    {
      forall k :: k in blockNumbers ==> -TWO_63 <= blockNumbers[k] < TWO_63
    }

    function GetCheckpoint(chain: string, address: string): Option<nat>
      requires WellFormed()
      reads this
    {
      if (chain, Lower(address)) in blockNumbers then Some(AsU64(blockNumbers[(chain, Lower(address))])) else None
    }

    // INSERT ... ON CONFLICT DO UPDATE; `ok` is whether the statement ran.
    method UpdateCheckpoint(chain: string, address: string, block: nat, ok: bool)
      requires WellFormed() && block < TWO_64
      modifies this
      ensures WellFormed()
      ensures GetCheckpoint(chain, address) == if ok then Some(block) else old(GetCheckpoint(chain, address))
      ensures forall c, a :: (c, Lower(a)) != (chain, Lower(address)) ==>
        GetCheckpoint(c, a) == old(GetCheckpoint(c, a))
    {
      if ok { blockNumbers := blockNumbers[(chain, Lower(address)) := AsI64(block)]; }
    }
  }

  // ------------------------------------------------------------- the progress

  function Min(a: nat, b: nat): nat { if a <= b then a else b }

  // The scanner's position after one successful tick.
  function NextStart(start: nat, span: nat, tip: nat): nat {
    if tip == 0 || start >= tip then start else Min(start + span, tip - 1) + 1
  }

  function AfterTicks(start: nat, span: nat, tip: nat, k: nat): nat {
    if k == 0 then start else NextStart(AfterTicks(start, span, tip, k - 1), span, tip)
  }

  lemma {:induction false} TicksCover(start: nat, span: nat, tip: nat, k: nat)
    requires start <= tip
    ensures k * (span + 1) >= 0 && AfterTicks(start, span, tip, k) == Min(start + k * (span + 1), tip)
  {
    if k > 0 {
      TicksCover(start, span, tip, k - 1);
      assert k * (span + 1) == (k - 1) * (span + 1) + (span + 1);
    }
  }

  function Ceiling(a: nat, b: nat): nat
    requires b > 0
  {
    (a + b - 1) / b
  }

  /** A fixed tip is reached after exactly ceil((tip - start) / (span + 1))
      successful ticks, and not before. */
  lemma TicksToTip(start: nat, span: nat, tip: nat, k: nat)
    requires start <= tip
    ensures AfterTicks(start, span, tip, k) == tip <==> k >= Ceiling(tip - start, span + 1)
  {
    TicksCover(start, span, tip, k);
    CeilingReaches(tip - start, span + 1, k);
  }

  lemma CeilingReaches(a: nat, d: nat, k: nat)
    requires d > 0
    ensures k * d >= a <==> k >= Ceiling(a, d)
  {
    var c := Ceiling(a, d);
    CeilingBounds(a, d);
    if k >= c { ProductMonotone(c, k, d); } else { ProductMonotone(k, c - 1, d); }
  }

  lemma CeilingBounds(a: nat, d: nat)
    requires d > 0
    ensures (Ceiling(a, d) - 1) * d < a <= Ceiling(a, d) * d
  {
    var q, r := (a + d - 1) / d, (a + d - 1) % d;
    DivMod(a + d - 1, d);
    assert (q - 1) * d == q * d - d;
  }

  lemma ProductMonotone(a: int, b: int, d: int)
    requires a <= b && d >= 0
    ensures a * d <= b * d
  {
    assert (b - a) * d >= 0;
    assert (b - a) * d == b * d - a * d;
  }

  // ------------------------------------------------------------- the watcher

  // Each range begins where the one before ended.
  ghost predicate Consecutive(ranges: seq<BlockRange>, start: nat, end: nat) {
    if ranges == [] then start == end
    else
      var last := ranges[|ranges| - 1];
      last.fromBlock <= last.toBlock && last.toBlock + 1 == end
      && Consecutive(ranges[..|ranges| - 1], start, last.fromBlock)
  }

  ghost predicate Scanned(ranges: seq<BlockRange>, b: nat) {
    exists i :: 0 <= i < |ranges| && Contains(ranges[i], b)
  }

  class HtlcWatcher {
    const chain: string
    const address: string
    const blockSpan: nat
    const store: PgStore
    var startBlock: nat
    ghost var queried: seq<BlockRange>   // every range fetched, over all lives
    ghost var lifeFrom: nat              // how many of them belong to earlier lives
    ghost var lifeStart: nat             // where the current life started
    ghost const origin: nat              // where the first life started

    ghost function Checkpoint(): Option<nat>
      requires store.WellFormed()
      reads store
    {
      store.GetCheckpoint(chain, address)
    }

    ghost predicate Valid()
      reads this, store
    {
      && store.WellFormed() && origin <= startBlock < TWO_64
      && (forall b :: origin <= b < startBlock ==> Scanned(queried, b))
      && (if Checkpoint().Some? then origin <= Checkpoint().value <= startBlock else origin == 0)
      && lifeFrom <= |queried| && Consecutive(queried[lifeFrom..], lifeStart, startBlock)
    }

    // `WatcherManager::spawn` for the first time.
    constructor (chain: string, address: string, blockSpan: nat, store: PgStore)
      requires store.WellFormed()
      ensures Valid() && this.store == store && this.blockSpan == blockSpan && queried == []
      ensures startBlock == origin == (if Checkpoint().Some? then Checkpoint().value else 0)
    {
      this.chain, this.address, this.blockSpan, this.store := chain, address, blockSpan, store;
      var checkpoint := store.GetCheckpoint(chain, address);
      var start := if checkpoint.Some? then checkpoint.value else 0;
      startBlock, queried, lifeFrom, lifeStart, origin := start, [], 0, start, start;
    }

    // The process starts again from whatever the store holds.
    method Restart()
      requires Valid()
      modifies this
      ensures Valid() && queried == old(queried)
      ensures startBlock == (if Checkpoint().Some? then Checkpoint().value else 0) <= old(startBlock)
    {
      var checkpoint := store.GetCheckpoint(chain, address);
      startBlock := if checkpoint.Some? then checkpoint.value else 0;
      lifeFrom, lifeStart := |queried|, startBlock;
    }

    /** `fetch_and_process`; `logsOk` is whether the log query is answered. */
    method FetchAndProcess(tip: Result<nat>, logsOk: bool) returns (r: Result<nat>)
      requires Valid() && (tip.Ok? ==> tip.value < TWO_64)
      modifies this`queried
      ensures r.Ok? <==> tip.Ok? && (tip.value == 0 || startBlock >= tip.value || logsOk)
      ensures r.Ok? ==> r.value == NextStart(startBlock, blockSpan, tip.value)
      ensures queried == if r.Ok? && r.value > startBlock
        then old(queried) + [BlockRange(startBlock, r.value - 1)] else old(queried)
    {
      if tip.Err? { return Err; }
      var currentBlock := tip.value;
      if currentBlock == 0 || startBlock >= currentBlock { return Ok(startBlock); }
      var endBlock := Min(startBlock + blockSpan, currentBlock - 1);
      if !logsOk { return Err; }
      queried := queried + [BlockRange(startBlock, endBlock)];
      r := Ok(endBlock + 1);
    }

    /** One turn of `run`'s loop; saving the checkpoint may fail unnoticed. */
    method Tick(tip: Result<nat>, logsOk: bool, saveOk: bool)
      requires Valid() && (tip.Ok? ==> tip.value < TWO_64)
      modifies this, store
      ensures Valid() && lifeStart == old(lifeStart) && lifeFrom == old(lifeFrom)
      ensures startBlock == if tip.Ok? && logsOk then NextStart(old(startBlock), blockSpan, tip.value)
        else old(startBlock)
      ensures queried == if startBlock > old(startBlock)
        then old(queried) + [BlockRange(old(startBlock), startBlock - 1)] else old(queried)
      ensures startBlock > old(startBlock) ==> tip.Ok? && startBlock - 1 < tip.value
      ensures Checkpoint() == if startBlock > old(startBlock) && saveOk then Some(startBlock) else old(Checkpoint())
    {
      var next := FetchAndProcess(tip, logsOk);
      if next.Ok? && next.value > startBlock {
        RangeExtends(old(queried), lifeFrom, lifeStart, startBlock, next.value, origin);
        startBlock := next.value;
        store.UpdateCheckpoint(chain, address, startBlock, saveOk);
      }
    }

    // The shutdown branch.
    method Shutdown(saveOk: bool)
      requires Valid()
      modifies store
      ensures Valid() && Checkpoint() == if saveOk then Some(startBlock) else old(Checkpoint())
    {
      store.UpdateCheckpoint(chain, address, startBlock, saveOk);
    }

    /** Any run: ticks with any answers, shutdowns and restarts in any order. */
    method Run(events: seq<Event>)
      requires Valid() && forall e :: e in events && e.Ticks? && e.tip.Ok? ==> e.tip.value < TWO_64
      modifies this, store
      ensures Valid() && Position(startBlock, Checkpoint())
        == AfterEvents(old(Position(startBlock, Checkpoint())), events, blockSpan)
      ensures forall tip: nat :: TicksAt(events, tip) && old(startBlock) <= tip ==>
        (startBlock == tip <==> Answered(events) >= Ceiling(tip - old(startBlock), blockSpan + 1))
    {
      for i := 0 to |events|
        invariant Valid()
        invariant Position(startBlock, Checkpoint())
          == AfterEvents(old(Position(startBlock, Checkpoint())), events[..i], blockSpan)
      {
        assert events[..i + 1][..i] == events[..i];
        match events[i]
        case Ticks(tip, logsOk, saveOk) =>
          assert events[i] in events;
          Tick(tip, logsOk, saveOk);
        case ShutsDown(saveOk) => Shutdown(saveOk); Restart();
        case Restarts => Restart();
      }
      assert events[..|events|] == events;
      forall tip: nat | TicksAt(events, tip) && old(startBlock) <= tip
        ensures startBlock == tip <==> Answered(events) >= Ceiling(tip - old(startBlock), blockSpan + 1)
      {
        EventsToTip(old(Position(startBlock, Checkpoint())), events, blockSpan, tip);
      }
    }
  }

  datatype Event = Ticks(tip: Result<nat>, logsOk: bool, saveOk: bool) | ShutsDown(saveOk: bool) | Restarts

  // Where a scanner stands: its start and the stored checkpoint.
  datatype Position = Position(start: nat, checkpoint: Option<nat>)

  function Resumed(p: Position): Position {
    p.(start := if p.checkpoint.Some? then p.checkpoint.value else 0)
  }

  function AfterEvent(p: Position, e: Event, span: nat): Position {
    match e
    case Ticks(tip, logsOk, saveOk) =>
      var next := if tip.Ok? && logsOk then NextStart(p.start, span, tip.value) else p.start;
      Position(next, if next > p.start && saveOk then Some(next) else p.checkpoint)
    case ShutsDown(saveOk) => Resumed(if saveOk then p.(checkpoint := Some(p.start)) else p)
    case Restarts => Resumed(p)
  }

  function AfterEvents(p: Position, events: seq<Event>, span: nat): Position {
    if events == [] then p else AfterEvent(AfterEvents(p, events[..|events| - 1], span), events[|events| - 1], span)
  }

  // Ticks only, and whenever the tip can be read it is this one.
  predicate TicksAt(events: seq<Event>, tip: nat) {
    forall i :: 0 <= i < |events| ==> events[i].Ticks? && (events[i].tip.Ok? ==> events[i].tip.value == tip)
  }

  // How many of the ticks get both answers.
  function Answered(events: seq<Event>): nat {
    if events == [] then 0
    else
      var e := events[|events| - 1];
      Answered(events[..|events| - 1]) + if e.Ticks? && e.tip.Ok? && e.logsOk then 1 else 0
  }

  /** Over ticks at one tip, with any errors and lost saves, the start is the one
      after as many successful ticks as were answered. */
  lemma {:induction false} EventsAreTicks(p: Position, events: seq<Event>, span: nat, tip: nat)
    requires TicksAt(events, tip)
    ensures AfterEvents(p, events, span).start == AfterTicks(p.start, span, tip, Answered(events))
    decreases |events|
  {
    if events != [] { EventsAreTicks(p, events[..|events| - 1], span, tip); }
  }

  /** So a fixed tip is reached exactly once enough ticks have been answered. */
  lemma EventsToTip(p: Position, events: seq<Event>, span: nat, tip: nat)
    requires TicksAt(events, tip) && p.start <= tip
    ensures AfterEvents(p, events, span).start == tip <==> Answered(events) >= Ceiling(tip - p.start, span + 1)
  {
    EventsAreTicks(p, events, span, tip);
    TicksToTip(p.start, span, tip, Answered(events));
  }

  // A fetched range [start, next) extends coverage and the life's chain of ranges.
  lemma RangeExtends(queried: seq<BlockRange>, lifeFrom: nat, lifeStart: nat, start: nat, next: nat, origin: nat)
    requires lifeFrom <= |queried| && start < next && Consecutive(queried[lifeFrom..], lifeStart, start)
    requires forall b :: origin <= b < start ==> Scanned(queried, b)
    ensures var more := queried + [BlockRange(start, next - 1)];
      && Consecutive(more[lifeFrom..], lifeStart, next)
      && forall b :: origin <= b < next ==> Scanned(more, b)
  {
    var range := BlockRange(start, next - 1);
    var more := queried + [range];
    assert more[lifeFrom..] == queried[lifeFrom..] + [range];
    assert (queried[lifeFrom..] + [range])[..|queried| - lifeFrom] == queried[lifeFrom..];
    forall b | origin <= b < next ensures Scanned(more, b) {
      if b < start {
        assert Scanned(queried, b);
        var i :| 0 <= i < |queried| && Contains(queried[i], b);
        assert more[i] == queried[i];
      } else {
        assert Contains(more[|queried|], b);
      }
    }
  }

  /** Ranges of one life never overlap. */
  lemma {:induction false} LifeRangesDisjoint(ranges: seq<BlockRange>, start: nat, end: nat, i: nat, j: nat)
    requires Consecutive(ranges, start, end) && i < j < |ranges|
    ensures ranges[i].fromBlock <= ranges[i].toBlock < ranges[j].fromBlock
    ensures start <= ranges[i].fromBlock && ranges[j].toBlock < end
    decreases |ranges|
  {
    var n := |ranges| - 1;
    var last := ranges[n];
    ConsecutiveBounds(ranges[..n], start, last.fromBlock, i);
    if j < n {
      LifeRangesDisjoint(ranges[..n], start, last.fromBlock, i, j);
      assert ranges[..n][i] == ranges[i] && ranges[..n][j] == ranges[j];
    }
  }

  lemma {:induction false} ConsecutiveBounds(ranges: seq<BlockRange>, start: nat, end: nat, i: nat)
    requires Consecutive(ranges, start, end) && i < |ranges|
    ensures start <= ranges[i].fromBlock <= ranges[i].toBlock < end
    decreases |ranges|
  {
    var n := |ranges| - 1;
    ConsecutiveOrder(ranges[..n], start, ranges[n].fromBlock);
    if i < n { ConsecutiveBounds(ranges[..n], start, ranges[n].fromBlock, i); }
  }

  lemma {:induction false} ConsecutiveOrder(ranges: seq<BlockRange>, start: nat, end: nat)
    requires Consecutive(ranges, start, end)
    ensures start <= end
    decreases |ranges|
  {
    if ranges != [] { ConsecutiveOrder(ranges[..|ranges| - 1], start, ranges[|ranges| - 1].fromBlock); }
  }
}

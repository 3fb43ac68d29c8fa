/** solana-watcher/src/solana-client.ts and watcher.ts: following a growing
    ledger with before/until cursors. */
module SolanaFollower {
  import opened Common

  // `failed` transactions carry `meta.err`; `logs` is whether there are log messages.
  datatype Tx = Tx(signature: string, failed: bool, logs: bool)

  // Every successful transaction can be read in full.
  predicate Readable(txs: seq<Tx>) {
    forall i :: 0 <= i < |txs| ==> txs[i].failed || txs[i].logs
  }

  predicate Distinct(txs: seq<Tx>) {
    forall i, j :: 0 <= i < j < |txs| ==> txs[i].signature != txs[j].signature
  }

  // `lo` is the place just after the cursor, or the beginning without one.
  predicate StartsAfter(txs: seq<Tx>, cursor: Option<string>, lo: nat) {
    lo <= |txs| && if cursor.None? then lo == 0 else lo > 0 && txs[lo - 1].signature == cursor.value
  }

  // Signatures of txs[from..end], newest first: what paging collects.
  function Newest(txs: seq<Tx>, from: nat, end: nat): (r: seq<string>)
    requires from <= end <= |txs|
    ensures |r| == end - from
    decreases end - from
  {
    if from == end then [] else [txs[end - 1].signature] + Newest(txs, from, end - 1)
  }

  // The successful transactions, in the order given.
  function Successes(txs: seq<Tx>): (r: seq<Tx>)
  {
    if txs == [] then [] else
      var n := |txs| - 1;
      Successes(txs[..n]) + if txs[n].failed then [] else [txs[n]]
  }

  function Reversed(txs: seq<Tx>): (r: seq<Tx>)
    ensures |r| == |txs|
    ensures forall i :: 0 <= i < |r| ==> r[i] == txs[|txs| - 1 - i]
  {
    seq(|txs|, i requires 0 <= i < |txs| => txs[|txs| - 1 - i])
  }

  // ---------------------------------------------------------------- the node

  /** The RPC node. The ledger may grow before any answer, any call may fail, and
      a page may hold any positive number of signatures. */
  class Node {
    var txs: seq<Tx>
    var failures: nat   // calls that failed so far

    constructor (txs: seq<Tx>)
      requires Distinct(txs)
      ensures this.txs == txs && failures == 0
    {
      this.txs, failures := txs, 0;
    }

    method Grow()
      requires Distinct(txs)
      modifies this`txs
      ensures Distinct(txs) && old(txs) <= txs
    {
      var more: seq<Tx> := *;
      if Distinct(txs + more) { txs := txs + more; }
    }

    // Index of a known signature.
    method Find(signature: string, ghost at: nat) returns (i: nat)
      requires Distinct(txs) && at < |txs| && txs[at].signature == signature
      ensures i == at
    {
      i := 0;
      while txs[i].signature != signature
        invariant i <= at
        decreases at - i
      {
        i := i + 1;
      }
    }

    /** `getSignaturesForAddress`: newest first, strictly older than `before` (at
        index `at`), strictly newer than `until` (at index `lo - 1`); empty only
        when there is nothing left. */
    method GetSignatures(before: Option<string>, until: Option<string>, ghost at: nat, ghost lo: nat)
      returns (r: Result<seq<string>>, ghost from: nat, ghost hi: nat)
      requires Distinct(txs)
      requires before.Some? ==> at < |txs| && txs[at].signature == before.value
      requires StartsAfter(txs, until, lo)
      modifies this
      ensures Distinct(txs) && old(txs) <= txs
      ensures failures == old(failures) + if r.Err? then 1 else 0
      ensures hi == if before.None? then |txs| else at
      ensures r.Ok? ==> from <= hi && r.value == Newest(txs, from, hi)
      ensures r.Ok? ==> if lo < hi then lo <= from < hi else from == hi
    {
      Grow();
      var top, bottom := |txs|, 0;
      if before.Some? { top := Find(before.value, at); }
      if until.Some? { bottom := Find(until.value, lo - 1); bottom := bottom + 1; }
      from, hi := top, top;
      if * {
        failures := failures + 1;
        return Err, from, hi;
      }
      var count: nat := *;
      if top <= bottom { count := 0; } else if count < 1 || count > top - bottom { count := 1; }
      from := top - count;
      r := Ok(Newest(txs, top - count, top));
    }

    // `getTransaction`
    method GetTransaction(signature: string, ghost at: nat) returns (r: Result<Tx>)
      requires Distinct(txs) && at < |txs| && txs[at].signature == signature
      modifies this
      ensures Distinct(txs) && old(txs) <= txs
      ensures failures == old(failures) + if r.Err? then 1 else 0
      ensures r.Ok? ==> r.value == txs[at]
    {
      Grow();
      var i := Find(signature, at);
      if * {
        failures := failures + 1;
        return Err;
      }
      r := Ok(txs[i]);
    }
  }

  // ------------------------------------------------------------- the client

  predicate Limited(limit: Option<nat>) { limit.Some? && limit.value > 0 }

  class SolanaClient {
    const node: Node

    constructor (node: Node)
      ensures this.node == node
    {
      this.node := node;
    }

    // The paging loop: everything between `from` and the tip the first page saw.
    method CollectSignatures(from: Option<string>, limit: Option<nat>, ghost lo: nat)
      returns (r: Result<seq<string>>, ghost low: nat, ghost tip: nat)
      requires Distinct(node.txs) && StartsAfter(node.txs, from, lo)
      modifies node
      ensures Distinct(node.txs) && old(node.txs) <= node.txs && NoFewer(old(node.failures), node.failures, r.Err?)
      ensures r.Ok? ==> |old(node.txs)| <= tip <= |node.txs| && lo <= low <= tip
      ensures r.Ok? ==> r.value == Newest(node.txs, low, tip)
      ensures r.Ok? ==> low == lo || (Limited(limit) && |r.value| >= limit.value)
    {
      var fetched: seq<string> := [];
      var before: Option<string> := None;
      low, tip := |node.txs|, |node.txs|;
      while true
        invariant Distinct(node.txs) && old(node.txs) <= node.txs && old(node.failures) <= node.failures
        invariant lo <= low <= tip <= |node.txs| && |old(node.txs)| <= tip
        invariant fetched == Newest(node.txs, low, tip)
        invariant PagedTo(node.txs, before, low, tip)
        decreases before.None?, low
      {
        var page;
        page, low, tip := NextPage(before, from, fetched, lo, low, tip);
        if page.Err? { return Err, low, tip; }
        var sigs := page.value;
        fetched := fetched + sigs;
        if |sigs| == 0 || Some(sigs[|sigs| - 1]) == from || (Limited(limit) && |fetched| >= limit.value) {
          break;
        }
        before := Some(sigs[|sigs| - 1]);
      }
      r := Ok(fetched);
    }

    // Paging, then `splice(limit)`.
    method LimitedSignatures(from: Option<string>, limit: Option<nat>, ghost lo: nat)
      returns (r: Result<seq<string>>, ghost tip: nat)
      requires Distinct(node.txs) && StartsAfter(node.txs, from, lo)
      modifies node
      ensures Distinct(node.txs) && old(node.txs) <= node.txs && NoFewer(old(node.failures), node.failures, r.Err?)
      ensures r.Ok? ==> |old(node.txs)| <= tip <= |node.txs| && lo <= tip
      ensures r.Ok? ==> r.value == Newest(node.txs, Kept(lo, tip, limit), tip)
    {
      ghost var low;
      r, low, tip := CollectSignatures(from, limit, lo);
      if r.Ok? && Limited(limit) && |r.value| > limit.value {
        NewestPrefix(node.txs, low, tip, limit.value);
        r := Ok(r.value[..limit.value]);
      }
    }

    /** `getTransactions`: the successful transactions after `from`, newest first. */
    method GetTransactions(from: Option<string>, limit: Option<nat>, ghost lo: nat)
      returns (r: Result<seq<Tx>>, ghost tip: nat)
      requires Distinct(node.txs) && StartsAfter(node.txs, from, lo)
      modifies node
      ensures Distinct(node.txs) && old(node.txs) <= node.txs
      ensures NoFewer(old(node.failures), node.failures, r.Err? && Readable(node.txs))
      ensures r.Ok? ==> |old(node.txs)| <= tip <= |node.txs| && lo <= tip
      ensures r.Ok? ==> r.value == Reversed(Successes(node.txs[Kept(lo, tip, limit)..tip]))
    {
      var signatures;
      signatures, tip := LimitedSignatures(from, limit, lo);
      if signatures.Err? { return Err, tip; }
      ghost var low := Kept(lo, tip, limit);
      var fetched := FetchAll(signatures.value, low, tip);
      if fetched.Err? { return Err, tip; }
      r := KeepSuccessful(fetched.value);
      if Readable(node.txs) { ReadablePart(node.txs, low, tip); }
      SuccessesOfReversed(node.txs[low..tip]);
    }

    method FetchAll(signatures: seq<string>, ghost low: nat, ghost tip: nat) returns (r: Result<seq<Tx>>)
      requires Distinct(node.txs) && low <= tip <= |node.txs| && signatures == Newest(node.txs, low, tip)
      modifies node
      ensures Distinct(node.txs) && old(node.txs) <= node.txs && NoFewer(old(node.failures), node.failures, r.Err?)
      ensures r.Ok? ==> r.value == Reversed(node.txs[low..tip])
    {
      var fetched: seq<Tx> := [];
      ghost var txs := node.txs;
      for i := 0 to |signatures|
        invariant Distinct(node.txs) && txs <= node.txs && old(node.failures) <= node.failures
        invariant fetched == Reversed(txs[tip - i..tip])
      {
        NewestAt(txs, low, tip, i);
        var t := node.GetTransaction(signatures[i], tip - 1 - i);
        if t.Err? { return Err; }
        ReversedExtends(txs, tip - i, tip);
        fetched := fetched + [t.value];
      }
      SameSlice(txs, node.txs, low, tip);
      r := Ok(fetched);
    }

    // The second loop; a transaction without logs fails the whole call.
    method KeepSuccessful(fetched: seq<Tx>) returns (r: Result<seq<Tx>>)
      ensures r.Ok? <==> Readable(fetched)
      ensures r.Ok? ==> r.value == Successes(fetched)
    {
      var transactions: seq<Tx> := [];
      for i := 0 to |fetched|
        invariant transactions == Successes(fetched[..i]) && Readable(fetched[..i])
      {
        assert fetched[..i + 1][..i] == fetched[..i];
        if !fetched[i].failed {
          if !fetched[i].logs { return Err; }
          transactions := transactions + [fetched[i]];
        }
      }
      assert fetched[..|fetched|] == fetched;
      r := Ok(transactions);
    }

    // One call of the loop and how its page extends what was fetched.
    method NextPage(before: Option<string>, from: Option<string>, ghost fetched: seq<string>,
        ghost lo: nat, ghost low0: nat, ghost tip0: nat)
      returns (page: Result<seq<string>>, ghost low: nat, ghost tip: nat)
      requires Distinct(node.txs) && StartsAfter(node.txs, from, lo) && lo <= low0 <= tip0 <= |node.txs|
      requires PagedTo(node.txs, before, low0, tip0) && fetched == Newest(node.txs, low0, tip0)
      modifies node
      ensures Distinct(node.txs) && old(node.txs) <= node.txs && NoFewer(old(node.failures), node.failures, page.Err?)
      ensures tip0 <= tip <= |node.txs|
      ensures page.Ok? ==> lo <= low <= tip && fetched + page.value == Newest(node.txs, low, tip)
      ensures page.Ok? && page.value == [] ==> low == lo
      ensures page.Ok? && page.value != [] ==>
        && (before.Some? ==> low < low0)
        && low < |node.txs| && page.value[|page.value| - 1] == node.txs[low].signature
        && Some(node.txs[low].signature) != from
    {
      ghost var hi;
      page, low, hi := node.GetSignatures(before, from, low0, lo);
      tip := if before.None? then hi else tip0;
      if page.Ok? {
        PageJoins(old(node.txs), node.txs, low, hi, tip);
        if low < hi { LastOfPage(node.txs, low, hi, lo, from); }
      }
    }
  }

  // Calls that failed are counted; an error means that one more did.
  predicate NoFewer(before: nat, after: nat, error: bool) {
    before <= after && (error ==> before < after)
  }

  lemma ReadablePart(txs: seq<Tx>, low: nat, tip: nat)
    requires low <= tip <= |txs| && Readable(txs)
    ensures Readable(Reversed(txs[low..tip]))
  {
  }

  // What `getTransactions` keeps of the collected range.
  function Kept(lo: nat, tip: nat, limit: Option<nat>): (low: nat)
    requires lo <= tip
    ensures lo <= low <= tip
  {
    if Limited(limit) && tip - lo > limit.value then tip - limit.value else lo
  }

  /** Without a limit, or with a limit of zero, everything after the cursor is kept;
      the first run, without a cursor, keeps the newest 100. */
  lemma KeptRange(tip: nat, lo: nat, cursor: string)
    requires lo <= tip
    ensures Kept(lo, tip, None) == lo && Kept(lo, tip, Some(0)) == lo && Kept(lo, tip, Limit(Some(cursor))) == lo
    ensures Kept(0, tip, Limit(None)) == if tip >= 100 then tip - 100 else 0
    ensures Kept(0, tip, Some(1)) == if tip >= 1 then tip - 1 else 0
  {
  }

  // Where paging stands: at the tip before the first page, then at `before`.
  predicate PagedTo(txs: seq<Tx>, before: Option<string>, low: nat, tip: nat) {
    low <= |txs| && if before.None? then low == tip == |txs| else low < |txs| && txs[low].signature == before.value
  }

  lemma {:induction false} NewestAt(txs: seq<Tx>, from: nat, end: nat, i: nat)
    requires from <= end <= |txs| && i < end - from
    ensures Newest(txs, from, end)[i] == txs[end - 1 - i].signature
    decreases end - from
  {
    if i > 0 { NewestAt(txs, from, end - 1, i - 1); }
  }

  // The oldest signature of a page is where the next page ends; it is never the cursor.
  lemma LastOfPage(txs: seq<Tx>, start: nat, end: nat, lo: nat, from: Option<string>)
    requires Distinct(txs) && StartsAfter(txs, from, lo) && lo <= start < end <= |txs|
    ensures Newest(txs, start, end)[end - start - 1] == txs[start].signature
    ensures Some(txs[start].signature) != from
  {
    NewestAt(txs, start, end, end - start - 1);
  }

  // A page taken from the grown ledger continues what was collected before.
  lemma PageJoins(known: seq<Tx>, txs: seq<Tx>, start: nat, low: nat, tip: nat)
    requires start <= low <= tip <= |txs| && known <= txs
    ensures tip <= |known| ==> Newest(known, low, tip) == Newest(txs, low, tip)
    ensures Newest(txs, low, tip) + Newest(txs, start, low) == Newest(txs, start, tip)
  {
    NewestSplits(txs, start, low, tip);
    if tip <= |known| { NewestGrows(known, txs, low, tip); }
  }

  lemma {:induction false} NewestSplits(txs: seq<Tx>, start: nat, low: nat, tip: nat)
    requires start <= low <= tip <= |txs|
    ensures Newest(txs, low, tip) + Newest(txs, start, low) == Newest(txs, start, tip)
    decreases tip - low
  {
    if low < tip { NewestSplits(txs, start, low, tip - 1); }
  }

  lemma {:induction false} NewestGrows(txs: seq<Tx>, grown: seq<Tx>, low: nat, tip: nat)
    requires low <= tip <= |txs| && txs <= grown
    ensures Newest(txs, low, tip) == Newest(grown, low, tip)
    decreases tip - low
  {
    if low < tip { NewestGrows(txs, grown, low, tip - 1); }
  }

  lemma {:induction false} NewestPrefix(txs: seq<Tx>, low: nat, tip: nat, n: nat)
    requires low <= tip <= |txs| && n <= tip - low
    ensures Newest(txs, low, tip)[..n] == Newest(txs, tip - n, tip)
  {
    NewestSplits(txs, low, tip - n, tip);
  }

  lemma ReversedExtends(txs: seq<Tx>, from: nat, end: nat)
    requires 0 < from <= end <= |txs|
    ensures Reversed(txs[from - 1..end]) == Reversed(txs[from..end]) + [txs[from - 1]]
  {
  }

  lemma SameSlice(txs: seq<Tx>, grown: seq<Tx>, low: nat, tip: nat)
    requires low <= tip <= |txs| && txs <= grown
    ensures txs[low..tip] == grown[low..tip]
  {
  }

  lemma {:induction false} SuccessesJoin(a: seq<Tx>, b: seq<Tx>)
    ensures Successes(a + b) == Successes(a) + Successes(b)
    decreases |b|
  {
    if b == [] {
      assert a + b == a;
    } else {
      var n := |b| - 1;
      assert (a + b)[..|a + b| - 1] == a + b[..n];
      SuccessesJoin(a, b[..n]);
    }
  }

  lemma ReversedAppend(s: seq<Tx>, t: Tx)
    ensures Reversed(s + [t]) == [t] + Reversed(s)
  {
  }

  // Filtering and reversing commute.
  lemma {:induction false} SuccessesOfReversed(txs: seq<Tx>)
    ensures Successes(Reversed(txs)) == Reversed(Successes(txs))
    decreases |txs|
  {
    if txs != [] {
      var n := |txs| - 1;
      var init, t := txs[..n], txs[n];
      assert txs == init + [t];
      SuccessesOfReversed(init);
      OneMoreReversed(init, t);
    }
  }

  lemma OneMoreReversed(init: seq<Tx>, t: Tx)
    requires Successes(Reversed(init)) == Reversed(Successes(init))
    ensures Successes(Reversed(init + [t])) == Reversed(Successes(init + [t]))
  {
    assert (init + [t])[..|init|] == init;
    ReversedAppend(init, t);
    SuccessesJoin([t], Reversed(init));
    SuccessesOfOne(t);
    ReversedAppend(Successes(init), t);
  }

  lemma SuccessesOfOne(t: Tx)
    ensures Successes([t]) == if t.failed then [] else [t]
  {
    assert [t][..0] == [];
  }

  // ------------------------------------------------------------- the watcher

  // Batches in the order they were handed over, each turned oldest first.
  function Chronicle(batches: seq<seq<Tx>>): seq<Tx> {
    if batches == [] then [] else Chronicle(batches[..|batches| - 1]) + Reversed(batches[|batches| - 1])
  }

  const FIRST_RUN_LIMIT := 100

  class Watcher {
    const client: SolanaClient
    var from: Option<string>
    var handed: seq<seq<Tx>>   // the arguments of `storage.updateEvents`, call by call
    ghost var base: nat        // where following began
    ghost var cursor: nat      // one past the transaction `from` names

    /** Everything successful between `base` and the cursor has been handed over,
        in ledger order, once; nothing else has. */
    ghost predicate Valid()
      reads this, client.node
    {
      && Distinct(client.node.txs) && StartsAfter(client.node.txs, from, cursor) && base <= cursor
      && Chronicle(handed) == Successes(client.node.txs[base..cursor])
    }

    constructor (client: SolanaClient, startFrom: string, ghost at: nat)
      requires Distinct(client.node.txs)
      requires startFrom != "" ==> at < |client.node.txs| && client.node.txs[at].signature == startFrom
      ensures Valid() && this.client == client && handed == []
      ensures base == cursor == if startFrom == "" then 0 else at + 1
    {
      this.client := client;
      from := if startFrom == "" then None else Some(startFrom);
      handed := [];
      base, cursor := if startFrom == "" then 0 else at + 1, if startFrom == "" then 0 else at + 1;
    }

    /** `processFrom`: fetch, parse, hand over. Parsing, block times or the store
        may be `broken`; then nothing has been handed over. */
    method ProcessFrom(broken: bool) returns (processed: Option<seq<Tx>>, ghost tip: nat)
      requires Distinct(client.node.txs) && StartsAfter(client.node.txs, from, cursor)
      modifies this`handed, client.node
      ensures Distinct(client.node.txs) && old(client.node.txs) <= client.node.txs
      ensures processed.None? ==> handed == old(handed)
      ensures NoFewer(old(client.node.failures), client.node.failures, processed.None? && !broken
        && Readable(client.node.txs))
      ensures processed.Some? ==>
        && handed == old(handed) + [processed.value]
        && |old(client.node.txs)| <= tip <= |client.node.txs| && cursor <= tip
        && processed.value == Reversed(Successes(client.node.txs[Kept(cursor, tip, Limit(from))..tip]))
    {
      var transactions;
      transactions, tip := client.GetTransactions(from, Limit(from), cursor);
      if transactions.Err? { return None, tip; }
      if broken { return None, tip; }
      handed := handed + [transactions.value];
      processed := Some(transactions.value);
    }

    /** One turn of `run`'s loop: it fails only if some call or step did. */
    method Poll(broken: bool) returns (ok: bool)
      requires Valid()
      modifies this, client.node
      ensures Valid() && old(client.node.txs) <= client.node.txs && old(handed) <= handed
      ensures cursor >= old(cursor) && (old(from).Some? ==> from.Some? && base == old(base))
      ensures !ok ==> handed == old(handed) && from == old(from) && cursor == old(cursor)
      ensures NoFewer(old(client.node.failures), client.node.failures, !ok && !broken && Readable(client.node.txs))
      ensures ok && old(from).Some? ==>
        forall i :: cursor <= i < |old(client.node.txs)| ==> client.node.txs[i].failed
    {
      ghost var txs0, batches := client.node.txs, handed;
      var processed;
      ghost var tip;
      processed, tip := ProcessFrom(broken);
      SameSlice(txs0, client.node.txs, base, cursor);
      ok := processed.Some?;
      if ok {
        if |processed.value| != 0 {
          base, cursor := Advance(client.node.txs, batches, processed.value, from, base, cursor, tip);
          from := Some(processed.value[0].signature);
        } else {
          Standstill(client.node.txs, batches, processed.value, from, cursor, tip);
        }
      }
    }

    /** `run`, for any number of turns, broken or not. */
    method Run(turns: seq<bool>)
      requires Valid()
      modifies this, client.node
      ensures Valid() && old(client.node.txs) <= client.node.txs && old(handed) <= handed
      ensures old(from).Some? ==> from.Some? && base == old(base) && cursor >= old(cursor)
    {
      for i := 0 to |turns|
        invariant Valid() && old(client.node.txs) <= client.node.txs && old(handed) <= handed
        invariant old(from).Some? ==> from.Some? && base == old(base) && cursor >= old(cursor)
      {
        var ok := Poll(turns[i]);
      }
    }
  }

  function Limit(from: Option<string>): Option<nat> {
    if from.Some? then None else Some(FIRST_RUN_LIMIT)
  }

  predicate AllFailed(txs: seq<Tx>, from: int, end: int)
    requires 0 <= from && end <= |txs|
  {
    forall i :: from <= i < end ==> txs[i].failed
  }

  // A batch with successes moves the cursor just past the newest of them.
  lemma Advance(txs: seq<Tx>, batches: seq<seq<Tx>>, batch: seq<Tx>, from: Option<string>, base: nat, cursor: nat,
                tip: nat)
    returns (base': nat, cursor': nat)
    requires StartsAfter(txs, from, cursor) && base <= cursor <= tip <= |txs|
    requires Chronicle(batches) == Successes(txs[base..cursor])
    requires batch == Reversed(Successes(txs[Kept(cursor, tip, Limit(from))..tip])) && |batch| != 0
    ensures base' <= cursor' && StartsAfter(txs, Some(batch[0].signature), cursor')
    ensures Chronicle(batches + [batch]) == Successes(txs[base'..cursor'])
    ensures cursor <= cursor' <= tip && AllFailed(txs, cursor', tip)
    ensures from.Some? ==> base' == base
  {
    var low := Kept(cursor, tip, Limit(from));
    if from.None? { NothingYet(txs, base, cursor); }
    base' := if from.Some? then base else low;
    cursor' := AdvanceOver(txs, batches, batch, base', low, tip);
  }

  lemma NothingYet(txs: seq<Tx>, base: nat, cursor: nat)
    requires base <= cursor == 0
    ensures Successes(txs[base..cursor]) == []
    ensures forall low :: 0 <= low <= |txs| ==> Successes(txs[low..low]) == []
  {
    assert forall low :: 0 <= low <= |txs| ==> txs[low..low] == [];
  }

  lemma AdvanceOver(txs: seq<Tx>, batches: seq<seq<Tx>>, batch: seq<Tx>, base: nat, low: nat, tip: nat)
    returns (cursor: nat)
    requires base <= low <= tip <= |txs| && Chronicle(batches) == Successes(txs[base..low])
    requires batch == Reversed(Successes(txs[low..tip])) && |batch| != 0
    ensures low < cursor <= tip && AllFailed(txs, cursor, tip)
    ensures batch[0] == txs[cursor - 1]
    ensures Chronicle(batches + [batch]) == Successes(txs[base..cursor])
  {
    var p := NewestSuccess(txs, low, tip);
    cursor := p + 1;
    ChronicleTo(txs, batches, batch, base, low, cursor, Successes(txs[low..tip]));
  }

  lemma ChronicleTo(txs: seq<Tx>, batches: seq<seq<Tx>>, batch: seq<Tx>, base: nat, low: nat, cursor: nat,
                    found: seq<Tx>)
    requires base <= low <= cursor <= |txs| && Chronicle(batches) == Successes(txs[base..low])
    requires batch == Reversed(found) && found == Successes(txs[low..cursor])
    ensures Chronicle(batches + [batch]) == Successes(txs[base..cursor])
  {
    ChronicleGrows(batches, batch, found);
    SuccessesExtend(txs, base, low, cursor);
  }

  lemma Standstill(txs: seq<Tx>, batches: seq<seq<Tx>>, batch: seq<Tx>, from: Option<string>, cursor: nat, tip: nat)
    requires StartsAfter(txs, from, cursor) && cursor <= tip <= |txs|
    requires batch == Reversed(Successes(txs[Kept(cursor, tip, Limit(from))..tip])) && |batch| == 0
    ensures Chronicle(batches + [batch]) == Chronicle(batches)
    ensures from.Some? ==> AllFailed(txs, cursor, tip)
  {
    var low := Kept(cursor, tip, Limit(from));
    ChronicleGrows(batches, batch, Successes(txs[low..tip]));
    NoSuccess(txs, low, tip);
  }

  lemma ChronicleGrows(batches: seq<seq<Tx>>, batch: seq<Tx>, found: seq<Tx>)
    requires batch == Reversed(found)
    ensures Chronicle(batches + [batch]) == Chronicle(batches) + found
  {
    assert (batches + [batch])[..|batches|] == batches;
    assert Reversed(batch) == found;
  }

  lemma SuccessesExtend(txs: seq<Tx>, base: nat, cursor: nat, end: nat)
    requires base <= cursor <= end <= |txs|
    ensures Successes(txs[base..end]) == Successes(txs[base..cursor]) + Successes(txs[cursor..end])
  {
    SuccessesJoin(txs[base..cursor], txs[cursor..end]);
    assert txs[base..cursor] + txs[cursor..end] == txs[base..end];
  }

  lemma OneMore(txs: seq<Tx>, low: nat, tip: nat)
    requires low < tip <= |txs|
    ensures Successes(txs[low..tip]) == Successes(txs[low..tip - 1]) + if txs[tip - 1].failed then []
      else [txs[tip - 1]]
  {
    assert txs[low..tip][..tip - low - 1] == txs[low..tip - 1];
  }

  // The newest success of a range: where the cursor moves.
  lemma {:induction false} NewestSuccess(txs: seq<Tx>, low: nat, tip: nat) returns (p: nat)
    requires low <= tip <= |txs| && Successes(txs[low..tip]) != []
    ensures low <= p < tip && AllFailed(txs, p + 1, tip)
    ensures Successes(txs[low..p + 1]) == Successes(txs[low..tip])
    ensures Successes(txs[low..tip])[|Successes(txs[low..tip])| - 1] == txs[p]
    decreases tip
  {
    assert txs[low..low] == [];
    OneMore(txs, low, tip);
    p := tip - 1;
    if txs[tip - 1].failed { p := NewestSuccess(txs, low, tip - 1); }
  }

  lemma {:induction false} NoSuccess(txs: seq<Tx>, low: nat, tip: nat)
    requires low <= tip <= |txs| && Successes(txs[low..tip]) == []
    ensures AllFailed(txs, low, tip)
    decreases tip
  {
    if low < tip {
      OneMore(txs, low, tip);
      NoSuccess(txs, low, tip - 1);
    }
  }

  // ------------------------------------------------------------- exactly once

  // Everything handed over, batch after batch.
  function Flat(batches: seq<seq<Tx>>): seq<Tx> {
    if batches == [] then [] else Flat(batches[..|batches| - 1]) + batches[|batches| - 1]
  }

  /** Each successful transaction between `base` and the cursor is handed over
      exactly once, and no other transaction is. */
  lemma HandedExactlyOnce(txs: seq<Tx>, batches: seq<seq<Tx>>, base: nat, cursor: nat, t: Tx)
    requires Distinct(txs) && base <= cursor <= |txs|
    requires Chronicle(batches) == Successes(txs[base..cursor])
    ensures multiset(Flat(batches))[t] == if t in txs[base..cursor] && !t.failed then 1 else 0
  {
    FlatIsChronicle(batches);
    CountSuccesses(txs[base..cursor], t);
  }

  lemma {:induction false} FlatIsChronicle(batches: seq<seq<Tx>>)
    ensures multiset(Flat(batches)) == multiset(Chronicle(batches))
  {
    if batches != [] {
      FlatIsChronicle(batches[..|batches| - 1]);
      ReversedSameElements(batches[|batches| - 1]);
    }
  }

  lemma {:induction false} ReversedSameElements(s: seq<Tx>)
    ensures multiset(Reversed(s)) == multiset(s)
  {
    if s != [] {
      var n := |s| - 1;
      ReversedSameElements(s[..n]);
      assert Reversed(s) == [s[n]] + Reversed(s[..n]);
      assert s == s[..n] + [s[n]];
    }
  }

  lemma {:induction false} CountSuccesses(txs: seq<Tx>, t: Tx)
    requires Distinct(txs)
    ensures multiset(Successes(txs))[t] == if t in txs && !t.failed then 1 else 0
  {
    if txs != [] {
      var init, last := txs[..|txs| - 1], txs[|txs| - 1];
      CountSuccesses(init, t);
      LastIsNew(txs);
      InOrLast(txs, t);
    }
  }

  lemma LastIsNew(txs: seq<Tx>)
    requires Distinct(txs) && txs != []
    ensures txs[|txs| - 1] !in txs[..|txs| - 1]
  {
    forall i | 0 <= i < |txs| - 1 ensures txs[i] != txs[|txs| - 1] {
      assert txs[i].signature != txs[|txs| - 1].signature;
    }
  }

  lemma InOrLast(txs: seq<Tx>, t: Tx)
    requires txs != []
    ensures t in txs <==> t in txs[..|txs| - 1] || t == txs[|txs| - 1]
  {
    assert txs == txs[..|txs| - 1] + [txs[|txs| - 1]];
  }
}

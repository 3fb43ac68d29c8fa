/** The Solana rows of the `swaps` table and the statements that write them
    (solana-watcher/src/storage.ts, solana-executor/src/storage.ts). */
module SolanaRows {
  import opened Common
  import Hex

  datatype Row = Row(
    chain: string, initiator: string, redeemer: string, asset: string, timelock: int, secretHash: string,
    secret: string, filled: nat, initiateTx: string, initiateSlot: nat, redeemTx: string, redeemSlot: nat,
    refundTx: string, refundSlot: nat, confirmations: int, required: int)

  type Table = map<string, Row>

  // Secrets and hashes of events are bare lower-case hex.
  datatype Event =
    | Initiated(signature: string, slot: nat, initiator: string, redeemer: string, mint: Option<string>,
                amount: nat, expiresInSlots: nat, secretHash: string)
    | Redeemed(signature: string, slot: nat, initiator: string, secret: string)
    | Refunded(signature: string, slot: nat, initiator: string, secretHash: string)

  // LOWER(REGEXP_REPLACE(secret_hash, '^0x', ''))
  function Normal(hash: string): string { Lower(Strip0x(hash)) }

  // ------------------------------------------------- the watcher's statements

  predicate InitiatedHits(r: Row, chain: string, e: Event)
    requires e.Initiated?
  {
    && r.chain == chain && r.initiator == e.initiator && r.redeemer == e.redeemer
    && r.asset == (if e.mint.Some? then e.mint.value else "primary")
    && r.timelock == e.expiresInSlots && Normal(r.secretHash) == Lower(e.secretHash)
    && r.initiateTx == ""
  }

  predicate ClosingHits(r: Row, chain: string, initiator: string, hash: string) {
    && r.chain == chain && r.initiator == initiator && Normal(r.secretHash) == Lower(hash)
    && r.initiateTx != "" && r.redeemTx == "" && r.refundTx == ""
  }

  function WithInitiated(t: Table, chain: string, e: Event): Table
    requires e.Initiated?
  {
    map id | id in t :: if InitiatedHits(t[id], chain, e)
      then t[id].(filled := e.amount, initiateTx := e.signature, initiateSlot := e.slot, confirmations := 1)
      else t[id]
  }

  function WithRedeemed(t: Table, chain: string, sha: string -> string, e: Event): Table
    requires e.Redeemed?
  {
    map id | id in t :: if ClosingHits(t[id], chain, e.initiator, sha(e.secret))
      then t[id].(redeemTx := e.signature, redeemSlot := e.slot, secret := e.secret)
      else t[id]
  }

  function WithRefunded(t: Table, chain: string, e: Event): Table
    requires e.Refunded?
  {
    map id | id in t :: if ClosingHits(t[id], chain, e.initiator, e.secretHash)
      then t[id].(refundTx := e.signature, refundSlot := e.slot)
      else t[id]
  }

  function WithEvent(t: Table, chain: string, sha: string -> string, e: Event): Table {
    match e
    case Initiated(_, _, _, _, _, _, _, _) => WithInitiated(t, chain, e)
    case Redeemed(_, _, _, _) => WithRedeemed(t, chain, sha, e)
    case Refunded(_, _, _, _) => WithRefunded(t, chain, e)
  }

  function WithEvents(t: Table, chain: string, sha: string -> string, events: seq<Event>): Table {
    if events == [] then t
    else WithEvent(WithEvents(t, chain, sha, events[..|events| - 1]), chain, sha, events[|events| - 1])
  }

  predicate ConfirmationHits(r: Row, chain: string, tx: string, c: int) {
    r.chain == chain && r.initiateTx == tx && r.confirmations < c
  }

  function WithConfirmation(t: Table, chain: string, tx: string, c: int): Table {
    map id | id in t :: if ConfirmationHits(t[id], chain, tx, c) then t[id].(confirmations := c) else t[id]
  }

  function WithConfirmations(t: Table, chain: string, txns: seq<(string, int)>): Table {
    if txns == [] then t
    else
      var last := txns[|txns| - 1];
      WithConfirmation(WithConfirmations(t, chain, txns[..|txns| - 1]), chain, last.0, last.1)
  }

  // ------------------------------------------------ the executor's statements

  function WithRecordedRedeem(t: Table, chain: string, id: string, tx: string, secretHex: string, slot: nat): Table {
    if id in t && t[id].chain == chain && t[id].redeemTx == ""
    then t[id := t[id].(redeemTx := tx, redeemSlot := slot, secret := secretHex)]
    else t
  }

  function WithRecordedRefund(t: Table, chain: string, id: string, tx: string, slot: nat): Table {
    if id in t && t[id].chain == chain && t[id].refundTx == ""
    then t[id := t[id].(refundTx := tx, refundSlot := slot)]
    else t
  }

  // `decodeHex32`: an optional 0x and 64 hex digits, here as lower-case text.
  function DecodeHex32(s: string): Option<string> {
    var clean := Strip0x(s);
    if |clean| == 64 && forall i :: 0 <= i < 64 ==> Hex.IsHexDigit(clean[i]) then Some(Lower(clean)) else None
  }

  // What `getPendingRedeems` asks of the source row.
  predicate PendingRedeem(r: Row, chain: string, redeemer: string) {
    r.chain == chain && r.redeemer == redeemer && r.initiateTx != "" && r.redeemTx == "" && r.refundTx == ""
  }

  // And of the destination row, which reveals the secret.
  predicate RevealsSecret(d: Row) {
    d.initiateTx != "" && d.secret != "" && d.redeemTx != "" && d.refundTx == ""
  }

  predicate PendingRefund(r: Row, chain: string, redeemer: string, now: int) {
    PendingRedeem(r, chain, redeemer) && r.timelock < now
  }

  // ---------------------------------------------- what each statement leaves alone

  /** An initiate event writes a row exactly if the row is not initiated and chain,
      initiator, redeemer, asset, timelock and normalized hash are the event's; it
      then sets the columns of the initiation and no others, and a second time it
      writes nothing. */
  lemma InitiatedOnce(t: Table, chain: string, e: Event, id: string)
    requires e.Initiated? && e.signature != "" && id in t
    ensures WithInitiated(t, chain, e).Keys == t.Keys
    ensures var r := t[id];
      WithInitiated(t, chain, e)[id] ==
        if && r.initiateTx == "" && r.chain == chain && r.initiator == e.initiator && r.redeemer == e.redeemer
           && r.asset == (match e.mint case None => "primary" case Some(mint) => mint)
           && r.timelock == e.expiresInSlots && Lower(Strip0x(r.secretHash)) == Lower(e.secretHash)
        then r.(filled := e.amount, initiateTx := e.signature, initiateSlot := e.slot, confirmations := 1)
        else r
    ensures WithInitiated(WithInitiated(t, chain, e), chain, e) == WithInitiated(t, chain, e)
  {
    var t' := WithInitiated(t, chain, e);
    forall k | k in t' ensures !InitiatedHits(t'[k], chain, e) { assert k in t; }
  }

  /** A redeem event writes a row exactly if the row is initiated and open and chain
      and initiator are the event's and the row's hash is that of the secret; it then
      sets the columns of the redeem and no others; after it, no redeem or refund
      event of that account writes anything more. */
  lemma RedeemedOnce(t: Table, chain: string, sha: string -> string, e: Event, id: string)
    requires e.Redeemed? && e.signature != "" && id in t
    ensures WithRedeemed(t, chain, sha, e).Keys == t.Keys
    ensures var r := t[id];
      WithRedeemed(t, chain, sha, e)[id] ==
        if && r.initiateTx != "" && r.redeemTx == "" && r.refundTx == "" && r.chain == chain
           && r.initiator == e.initiator && Lower(Strip0x(r.secretHash)) == Lower(sha(e.secret))
        then r.(redeemTx := e.signature, redeemSlot := e.slot, secret := e.secret)
        else r
    ensures WithRedeemed(WithRedeemed(t, chain, sha, e), chain, sha, e) == WithRedeemed(t, chain, sha, e)
    ensures forall f: Event ::
      f.Refunded? && f.initiator == e.initiator && Lower(f.secretHash) == Lower(sha(e.secret)) ==>
      WithRefunded(WithRedeemed(t, chain, sha, e), chain, f) == WithRedeemed(t, chain, sha, e)
  {
    var t' := WithRedeemed(t, chain, sha, e);
    forall k | k in t' ensures !ClosingHits(t'[k], chain, e.initiator, sha(e.secret)) { assert k in t; }
  }

  /** The same for a refund event, by the hash it carries. */
  lemma RefundedOnce(t: Table, chain: string, sha: string -> string, e: Event, id: string)
    requires e.Refunded? && e.signature != "" && id in t
    ensures WithRefunded(t, chain, e).Keys == t.Keys
    ensures var r := t[id];
      WithRefunded(t, chain, e)[id] ==
        if && r.initiateTx != "" && r.redeemTx == "" && r.refundTx == "" && r.chain == chain
           && r.initiator == e.initiator && Lower(Strip0x(r.secretHash)) == Lower(e.secretHash)
        then r.(refundTx := e.signature, refundSlot := e.slot)
        else r
    ensures WithRefunded(WithRefunded(t, chain, e), chain, e) == WithRefunded(t, chain, e)
    ensures forall f: Event ::
      f.Redeemed? && f.initiator == e.initiator && Lower(sha(f.secret)) == Lower(e.secretHash) ==>
      WithRedeemed(WithRefunded(t, chain, e), chain, sha, f) == WithRefunded(t, chain, e)
  {
    var t' := WithRefunded(t, chain, e);
    forall k | k in t' ensures !ClosingHits(t'[k], chain, e.initiator, e.secretHash) { assert k in t; }
  }

  /** The executor's writes touch exactly the one row, if it is of its chain and its
      hash column is empty, and set the columns of that closing and no others; a
      second time they write nothing. */
  lemma RecordsOnce(t: Table, chain: string, id: string, tx: string, secretHex: string, slot: nat, k: string)
    requires tx != "" && k in t
    ensures var a := WithRecordedRedeem(t, chain, id, tx, secretHex, slot);
      && a.Keys == t.Keys && WithRecordedRedeem(a, chain, id, tx, secretHex, slot) == a
      && a[k] == if k == id && t[k].chain == chain && t[k].redeemTx == ""
        then t[k].(redeemTx := tx, redeemSlot := slot, secret := secretHex) else t[k]
    ensures var b := WithRecordedRefund(t, chain, id, tx, slot);
      && b.Keys == t.Keys && WithRecordedRefund(b, chain, id, tx, slot) == b
      && b[k] == if k == id && t[k].chain == chain && t[k].refundTx == ""
        then t[k].(refundTx := tx, refundSlot := slot) else t[k]
  {
  }

  /** A confirmation raises the lower counts of the chain's rows with that initiate
      transaction, and nothing else; the updates counted are the rows changed. */
  lemma ConfirmationRaises(t: Table, chain: string, tx: string, c: int, id: string)
    requires id in t
    ensures WithConfirmation(t, chain, tx, c).Keys == t.Keys
    ensures Hits(t, chain, tx, c) == |set k | k in t && WithConfirmation(t, chain, tx, c)[k] != t[k]|
    ensures var r := t[id];
      WithConfirmation(t, chain, tx, c)[id] ==
        if r.chain == chain && r.initiateTx == tx && r.confirmations < c then r.(confirmations := c) else r
  {
    assert (set k | k in t && WithConfirmation(t, chain, tx, c)[k] != t[k])
        == (set k | k in t && ConfirmationHits(t[k], chain, tx, c));
  }

  // 64 hex digits, written out.
  lemma Hex32Exactly(s: string)
    ensures var clean := if "0x" <= s then s[2..] else s;
      DecodeHex32(s) ==
        if |clean| == 64
          && forall i :: 0 <= i < 64 ==> '0' <= clean[i] <= '9' || 'a' <= clean[i] <= 'f' || 'A' <= clean[i] <= 'F'
        then Some(Lower(clean)) else None
  {
    if "0x" <= s { assert s[..2] == "0x"; } else if |s| >= 2 { assert s[..2] != "0x"; }
  }

  // ------------------------------------------------------------- the shared table

  // The events of a batch whose statement does not throw, of the first n.
  function Surviving(events: seq<Event>, throws: set<nat>): seq<Event> {
    if events == [] then []
    else
      var n := |events| - 1;
      Surviving(events[..n], throws) + if n in throws then [] else [events[n]]
  }

  // How many row updates the confirmation loop makes.
  function ConfirmationUpdates(t: Table, chain: string, txns: seq<(string, int)>): nat {
    if txns == [] then 0
    else
      var n := |txns| - 1;
      ConfirmationUpdates(t, chain, txns[..n])
      + Hits(WithConfirmations(t, chain, txns[..n]), chain, txns[n].0, txns[n].1)
  }

  function Hits(t: Table, chain: string, tx: string, c: int): nat {
    |set id | id in t && ConfirmationHits(t[id], chain, tx, c)|
  }

  class SwapsTable {
    var rows: Table
    const chain: string

    constructor (rows: Table, chain: string)
      ensures this.rows == rows && this.chain == chain
    {
      this.rows, this.chain := rows, chain;
    }

    method HandleInitiated(e: Event) returns (count: nat)
      requires e.Initiated?
      modifies this
      ensures rows == WithInitiated(old(rows), chain, e)
      ensures count == |set id | id in old(rows) && InitiatedHits(old(rows)[id], chain, e)|
    {
      count := |set id | id in rows && InitiatedHits(rows[id], chain, e)|;
      rows := map id | id in rows :: if InitiatedHits(rows[id], chain, e)
        then rows[id].(filled := e.amount, initiateTx := e.signature, initiateSlot := e.slot, confirmations := 1)
        else rows[id];
    }

    method HandleRedeemed(e: Event, sha: string -> string)
      requires e.Redeemed?
      modifies this
      ensures rows == WithRedeemed(old(rows), chain, sha, e)
    {
      var secretHash := sha(e.secret);
      rows := map id | id in rows :: if ClosingHits(rows[id], chain, e.initiator, secretHash)
        then rows[id].(redeemTx := e.signature, redeemSlot := e.slot, secret := e.secret)
        else rows[id];
    }

    method HandleRefunded(e: Event)
      requires e.Refunded?
      modifies this
      ensures rows == WithRefunded(old(rows), chain, e)
    {
      rows := map id | id in rows :: if ClosingHits(rows[id], chain, e.initiator, e.secretHash)
        then rows[id].(refundTx := e.signature, refundSlot := e.slot)
        else rows[id];
    }

    /** A statement that throws is logged, and the loop goes on with the next event. */
    method UpdateEvents(events: seq<Event>, sha: string -> string, throws: set<nat>)
      modifies this
      ensures rows == WithEvents(old(rows), chain, sha, Surviving(events, throws))
    {
      for i := 0 to |events|
        invariant rows == WithEvents(old(rows), chain, sha, Surviving(events[..i], throws))
      {
        OneMoreEvent(events, i, throws);
        var e := events[i];
        if i !in throws {
          match e
          case Initiated(_, _, _, _, _, _, _, _) => var count := HandleInitiated(e);
          case Redeemed(_, _, _, _) => HandleRedeemed(e, sha);
          case Refunded(_, _, _, _) => HandleRefunded(e);
        }
      }
      assert events[..|events|] == events;
    }

    /** `updateConfirmations` and the number of updates it returns. */
    method UpdateConfirmations(txns: seq<(string, int)>) returns (updated: nat)
      modifies this
      ensures rows == WithConfirmations(old(rows), chain, txns)
      ensures updated == ConfirmationUpdates(old(rows), chain, txns)
    {
      updated := 0;
      for i := 0 to |txns|
        invariant rows == WithConfirmations(old(rows), chain, txns[..i])
        invariant updated == ConfirmationUpdates(old(rows), chain, txns[..i])
      {
        assert txns[..i + 1][..i] == txns[..i];
        var r := txns[i];
        updated := updated + |set id | id in rows && ConfirmationHits(rows[id], chain, r.0, r.1)|;
        rows := map id | id in rows :: if ConfirmationHits(rows[id], chain, r.0, r.1)
          then rows[id].(confirmations := r.1) else rows[id];
      }
      assert txns[..|txns|] == txns;
    }

    method RecordRedeem(swapId: string, txHash: string, secretHex: string, slot: nat)
      modifies this
      ensures rows == WithRecordedRedeem(old(rows), chain, swapId, txHash, secretHex, slot)
    {
      if swapId in rows && rows[swapId].chain == chain && rows[swapId].redeemTx == "" {
        rows := rows[swapId := rows[swapId].(redeemTx := txHash, redeemSlot := slot, secret := secretHex)];
      }
    }

    method RecordRefund(swapId: string, txHash: string, slot: nat)
      modifies this
      ensures rows == WithRecordedRefund(old(rows), chain, swapId, txHash, slot)
    {
      if swapId in rows && rows[swapId].chain == chain && rows[swapId].refundTx == "" {
        rows := rows[swapId := rows[swapId].(refundTx := txHash, refundSlot := slot)];
      }
    }
  }

  lemma OneMoreEvent(events: seq<Event>, i: nat, throws: set<nat>)
    requires i < |events|
    ensures var before, after := Surviving(events[..i], throws), Surviving(events[..i + 1], throws);
      && (i in throws ==> after == before)
      && (i !in throws ==> after != [] && after[..|after| - 1] == before && after[|after| - 1] == events[i])
  {
    assert events[..i + 1][..i] == events[..i];
  }
}

/** The Solana watcher, the executor's two pollers and its manual endpoint, and
    the on-chain program, as one state machine over the shared rows
    (solana-watcher/src/watcher.ts, solana-executor/src/main.ts, server.ts). */
module SolanaProtocol {
  import opened Common
  import opened SolanaRows

  // ------------------------------------------------------------------- state

  // The program keeps one swap account per initiator and secret hash. It opens
  // once and closes once, by a redeem or by a refund: the one assumption made.
  datatype Key = Key(initiator: string, hash: string)
  datatype Htlc = Open | Taken(signature: string, secret: string) | Returned(signature: string)

  // An executor task between reading the rows and submitting, and the outcome
  // it still has to record.
  datatype Job = Job(id: string, key: Key, secret: string)
  datatype Receipt = Receipt(id: string, signature: string, secret: string)

  datatype State = State(
    rows: Table, htlcs: map<Key, Htlc>, ledger: seq<Event>,
    redeemJobs: set<Job>, redeemReceipts: set<Receipt>, refundJobs: set<Job>, refundReceipts: set<Receipt>)

  datatype Env = Env(chain: string, filler: string, sha: string -> string)

  function KeyOf(r: Row): Key { Key(r.initiator, Normal(r.secretHash)) }

  // --------------------------------------------------------------- transitions

  datatype Step =
    | CustomerInitiates(e: Event)
    | AnyoneRedeems(initiator: string, secret: string, signature: string, slot: nat)
    | AnyoneRefunds(key: Key, signature: string, slot: nat)
    | WatcherApplies(i: nat)
    | WatcherConfirms(tx: string, count: int)
    | PollerReadsRedeem(id: string, destination: string)
    | EndpointReadsRedeem(id: string, secret: string)
    | ExecutorSubmitsRedeem(job: Job, signature: string, slot: nat)
    | ExecutorRecordsRedeem(receipt: Receipt, slot: nat)
    | PollerReadsRefund(id: string, now: int)
    | ExecutorSubmitsRefund(job: Job, signature: string, slot: nat)
    | ExecutorRecordsRefund(receipt: Receipt, slot: nat)
    | ExecutorFails(redeems: set<Job>, refunds: set<Job>, redeemReceipts: set<Receipt>, refundReceipts: set<Receipt>)

  // The program accepts a redeem of an open account by the preimage of its hash.
  predicate CanRedeem(s: State, key: Key, secret: string, signature: string, env: Env) {
    key in s.htlcs && s.htlcs[key].Open? && Lower(env.sha(secret)) == key.hash && signature != ""
  }

  predicate CanRefund(s: State, key: Key, signature: string) {
    key in s.htlcs && s.htlcs[key].Open? && signature != ""
  }

  function OnChainRedeem(s: State, key: Key, secret: string, signature: string, slot: nat): State {
    s.(htlcs := s.htlcs[key := Taken(signature, secret)],
       ledger := s.ledger + [Redeemed(signature, slot, key.initiator, secret)])
  }

  function OnChainRefund(s: State, key: Key, signature: string, slot: nat): State {
    s.(htlcs := s.htlcs[key := Returned(signature)],
       ledger := s.ledger + [Refunded(signature, slot, key.initiator, key.hash)])
  }

  // The checks of the redeem poller and of POST /secret before submitting.
  function RedeemJob(s: State, id: string, secret: string, env: Env): Option<Job> {
    if id !in s.rows then None
    else
      match (DecodeHex32(secret), DecodeHex32(s.rows[id].secretHash))
      case (Some(bytes), Some(stored)) =>
        if Lower(env.sha(bytes)) == stored then Some(Job(id, Key(s.rows[id].initiator, stored), bytes)) else None
      case _ => None
  }

  function WithRedeemJob(s: State, job: Option<Job>): State {
    if job.Some? then s.(redeemJobs := s.redeemJobs + {job.value}) else s
  }

  function Next(s: State, step: Step, env: Env): State {
    match step
    case CustomerInitiates(e) =>
      if !e.Initiated? || e.signature == "" || Key(e.initiator, Lower(e.secretHash)) in s.htlcs then s
      else s.(htlcs := s.htlcs[Key(e.initiator, Lower(e.secretHash)) := Open], ledger := s.ledger + [e])
    case AnyoneRedeems(initiator, secret, signature, slot) =>
      var key := Key(initiator, Lower(env.sha(secret)));
      if CanRedeem(s, key, secret, signature, env) then OnChainRedeem(s, key, secret, signature, slot) else s
    case AnyoneRefunds(key, signature, slot) =>
      if CanRefund(s, key, signature) then OnChainRefund(s, key, signature, slot) else s
    case WatcherApplies(i) =>
      if i < |s.ledger| then s.(rows := WithEvent(s.rows, env.chain, env.sha, s.ledger[i])) else s
    case WatcherConfirms(tx, count) =>
      if tx != "" then s.(rows := WithConfirmation(s.rows, env.chain, tx, count)) else s
    case PollerReadsRedeem(id, destination) =>
      if id in s.rows && destination in s.rows
         && PendingRedeem(s.rows[id], env.chain, env.filler) && RevealsSecret(s.rows[destination])
      then WithRedeemJob(s, RedeemJob(s, id, s.rows[destination].secret, env)) else s
    case EndpointReadsRedeem(id, secret) =>
      if id in s.rows && PendingRedeem(s.rows[id], env.chain, s.rows[id].redeemer)
      then WithRedeemJob(s, RedeemJob(s, id, secret, env)) else s
    case ExecutorSubmitsRedeem(job, signature, slot) =>
      if job !in s.redeemJobs then s
      else
        var s' := s.(redeemJobs := s.redeemJobs - {job});
        if CanRedeem(s, job.key, job.secret, signature, env)
        then OnChainRedeem(s', job.key, job.secret, signature, slot)
             .(redeemReceipts := s.redeemReceipts + {Receipt(job.id, signature, job.secret)})
        else s'
    case ExecutorRecordsRedeem(receipt, slot) =>
      if receipt !in s.redeemReceipts then s
      else s.(rows := WithRecordedRedeem(s.rows, env.chain, receipt.id, receipt.signature, receipt.secret, slot),
              redeemReceipts := s.redeemReceipts - {receipt})
    case PollerReadsRefund(id, now) =>
      if id in s.rows && PendingRefund(s.rows[id], env.chain, env.filler, now)
        && DecodeHex32(s.rows[id].secretHash).Some?
      then s.(refundJobs := s.refundJobs
                + {Job(id, Key(s.rows[id].initiator, DecodeHex32(s.rows[id].secretHash).value), "")})
      else s
    case ExecutorSubmitsRefund(job, signature, slot) =>
      if job !in s.refundJobs then s
      else
        var s' := s.(refundJobs := s.refundJobs - {job});
        if CanRefund(s, job.key, signature)
        then OnChainRefund(s', job.key, signature, slot)
             .(refundReceipts := s.refundReceipts + {Receipt(job.id, signature, "")})
        else s'
    case ExecutorRecordsRefund(receipt, slot) =>
      if receipt !in s.refundReceipts then s
      else s.(rows := WithRecordedRefund(s.rows, env.chain, receipt.id, receipt.signature, slot),
              refundReceipts := s.refundReceipts - {receipt})
    case ExecutorFails(redeems, refunds, a, b) =>
      s.(redeemJobs := s.redeemJobs - redeems, refundJobs := s.refundJobs - refunds,
         redeemReceipts := s.redeemReceipts - a, refundReceipts := s.refundReceipts - b)
  }

  function Run(s: State, steps: seq<Step>, env: Env): State {
    if steps == [] then s else Next(Run(s, steps[..|steps| - 1], env), steps[|steps| - 1], env)
  }

  // ----------------------------------------------------------- what the tasks do

  /** When exactly a row becomes a redeem task: for the poller, an open initiated row
      of the chain with the executor's key as redeemer, whose destination row is
      initiated, redeemed, not refunded and shows a secret; for the endpoint, any
      open initiated row of the chain; and the secret must hash to the row's hash. */
  lemma RedeemReadExactly(s: State, id: string, destination: string, secret: string, env: Env)
    requires id in s.rows && destination in s.rows
    ensures var r, d := s.rows[id], s.rows[destination];
      var bytes, stored := DecodeHex32(d.secret), DecodeHex32(r.secretHash);
      Next(s, PollerReadsRedeem(id, destination), env) ==
        if && r.chain == env.chain && r.redeemer == env.filler
           && r.initiateTx != "" && r.redeemTx == "" && r.refundTx == ""
           && d.initiateTx != "" && d.redeemTx != "" && d.refundTx == "" && d.secret != ""
           && bytes.Some? && stored.Some? && Lower(env.sha(bytes.value)) == stored.value
        then s.(redeemJobs := s.redeemJobs + {Job(id, Key(r.initiator, stored.value), bytes.value)})
        else s
    ensures var r := s.rows[id];
      var bytes, stored := DecodeHex32(secret), DecodeHex32(r.secretHash);
      Next(s, EndpointReadsRedeem(id, secret), env) ==
        if && r.chain == env.chain && r.initiateTx != "" && r.redeemTx == "" && r.refundTx == ""
           && bytes.Some? && stored.Some? && Lower(env.sha(bytes.value)) == stored.value
        then s.(redeemJobs := s.redeemJobs + {Job(id, Key(r.initiator, stored.value), bytes.value)})
        else s
  {
  }

  /** And a refund task: an open initiated row of the chain with the executor's key
      as redeemer, strictly past its timelock, whose hash is 64 hex digits. */
  lemma RefundReadExactly(s: State, id: string, now: int, env: Env)
    requires id in s.rows
    ensures var r := s.rows[id];
      var stored := DecodeHex32(r.secretHash);
      Next(s, PollerReadsRefund(id, now), env) ==
        if && r.chain == env.chain && r.redeemer == env.filler
           && r.initiateTx != "" && r.redeemTx == "" && r.refundTx == "" && r.timelock < now && stored.Some?
        then s.(refundJobs := s.refundJobs + {Job(id, Key(r.initiator, stored.value), "")})
        else s
  {
  }

  /** A redeem task whose account is open, submitted and recorded, closes the account
      and the row with the secret. */
  lemma RedeemCompletes(s: State, job: Job, signature: string, slot: nat, env: Env)
    requires job in s.redeemJobs && job.id in s.rows && s.rows[job.id].chain == env.chain
    requires s.rows[job.id].redeemTx == "" && signature != ""
    requires job.key in s.htlcs && s.htlcs[job.key] == Open && Lower(env.sha(job.secret)) == job.key.hash
    ensures var submitted := Next(s, ExecutorSubmitsRedeem(job, signature, slot), env);
      var recorded := Next(submitted, ExecutorRecordsRedeem(Receipt(job.id, signature, job.secret), slot), env);
      && recorded.htlcs == s.htlcs[job.key := Taken(signature, job.secret)] && job !in recorded.redeemJobs
      && recorded.ledger == s.ledger + [Redeemed(signature, slot, job.key.initiator, job.secret)]
      && recorded.rows ==
        s.rows[job.id := s.rows[job.id].(redeemTx := signature, redeemSlot := slot, secret := job.secret)]
  {
  }

  /** The same for a refund task. */
  lemma RefundCompletes(s: State, job: Job, signature: string, slot: nat, env: Env)
    requires job in s.refundJobs && job.id in s.rows && s.rows[job.id].chain == env.chain
    requires s.rows[job.id].refundTx == "" && signature != ""
    requires job.key in s.htlcs && s.htlcs[job.key] == Open
    ensures var submitted := Next(s, ExecutorSubmitsRefund(job, signature, slot), env);
      var recorded := Next(submitted, ExecutorRecordsRefund(Receipt(job.id, signature, ""), slot), env);
      && recorded.htlcs == s.htlcs[job.key := Returned(signature)] && job !in recorded.refundJobs
      && recorded.ledger == s.ledger + [Refunded(signature, slot, job.key.initiator, job.key.hash)]
      && recorded.rows == s.rows[job.id := s.rows[job.id].(refundTx := signature, refundSlot := slot)]
  {
  }

  // ---------------------------------------------------------------- invariant

  ghost predicate RowOk(r: Row, htlcs: map<Key, Htlc>, env: Env) {
    r.chain == env.chain ==>
      && (r.initiateTx == "" ==> r.redeemTx == "" && r.refundTx == "" && r.confirmations <= 1)
      && (r.initiateTx != "" ==> KeyOf(r) in htlcs)
      && (r.redeemTx != "" ==> KeyOf(r) in htlcs && htlcs[KeyOf(r)] == Taken(r.redeemTx, r.secret))
      && (r.refundTx != "" ==> KeyOf(r) in htlcs && htlcs[KeyOf(r)] == Returned(r.refundTx))
  }

  ghost predicate HtlcOk(key: Key, h: Htlc, env: Env) {
    Lower(key.hash) == key.hash &&
    match h
    case Open => true
    case Taken(signature, secret) => signature != "" && Lower(env.sha(secret)) == key.hash
    case Returned(signature) => signature != ""
  }

  ghost predicate EventOk(e: Event, htlcs: map<Key, Htlc>, env: Env) {
    match e
    case Initiated(signature, _, initiator, _, _, _, _, hash) => signature != "" && Key(initiator, Lower(hash)) in htlcs
    case Redeemed(signature, _, initiator, secret) =>
      var key := Key(initiator, Lower(env.sha(secret)));
      key in htlcs && htlcs[key] == Taken(signature, secret)
    case Refunded(signature, _, initiator, hash) =>
      var key := Key(initiator, Lower(hash));
      key in htlcs && htlcs[key] == Returned(signature)
  }

  // A task concerns an initiated row of this chain, and names its account.
  ghost predicate JobOk(j: Job, rows: Table, env: Env) {
    j.id in rows && rows[j.id].chain == env.chain && rows[j.id].initiateTx != "" && KeyOf(rows[j.id]) == j.key
  }

  ghost predicate RedeemReceiptOk(p: Receipt, rows: Table, htlcs: map<Key, Htlc>, env: Env) {
    && p.id in rows && rows[p.id].chain == env.chain && rows[p.id].initiateTx != ""
    && KeyOf(rows[p.id]) in htlcs && htlcs[KeyOf(rows[p.id])] == Taken(p.signature, p.secret) && p.signature != ""
  }

  ghost predicate RefundReceiptOk(p: Receipt, rows: Table, htlcs: map<Key, Htlc>, env: Env) {
    && p.id in rows && rows[p.id].chain == env.chain && rows[p.id].initiateTx != ""
    && KeyOf(rows[p.id]) in htlcs && htlcs[KeyOf(rows[p.id])] == Returned(p.signature) && p.signature != ""
  }

  ghost predicate RowsOk(rows: Table, htlcs: map<Key, Htlc>, env: Env) {
    forall id :: id in rows ==> RowOk(rows[id], htlcs, env)
  }

  ghost predicate ChainOk(htlcs: map<Key, Htlc>, ledger: seq<Event>, env: Env) {
    && (forall k :: k in htlcs ==> HtlcOk(k, htlcs[k], env))
    && (forall i :: 0 <= i < |ledger| ==> EventOk(ledger[i], htlcs, env))
  }

  ghost predicate TasksOk(s: State, env: Env) {
    && (forall j :: j in s.redeemJobs ==> JobOk(j, s.rows, env) && Lower(env.sha(j.secret)) == j.key.hash)
    && (forall j :: j in s.refundJobs ==> JobOk(j, s.rows, env))
    && (forall p :: p in s.redeemReceipts ==> RedeemReceiptOk(p, s.rows, s.htlcs, env))
    && (forall p :: p in s.refundReceipts ==> RefundReceiptOk(p, s.rows, s.htlcs, env))
  }

  ghost predicate Inv(s: State, env: Env) {
    RowsOk(s.rows, s.htlcs, env) && ChainOk(s.htlcs, s.ledger, env) && TasksOk(s, env)
  }

  // What any step may do to one row.
  ghost predicate Advances(r: Row, r': Row) {
    && r'.chain == r.chain && KeyOf(r') == KeyOf(r)
    && (r.initiateTx != "" ==> r'.initiateTx == r.initiateTx)
    && (r.redeemTx != "" ==> r'.redeemTx == r.redeemTx && r'.secret == r.secret)
    && (r.refundTx != "" ==> r'.refundTx == r.refundTx)
    && r.confirmations <= r'.confirmations
  }

  ghost predicate TableAdvances(t: Table, t': Table) {
    t'.Keys == t.Keys && forall id :: id in t ==> Advances(t[id], t'[id])
  }

  // Accounts open once and close once.
  ghost predicate HtlcsGrow(h: map<Key, Htlc>, h': map<Key, Htlc>) {
    forall k :: k in h ==> k in h' && (!h[k].Open? ==> h'[k] == h[k])
  }

  // ------------------------------------------------------------- preservation

  lemma ChainGrows(s: State, h: map<Key, Htlc>, env: Env)
    requires Inv(s, env) && HtlcsGrow(s.htlcs, h)
    ensures RowsOk(s.rows, h, env) && TasksOk(s.(htlcs := h), env)
    ensures forall i :: 0 <= i < |s.ledger| ==> EventOk(s.ledger[i], h, env)
  {
    forall id | id in s.rows ensures RowOk(s.rows[id], h, env) {
      assert RowOk(s.rows[id], s.htlcs, env);
    }
    forall i | 0 <= i < |s.ledger| ensures EventOk(s.ledger[i], h, env) {
      assert EventOk(s.ledger[i], s.htlcs, env);
    }
  }

  lemma OpeningKeepsInv(s: State, e: Event, env: Env)
    requires Inv(s, env) && e.Initiated? && e.signature != "" && Key(e.initiator, Lower(e.secretHash)) !in s.htlcs
    ensures Inv(s.(htlcs := s.htlcs[Key(e.initiator, Lower(e.secretHash)) := Open], ledger := s.ledger + [e]), env)
  {
    LowerIdempotent(e.secretHash);
    ChainGrows(s, s.htlcs[Key(e.initiator, Lower(e.secretHash)) := Open], env);
  }

  lemma RedeemKeepsInv(s: State, key: Key, secret: string, signature: string, slot: nat, env: Env)
    requires Inv(s, env) && CanRedeem(s, key, secret, signature, env)
    ensures Inv(OnChainRedeem(s, key, secret, signature, slot), env)
  {
    ChainGrows(s, s.htlcs[key := Taken(signature, secret)], env);
  }

  lemma RefundKeepsInv(s: State, key: Key, signature: string, slot: nat, env: Env)
    requires Inv(s, env) && CanRefund(s, key, signature)
    ensures Inv(OnChainRefund(s, key, signature, slot), env)
  {
    ChainGrows(s, s.htlcs[key := Returned(signature)], env);
  }

  // A change of rows that only advances them keeps everything else true.
  lemma RowsChange(s: State, rows: Table, env: Env)
    requires Inv(s, env) && TableAdvances(s.rows, rows) && RowsOk(rows, s.htlcs, env)
    ensures Inv(s.(rows := rows), env)
  {
  }

  lemma EventAdvances(r: Row, id: string, t: Table, htlcs: map<Key, Htlc>, e: Event, env: Env)
    requires id in t && r == t[id] && RowOk(r, htlcs, env) && EventOk(e, htlcs, env)
    requires forall k :: k in htlcs ==> HtlcOk(k, htlcs[k], env)
    ensures var r' := WithEvent(t, env.chain, env.sha, e)[id]; Advances(r, r') && RowOk(r', htlcs, env)
  {
  }

  lemma ApplyKeepsInv(s: State, e: Event, env: Env)
    requires Inv(s, env) && EventOk(e, s.htlcs, env)
    ensures Inv(s.(rows := WithEvent(s.rows, env.chain, env.sha, e)), env)
    ensures TableAdvances(s.rows, WithEvent(s.rows, env.chain, env.sha, e))
  {
    var rows := WithEvent(s.rows, env.chain, env.sha, e);
    assert rows.Keys == s.rows.Keys;
    forall id | id in s.rows ensures Advances(s.rows[id], rows[id]) && RowOk(rows[id], s.htlcs, env) {
      EventAdvances(s.rows[id], id, s.rows, s.htlcs, e, env);
    }
    RowsChange(s, rows, env);
  }

  lemma ConfirmKeepsInv(s: State, tx: string, c: int, env: Env)
    requires Inv(s, env) && tx != ""
    ensures Inv(s.(rows := WithConfirmation(s.rows, env.chain, tx, c)), env)
    ensures TableAdvances(s.rows, WithConfirmation(s.rows, env.chain, tx, c))
  {
    var rows := WithConfirmation(s.rows, env.chain, tx, c);
    assert rows.Keys == s.rows.Keys;
    forall id | id in s.rows ensures Advances(s.rows[id], rows[id]) && RowOk(rows[id], s.htlcs, env) {
      assert RowOk(s.rows[id], s.htlcs, env);
    }
    RowsChange(s, rows, env);
  }

  lemma RecordRedeemKeepsInv(s: State, p: Receipt, slot: nat, env: Env)
    requires Inv(s, env) && p in s.redeemReceipts
    ensures var rows := WithRecordedRedeem(s.rows, env.chain, p.id, p.signature, p.secret, slot);
      Inv(s.(rows := rows), env) && TableAdvances(s.rows, rows)
  {
    var rows := WithRecordedRedeem(s.rows, env.chain, p.id, p.signature, p.secret, slot);
    assert RedeemReceiptOk(p, s.rows, s.htlcs, env);
    assert rows.Keys == s.rows.Keys;
    forall id | id in s.rows ensures Advances(s.rows[id], rows[id]) && RowOk(rows[id], s.htlcs, env) {
      assert RowOk(s.rows[id], s.htlcs, env);
    }
    RowsChange(s, rows, env);
  }

  lemma RecordRefundKeepsInv(s: State, p: Receipt, slot: nat, env: Env)
    requires Inv(s, env) && p in s.refundReceipts
    ensures var rows := WithRecordedRefund(s.rows, env.chain, p.id, p.signature, slot);
      Inv(s.(rows := rows), env) && TableAdvances(s.rows, rows)
  {
    var rows := WithRecordedRefund(s.rows, env.chain, p.id, p.signature, slot);
    assert RefundReceiptOk(p, s.rows, s.htlcs, env);
    assert rows.Keys == s.rows.Keys;
    forall id | id in s.rows ensures Advances(s.rows[id], rows[id]) && RowOk(rows[id], s.htlcs, env) {
      assert RowOk(s.rows[id], s.htlcs, env);
    }
    RowsChange(s, rows, env);
  }

  lemma ReadKeepsInv(s: State, id: string, secret: string, env: Env)
    requires Inv(s, env) && id in s.rows && s.rows[id].chain == env.chain && s.rows[id].initiateTx != ""
    ensures Inv(WithRedeemJob(s, RedeemJob(s, id, secret, env)), env)
  {
  }

  lemma ReadRefundKeepsInv(s: State, id: string, now: int, env: Env)
    requires Inv(s, env)
    ensures var s' := Next(s, PollerReadsRefund(id, now), env); Inv(s', env) && s'.rows == s.rows
  {
  }

  lemma SubmitRedeemKeepsInv(s: State, job: Job, signature: string, slot: nat, env: Env)
    requires Inv(s, env)
    ensures var s' := Next(s, ExecutorSubmitsRedeem(job, signature, slot), env); Inv(s', env) && s'.rows == s.rows
  {
    if job in s.redeemJobs && CanRedeem(s, job.key, job.secret, signature, env) {
      assert JobOk(job, s.rows, env);
      RedeemKeepsInv(s, job.key, job.secret, signature, slot, env);
    }
  }

  lemma SubmitRefundKeepsInv(s: State, job: Job, signature: string, slot: nat, env: Env)
    requires Inv(s, env)
    ensures var s' := Next(s, ExecutorSubmitsRefund(job, signature, slot), env); Inv(s', env) && s'.rows == s.rows
  {
    if job in s.refundJobs && CanRefund(s, job.key, signature) {
      assert JobOk(job, s.rows, env);
      RefundKeepsInv(s, job.key, signature, slot, env);
    }
  }

  lemma ChainStep(s: State, step: Step, env: Env)
    requires Inv(s, env) && (step.CustomerInitiates? || step.AnyoneRedeems? || step.AnyoneRefunds?)
    ensures Inv(Next(s, step, env), env) && Next(s, step, env).rows == s.rows
  {
    match step
    case CustomerInitiates(e) =>
      if e.Initiated? && e.signature != "" && Key(e.initiator, Lower(e.secretHash)) !in s.htlcs {
        OpeningKeepsInv(s, e, env);
      }
    case AnyoneRedeems(initiator, secret, signature, slot) =>
      var key := Key(initiator, Lower(env.sha(secret)));
      if CanRedeem(s, key, secret, signature, env) { RedeemKeepsInv(s, key, secret, signature, slot, env); }
    case AnyoneRefunds(key, signature, slot) =>
      if CanRefund(s, key, signature) { RefundKeepsInv(s, key, signature, slot, env); }
  }

  lemma ReadStep(s: State, step: Step, env: Env)
    requires Inv(s, env) && (step.PollerReadsRedeem? || step.EndpointReadsRedeem?)
    ensures Inv(Next(s, step, env), env) && Next(s, step, env).rows == s.rows
  {
    match step
    case PollerReadsRedeem(id, destination) =>
      if id in s.rows && destination in s.rows && PendingRedeem(s.rows[id], env.chain, env.filler) {
        ReadKeepsInv(s, id, s.rows[destination].secret, env);
      }
    case EndpointReadsRedeem(id, secret) =>
      if id in s.rows && PendingRedeem(s.rows[id], env.chain, s.rows[id].redeemer) { ReadKeepsInv(s, id, secret, env); }
  }

  lemma FewerTasks(s: State, a: set<Job>, b: set<Job>, c: set<Receipt>, d: set<Receipt>, env: Env)
    requires Inv(s, env)
    ensures Inv(s.(redeemJobs := s.redeemJobs - a, refundJobs := s.refundJobs - b,
                   redeemReceipts := s.redeemReceipts - c, refundReceipts := s.refundReceipts - d), env)
  {
  }

  lemma WatcherStep(s: State, step: Step, env: Env)
    requires Inv(s, env) && (step.WatcherApplies? || step.WatcherConfirms?)
    ensures Inv(Next(s, step, env), env) && TableAdvances(s.rows, Next(s, step, env).rows)
  {
    match step
    case WatcherApplies(i) =>
      if 0 <= i < |s.ledger| { ApplyKeepsInv(s, s.ledger[i], env); }
    case WatcherConfirms(tx, count) =>
      if tx != "" { ConfirmKeepsInv(s, tx, count, env); }
  }

  lemma RecordedRedeemStep(s: State, p: Receipt, slot: nat, env: Env)
    requires Inv(s, env)
    ensures var s' := Next(s, ExecutorRecordsRedeem(p, slot), env); Inv(s', env) && TableAdvances(s.rows, s'.rows)
  {
    if p in s.redeemReceipts {
      RecordRedeemKeepsInv(s, p, slot, env);
      var rows := WithRecordedRedeem(s.rows, env.chain, p.id, p.signature, p.secret, slot);
      FewerTasks(s.(rows := rows), {}, {}, {p}, {}, env);
      assert Next(s, ExecutorRecordsRedeem(p, slot), env) == s.(rows := rows, redeemReceipts := s.redeemReceipts - {p});
    }
  }

  lemma RecordedRefundStep(s: State, p: Receipt, slot: nat, env: Env)
    requires Inv(s, env)
    ensures var s' := Next(s, ExecutorRecordsRefund(p, slot), env); Inv(s', env) && TableAdvances(s.rows, s'.rows)
  {
    if p in s.refundReceipts {
      RecordRefundKeepsInv(s, p, slot, env);
      var rows := WithRecordedRefund(s.rows, env.chain, p.id, p.signature, slot);
      FewerTasks(s.(rows := rows), {}, {}, {}, {p}, env);
      assert Next(s, ExecutorRecordsRefund(p, slot), env) == s.(rows := rows, refundReceipts := s.refundReceipts - {p});
    }
  }

  /** Every step of every participant keeps the invariant and only advances rows. */
  lemma StepSafe(s: State, step: Step, env: Env)
    requires Inv(s, env)
    ensures Inv(Next(s, step, env), env) && TableAdvances(s.rows, Next(s, step, env).rows)
  {
    match step
    case CustomerInitiates(_) => ChainStep(s, step, env);
    case AnyoneRedeems(_, _, _, _) => ChainStep(s, step, env);
    case AnyoneRefunds(_, _, _) => ChainStep(s, step, env);
    case WatcherApplies(_) => WatcherStep(s, step, env);
    case WatcherConfirms(_, _) => WatcherStep(s, step, env);
    case PollerReadsRedeem(_, _) => ReadStep(s, step, env);
    case EndpointReadsRedeem(_, _) => ReadStep(s, step, env);
    case ExecutorSubmitsRedeem(job, signature, slot) => SubmitRedeemKeepsInv(s, job, signature, slot, env);
    case ExecutorRecordsRedeem(p, slot) => RecordedRedeemStep(s, p, slot, env);
    case PollerReadsRefund(id, now) => ReadRefundKeepsInv(s, id, now, env);
    case ExecutorSubmitsRefund(job, signature, slot) => SubmitRefundKeepsInv(s, job, signature, slot, env);
    case ExecutorRecordsRefund(p, slot) => RecordedRefundStep(s, p, slot, env);
    case ExecutorFails(a, b, c, d) => FewerTasks(s, a, b, c, d, env);
  }

  // ------------------------------------------------------------- over all runs

  // Freshly created rows, nothing on chain, no task under way.
  ghost predicate Initial(s: State, env: Env) {
    && s.htlcs == map[] && s.ledger == [] && s.redeemJobs == {} && s.refundJobs == {}
    && s.redeemReceipts == {} && s.refundReceipts == {}
    && forall id :: id in s.rows && s.rows[id].chain == env.chain ==>
         s.rows[id].initiateTx == "" && s.rows[id].redeemTx == "" && s.rows[id].refundTx == ""
           && s.rows[id].confirmations == 0
  }

  // What a reader of the table can rely on.
  ghost predicate Safe(r: Row, env: Env) {
    && (r.redeemTx != "" || r.refundTx != "" ==> r.initiateTx != "")
    && !(r.redeemTx != "" && r.refundTx != "")
    && (r.redeemTx != "" ==> Lower(env.sha(r.secret)) == Lower(Strip0x(r.secretHash)))
  }

  /** In every reachable state each row of the chain is safe: closed only after it
      was opened, never both redeemed and refunded, redeemed by its preimage. */
  lemma {:induction false} AlwaysSafe(s: State, steps: seq<Step>, env: Env, id: string)
    requires Initial(s, env) && id in s.rows && s.rows[id].chain == env.chain
    ensures var s' := Run(s, steps, env); id in s'.rows && s'.rows[id].chain == env.chain && Safe(s'.rows[id], env)
  {
    RunKeepsInv(s, steps, env);
    var s' := Run(s, steps, env);
    RunAdvances(s, [], steps, env);
    assert [] + steps == steps;
    assert RowOk(s'.rows[id], s'.htlcs, env);
    assert s'.rows[id].redeemTx != "" ==> HtlcOk(KeyOf(s'.rows[id]), s'.htlcs[KeyOf(s'.rows[id])], env);
  }

  lemma {:induction false} RunKeepsInv(s: State, steps: seq<Step>, env: Env)
    requires Initial(s, env)
    ensures Inv(Run(s, steps, env), env)
    decreases |steps|
  {
    if steps != [] {
      RunKeepsInv(s, steps[..|steps| - 1], env);
      StepSafe(Run(s, steps[..|steps| - 1], env), steps[|steps| - 1], env);
    }
  }

  /** Whatever happens after a moment, each row only advances from it: its
      transaction hashes stay as first written and confirmations never fall. */
  lemma {:induction false} RunAdvances(s: State, before: seq<Step>, after: seq<Step>, env: Env)
    requires Initial(s, env)
    ensures TableAdvances(Run(s, before, env).rows, Run(s, before + after, env).rows)
    decreases |after|
  {
    if after == [] {
      assert before + after == before;
    } else {
      var n := |after| - 1;
      assert (before + after)[..|before + after| - 1] == before + after[..n];
      RunAdvances(s, before, after[..n], env);
      RunKeepsInv(s, before + after[..n], env);
      StepSafe(Run(s, before + after[..n], env), after[n], env);
    }
  }
}

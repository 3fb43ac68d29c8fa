/** initia-fe/src/lib/withdrawal-tracker.ts: the records of withdrawals and the
    status machine that polling drives. */
module WithdrawalTracker {
  import opened Common
  import Durations

  datatype Status = Pending | Proven | Finalized | Failed

  datatype Record = Record(
    l2TxHash: string, l2Sequence: Option<string>, l2Height: Option<string>, bridgeId: Option<string>,
    outputIndex: Option<string>, outputProposedAt: Option<int>, finalizationPeriodMs: Option<real>, status: Status,
    l1FinalizedAt: Option<int>, l1TxHash: Option<string>, lastError: Option<string>)

  // An absent key leaves the field alone; a present one may hold undefined.
  datatype Patch = Patch(
    l2Sequence: Option<string>, l2Height: Option<Option<string>>, bridgeId: Option<string>,
    outputIndex: Option<string>, outputProposedAt: Option<int>, finalizationPeriodMs: Option<real>,
    status: Option<Status>, l1FinalizedAt: Option<int>, l1TxHash: Option<string>, lastError: Option<Option<string>>)

  const EMPTY := Patch(None, None, None, None, None, None, None, None, None, None)

  function Over<T>(patch: Option<T>, field: Option<T>): Option<T> { if patch.Some? then patch else field }

  // `{ ...r, ...patch }`
  function Apply(r: Record, p: Patch): Record {
    r.(l2Sequence := Over(p.l2Sequence, r.l2Sequence),
       l2Height := if p.l2Height.Some? then p.l2Height.value else r.l2Height,
       bridgeId := Over(p.bridgeId, r.bridgeId),
       outputIndex := Over(p.outputIndex, r.outputIndex),
       outputProposedAt := Over(p.outputProposedAt, r.outputProposedAt),
       finalizationPeriodMs := Over(p.finalizationPeriodMs, r.finalizationPeriodMs),
       status := if p.status.Some? then p.status.value else r.status,
       l1FinalizedAt := Over(p.l1FinalizedAt, r.l1FinalizedAt),
       l1TxHash := Over(p.l1TxHash, r.l1TxHash),
       lastError := if p.lastError.Some? then p.lastError.value else r.lastError)
  }

  // JavaScript truth: undefined, the empty string and zero are false.
  predicate Text(s: Option<string>) { s.Some? && s.value != "" }
  predicate Number(n: Option<int>) { n.Some? && n.value != 0 }
  predicate Period(n: Option<real>) { n.Some? && n.value != 0.0 }

  // ------------------------------------------------------------- the answers

  datatype Fetch<T> = Fails(message: string) | Body(value: T)

  datatype Info = Info(height: Option<string>, sequence: Option<string>)

  /** What the services answer in one `advance`: the rollup transaction, the
      executor's bridge and output numbers, the bridge's period text, the
      output's L1 time if it parses, the L1 transaction found, and the clock
      at the two places that read it. */
  datatype Answers = Answers(
    info: Fetch<Info>, executor: Option<(int, int)>, period: Fetch<Option<string>>, proposedAt: Fetch<Option<int>>,
    l1Tx: Option<string>, now: int, later: int)

  // String(n)
  function DecimalText(n: int): (r: string)
    ensures r != ""
    decreases if n < 0 then 1 - n else n
  {
    if n < 0 then "-" + DecimalText(-n)
    else if n < 10 then [('0' as int + n) as char]
    else DecimalText(n / 10) + [('0' as int + n % 10) as char]
  }

  // `fetchFinalizationPeriodMs`
  function PeriodOf(text: Option<string>): Option<real> {
    match Durations.ParseDurationSeconds(text)
    case None => None
    case Some(seconds) => Some(seconds * 1000.0)
  }

  // -------------------------------------- what one advance learns and decides

  function Sequence(r: Record, a: Answers): Option<string> {
    if Text(r.l2Sequence) then r.l2Sequence else if a.info.Body? then a.info.value.sequence else None
  }

  predicate HasIds(r: Record) { Text(r.bridgeId) && Text(r.outputIndex) }

  // Whether this advance takes the identifiers from the executor.
  predicate Proves(r: Record, a: Answers) { Text(Sequence(r, a)) && !HasIds(r) && a.executor.Some? }

  predicate Located(r: Record, a: Answers) { Text(Sequence(r, a)) && (HasIds(r) || a.executor.Some?) }

  function PeriodAfter(r: Record, a: Answers): Option<real> {
    if Period(r.finalizationPeriodMs) || a.period.Fails? then r.finalizationPeriodMs
    else Over(PeriodOf(a.period.value), r.finalizationPeriodMs)
  }

  function ProposedAfter(r: Record, a: Answers): Option<int> {
    if Number(r.outputProposedAt) || a.proposedAt.Fails? then r.outputProposedAt
    else Over(a.proposedAt.value, r.outputProposedAt)
  }

  predicate Elapsed(proposed: Option<int>, period: Option<real>, now: int) {
    Number(proposed) && Period(period) && now as real >= proposed.value as real + period.value
  }

  predicate TimeElapsed(r: Record, a: Answers) { Elapsed(ProposedAfter(r, a), PeriodAfter(r, a), a.now) }

  predicate FindsL1(r: Record, a: Answers) {
    !Text(r.l1TxHash) && (TimeElapsed(r, a) || r.status.Proven? || r.status.Finalized?) && Text(a.l1Tx)
  }

  // The first service whose failure is thrown.
  function Thrown(r: Record, a: Answers): Option<string> {
    if !Text(r.l2Sequence) && a.info.Fails? then Some(a.info.message)
    else if !Located(r, a) then None
    else if !Period(r.finalizationPeriodMs) && a.period.Fails? then Some(a.period.message)
    else if !Number(r.outputProposedAt) && a.proposedAt.Fails? then Some(a.proposedAt.message)
    else None
  }

  // Whether this advance declares the withdrawal finalized.
  predicate Declares(r: Record, a: Answers) {
    Located(r, a) && (FindsL1(r, a) || (TimeElapsed(r, a) && !r.status.Finalized?))
  }

  // The keys an advance that does not throw leaves in its patch.
  function IdPatch(r: Record, a: Answers): Patch {
    var read := !Text(r.l2Sequence) && Text(Sequence(r, a));
    EMPTY.(l2Sequence := if read then Sequence(r, a) else None,
           l2Height := if read then Some(a.info.value.height) else None,
           bridgeId := if Proves(r, a) then Some(DecimalText(a.executor.value.0)) else None,
           outputIndex := if Proves(r, a) then Some(DecimalText(a.executor.value.1)) else None,
           status := if Proves(r, a) then Some(Proven) else None)
  }

  function TimePatch(r: Record, a: Answers): Patch {
    IdPatch(r, a).(
      finalizationPeriodMs := if Period(r.finalizationPeriodMs) || a.period.Fails? then None
        else PeriodOf(a.period.value),
      outputProposedAt := if Number(r.outputProposedAt) || a.proposedAt.Fails? then None else a.proposedAt.value)
  }

  function PatchFor(r: Record, a: Answers): Patch {
    if !Located(r, a) then IdPatch(r, a)
    else if Declares(r, a) then
      TimePatch(r, a).(l1TxHash := if FindsL1(r, a) then a.l1Tx else None, status := Some(Finalized),
                       l1FinalizedAt := Some(a.later), lastError := Some(None))
    else TimePatch(r, a)
  }

  function After(r: Record, a: Answers): Record { Apply(r, PatchFor(r, a)) }

  // `Object.keys(patch).length ? patch : null`
  function NonEmpty(p: Patch): Option<Patch> { if p == EMPTY then None else Some(p) }

  /** `advance`: the patch it returns, or the error it throws. */
  method Advance(record: Record, a: Answers) returns (thrown: Option<string>, patch: Option<Patch>)
    ensures thrown == Thrown(record, a)
    ensures patch == if thrown.Some? then None else NonEmpty(PatchFor(record, a))
  {
    var p, located;
    thrown, located, p := Locate(record, a);
    patch := None;
    if thrown.None? {
      if !located { return thrown, NonEmpty(p); }
      thrown, p := ReadTimes(record, a, p);
      if thrown.None? { patch := Conclude(record, a, p); }
    }
  }

  // The first half: the sequence, and where the withdrawal sits on L1.
  method Locate(record: Record, a: Answers) returns (thrown: Option<string>, located: bool, p: Patch)
    ensures thrown == if !Text(record.l2Sequence) && a.info.Fails? then Some(a.info.message) else None
    ensures thrown.None? ==> located == Located(record, a) && p == IdPatch(record, a)
  {
    var l2Sequence, bridgeId, outputIndex := record.l2Sequence, record.bridgeId, record.outputIndex;
    thrown, located, p := None, false, EMPTY;
    if !Text(l2Sequence) {
      if a.info.Fails? { return Some(a.info.message), false, p; }
      l2Sequence := a.info.value.sequence;
      if Text(l2Sequence) { p := p.(l2Sequence := l2Sequence, l2Height := Some(a.info.value.height)); }
    }
    if Text(l2Sequence) {
      if !Text(bridgeId) || !Text(outputIndex) {
        if a.executor.Some? {
          bridgeId, outputIndex := Some(DecimalText(a.executor.value.0)), Some(DecimalText(a.executor.value.1));
          p := p.(bridgeId := bridgeId, outputIndex := outputIndex, status := Some(Proven));
        }
      }
      located := Text(bridgeId) && Text(outputIndex);
    }
  }

  // The second half: the period and the output's time, each asked for once.
  method ReadTimes(record: Record, a: Answers, before: Patch) returns (thrown: Option<string>, p: Patch)
    requires before == IdPatch(record, a) && Located(record, a)
    requires !(!Text(record.l2Sequence) && a.info.Fails?)
    ensures thrown == Thrown(record, a)
    ensures thrown.None? ==> p == TimePatch(record, a)
  {
    thrown, p := None, before;
    if !Period(record.finalizationPeriodMs) {
      if a.period.Fails? { return Some(a.period.message), p; }
      p := p.(finalizationPeriodMs := PeriodOf(a.period.value));
    }
    if !Number(record.outputProposedAt) {
      if a.proposedAt.Fails? { return Some(a.proposedAt.message), p; }
      p := p.(outputProposedAt := a.proposedAt.value);
    }
  }

  // The end: the L1 transaction, or the elapsed period.
  method Conclude(record: Record, a: Answers, before: Patch) returns (patch: Option<Patch>)
    requires before == TimePatch(record, a) && Located(record, a) && Thrown(record, a).None?
    ensures patch == NonEmpty(PatchFor(record, a))
  {
    var outputProposedAt := Over(before.outputProposedAt, record.outputProposedAt);
    var finalizationPeriodMs := Over(before.finalizationPeriodMs, record.finalizationPeriodMs);
    var periodElapsed := Elapsed(outputProposedAt, finalizationPeriodMs, a.now);
    if !Text(record.l1TxHash) && (periodElapsed || record.status.Proven? || record.status.Finalized?) {
      if Text(a.l1Tx) {
        patch := Some(before.(
          l1TxHash := a.l1Tx, status := Some(Finalized), l1FinalizedAt := Some(a.later), lastError := Some(None)));
        return;
      }
    }
    var p := before;
    if periodElapsed && !record.status.Finalized? {
      p := p.(status := Some(Finalized), l1FinalizedAt := Some(a.later), lastError := Some(None));
    }
    patch := NonEmpty(p);
  }

  // ------------------------------------------------------------ the invariant

  function Rank(s: Status): nat { match s case Pending => 0 case Proven => 1 case Finalized => 2 case Failed => 3 }

  // Why a record may say it is finalized.
  predicate Justified(r: Record) {
    Text(r.l1TxHash) || (r.l1FinalizedAt.Some?
      && Elapsed(r.outputProposedAt, r.finalizationPeriodMs, r.l1FinalizedAt.value))
  }

  predicate Sound(r: Record) {
    && (r.status.Proven? || r.status.Finalized? ==> Text(r.l2Sequence) && HasIds(r))
    && (r.status.Finalized? ==> Justified(r))
    && (Text(r.l1TxHash) ==> r.status.Finalized?)
  }

  // The records a tick asks about.
  predicate Active(r: Record) {
    r.status.Pending? || r.status.Proven? || (r.status.Finalized? && !Text(r.l1TxHash))
  }

  // The same withdrawal, no status moved back and no identifier changed.
  predicate Ahead(r: Record, later: Record) {
    && later.l2TxHash == r.l2TxHash && Rank(r.status) <= Rank(later.status)
    && (Text(r.l2Sequence) ==> later.l2Sequence == r.l2Sequence)
    && (HasIds(r) ==> later.bridgeId == r.bridgeId && later.outputIndex == r.outputIndex)
  }

  /** One advance of a sound record keeps it sound and moves it only ahead. */
  lemma AdvanceMovesAhead(r: Record, a: Answers)
    requires Sound(r) && Active(r) && Thrown(r, a).None? && a.now <= a.later
    ensures Sound(After(r, a)) && Ahead(r, After(r, a))
  {
  }

  /** Exactly when an advance ends with a finalized record. */
  lemma FinalizesExactlyWhen(r: Record, a: Answers)
    requires Sound(r) && Thrown(r, a).None?
    ensures After(r, a).status.Finalized? <==>
      r.status.Finalized? || (Located(r, a) && (TimeElapsed(r, a) || (r.status.Proven? && Text(a.l1Tx))))
  {
  }

  /** Located, on the fields: the sequence is known or answered, and both identifiers
      are known or the executor answers. An empty text counts as missing. */
  lemma LocatedExactly(r: Record, a: Answers)
    ensures Located(r, a) <==>
      && (|| (r.l2Sequence.Some? && r.l2Sequence.value != "")
          || (a.info.Body? && a.info.value.sequence.Some? && a.info.value.sequence.value != ""))
      && (|| (r.bridgeId.Some? && r.bridgeId.value != "" && r.outputIndex.Some? && r.outputIndex.value != "")
          || a.executor.Some?)
  {
  }

  /** Elapsed, on the fields: the clock has reached the output's time plus the period,
      which is the record's or 1000 times the seconds the bridge's text stands for. A
      number that is zero counts as missing. */
  lemma ElapsedExactly(r: Record, a: Answers)
    ensures TimeElapsed(r, a) <==>
      var seconds := if a.period.Body? then Durations.ParseDurationSeconds(a.period.value) else None;
      var period := match r.finalizationPeriodMs
        case None => if seconds.Some? then 1000.0 * seconds.value else 0.0
        case Some(p) => if p == 0.0 && seconds.Some? then 1000.0 * seconds.value else p;
      var answered := if a.proposedAt.Body? && a.proposedAt.value.Some? then a.proposedAt.value.value else 0;
      var proposed := match r.outputProposedAt
        case None => answered
        case Some(t) => if t == 0 then answered else t;
      proposed != 0 && period != 0.0 && a.now as real - proposed as real >= period
  {
  }

  /** A record without a period takes the bridge's, in milliseconds; without an L1
      transaction it is declared finalized exactly from the output's time plus that
      period on. */
  lemma PeriodInMilliseconds(r: Record, a: Answers, text: string, seconds: real)
    requires Sound(r) && r.status == Proven && r.finalizationPeriodMs == None && Thrown(r, a) == None
    requires a.period == Body(Some(text)) && Durations.ParseDurationSeconds(Some(text)) == Some(seconds)
    requires r.outputProposedAt.Some? && r.outputProposedAt.value != 0 && a.l1Tx == None
    ensures After(r, a).finalizationPeriodMs == Some(1000.0 * seconds)
    ensures seconds != 0.0 ==>
      (After(r, a).status == Finalized <==> a.now as real >= r.outputProposedAt.value as real + 1000.0 * seconds)
  {
  }

  /** The identifiers a record takes are the executor's numbers, in decimal digits,
      each in its place, and its sequence and height the rollup transaction's. */
  lemma IdentifiersTaken(r: Record, a: Answers)
    requires Thrown(r, a) == None && After(r, a) != r
    ensures r.l2Sequence in {None, Some("")} && a.info.Body? && a.info.value.sequence !in {None, Some("")} ==>
      After(r, a).l2Sequence == a.info.value.sequence && After(r, a).l2Height == a.info.value.height
    ensures After(r, a).l2Sequence !in {None, Some("")} && a.executor.Some? ==>
      r.bridgeId in {None, Some("")} || r.outputIndex in {None, Some("")} ==>
      After(r, a).bridgeId.Some? && IsDecimal(After(r, a).bridgeId.value, a.executor.value.0)
      && After(r, a).outputIndex.Some? && IsDecimal(After(r, a).outputIndex.value, a.executor.value.1)
  {
    if a.executor.Some? {
      DecimalTextReads(a.executor.value.0);
      DecimalTextReads(a.executor.value.1);
    }
  }

  // The digits of a number, a minus sign before them if it is negative.
  ghost predicate IsDecimal(text: string, n: int) {
    if n < 0 then "-" <= text && IsDecimal(text[1..], -n)
    else text != "" && Durations.AllDigits(text) && Durations.Value(text) == n && (text[0] == '0' ==> n == 0)
  }

  lemma {:induction false} DecimalTextReads(n: int)
    ensures IsDecimal(DecimalText(n), n)
    decreases if n < 0 then 1 - n else n
  {
    if n < 0 {
      DecimalTextReads(-n);
      assert DecimalText(n)[1..] == DecimalText(-n);
    } else if n < 10 {
      Durations.OneDigit(DecimalText(n)[0]);
    } else {
      DecimalTextReads(n / 10);
      assert DecimalText(n)[..|DecimalText(n)| - 1] == DecimalText(n / 10);
    }
  }

  /** A period of zero never elapses: without an L1 transaction such a record
      is not declared finalized at any time. */
  lemma ZeroPeriodNeverElapses(r: Record, a: Answers)
    requires Sound(r) && Thrown(r, a).None? && !r.status.Finalized? && !Text(a.l1Tx)
    requires PeriodAfter(r, a) == Some(0.0)
    ensures !After(r, a).status.Finalized?
  {
  }

  /** A patch worked out from an old copy of a record moves the record back
      exactly when it says "proven" and the record is finalized by now. */
  lemma StalePatchMovesBack(stale: Record, r: Record, a: Answers)
    requires Sound(stale) && Sound(r) && stale.l2TxHash == r.l2TxHash && Thrown(stale, a).None?
    requires !r.status.Failed?
    ensures Rank(Apply(r, PatchFor(stale, a)).status) < Rank(r.status)
      <==> r.status.Finalized? && Proves(stale, a) && !Declares(stale, a)
  {
  }

  // A record the executor has placed and the elapsed period has finalized.
  const DONE := Record("t", Some("1"), None, Some("1"), Some("1"), Some(1), Some(1.0), Finalized, Some(2), None, None)

  /** The page shows a record as finalized; storage still has it without its
      identifiers; the executor answers: the record goes back to proven. */
  lemma FinalizedGoesBack()
    ensures var stale := DONE.(bridgeId := None, outputIndex := None, outputProposedAt := None, status := Pending);
      var a := Answers(Fails("down"), Some((1, 1)), Body(None), Body(None), None, 3, 3);
      && Sound(DONE) && Sound(stale) && Active(stale) && Thrown(stale, a).None?
      && DONE.status == Finalized && Apply(DONE, PatchFor(stale, a)).status == Proven
  {
  }

  // ------------------------------------------------------------ the record list

  function Stepped(r: Record, a: Answers): Record {
    var thrown := Thrown(r, a);
    if thrown.Some? then Apply(r, EMPTY.(lastError := Some(thrown))) else After(r, a)
  }

  // Records one tick leaves when the answers run out after |answers| of them.
  function Ticked(rs: seq<Record>, answers: seq<Answers>): seq<Record> {
    if rs == [] then []
    else if !Active(rs[0]) then [rs[0]] + Ticked(rs[1..], answers)
    else if answers == [] then rs
    else [Stepped(rs[0], answers[0])] + Ticked(rs[1..], answers[1..])
  }

  ghost predicate UniqueKeys(rs: seq<Record>) {
    forall i, j :: 0 <= i < j < |rs| ==> rs[i].l2TxHash != rs[j].l2TxHash
  }

  ghost predicate AllSound(rs: seq<Record>) {
    forall i :: 0 <= i < |rs| ==> Sound(rs[i])
  }

  predicate ClockForward(answers: seq<Answers>) {
    forall i :: 0 <= i < |answers| ==> answers[i].now <= answers[i].later
  }

  ghost predicate AllAhead(before: seq<Record>, after: seq<Record>) {
    |after| == |before| && forall i :: 0 <= i < |before| ==> Ahead(before[i], after[i])
  }

  /** One tick, however many answers it gets. */
  lemma {:induction false} TickMovesAhead(rs: seq<Record>, answers: seq<Answers>)
    requires AllSound(rs) && ClockForward(answers)
    ensures AllSound(Ticked(rs, answers)) && AllAhead(rs, Ticked(rs, answers))
    decreases |rs|
  {
    if rs != [] {
      if !Active(rs[0]) {
        TickMovesAhead(rs[1..], answers);
      } else if answers != [] {
        if Thrown(rs[0], answers[0]).None? { AdvanceMovesAhead(rs[0], answers[0]); }
        TickMovesAhead(rs[1..], answers[1..]);
      }
    }
  }

  /** A tick that is not cancelled asks about each pending, proven and finalized record,
      a finalized one only while it has no L1 transaction, and about no other. */
  lemma {:induction false} TickAsks(rs: seq<Record>, answers: seq<Answers>)
    requires |answers| >= |rs|
    ensures |Ticked(rs, answers)| == |rs|
    ensures forall i :: 0 <= i < |rs| ==>
      if rs[i].status == Failed || (rs[i].status == Finalized && rs[i].l1TxHash.Some? && rs[i].l1TxHash.value != "")
      then Ticked(rs, answers)[i] == rs[i]
      else exists a :: a in answers && Ticked(rs, answers)[i] == Stepped(rs[i], a)
    decreases |rs|
  {
    if rs != [] {
      var r, more := rs[0], if Active(rs[0]) then answers[1..] else answers;
      TickAsks(rs[1..], more);
      assert Active(r) ==> answers[0] in answers;
      assert forall a :: a in more ==> a in answers;
      forall i | 0 < i < |rs|
        ensures rs[i] == rs[1..][i - 1] && Ticked(rs, answers)[i] == Ticked(rs[1..], more)[i - 1]
      {
      }
    }
  }

  function Updated(rs: seq<Record>, key: string, p: Patch): (r: seq<Record>)
    ensures |r| == |rs|
  {
    seq(|rs|, i requires 0 <= i < |rs| => if rs[i].l2TxHash == key then Apply(rs[i], p) else rs[i])
  }

  predicate Exists(rs: seq<Record>, key: string) {
    exists i :: 0 <= i < |rs| && rs[i].l2TxHash == key
  }

  function Without(rs: seq<Record>, key: string): seq<Record> {
    if rs == [] then []
    else if rs[0].l2TxHash == key then Without(rs[1..], key)
    else [rs[0]] + Without(rs[1..], key)
  }

  /** An added record comes in front unless its hash is there; a removal leaves
      exactly the records of other hashes. */
  lemma AddsAndRemoves(rs: seq<Record>, record: Record, key: string)
    ensures (exists i :: 0 <= i < |rs| && rs[i].l2TxHash == record.l2TxHash) ==>
      EventResult(rs, Adds(record)) == rs
    ensures (forall i :: 0 <= i < |rs| ==> rs[i].l2TxHash != record.l2TxHash) ==>
      EventResult(rs, Adds(record)) == [record] + rs
    ensures forall r :: r in EventResult(rs, Removes(key)) <==> r in rs && r.l2TxHash != key
  {
    WithoutMembers(rs, key);
  }

  lemma {:induction false} WithoutMembers(rs: seq<Record>, key: string)
    ensures forall r :: r in Without(rs, key) <==> r in rs && r.l2TxHash != key
  {
    if rs != [] {
      WithoutMembers(rs[1..], key);
      assert rs == [rs[0]] + rs[1..];
    }
  }

  lemma {:induction false} WithoutUnique(rs: seq<Record>, key: string)
    requires UniqueKeys(rs)
    ensures UniqueKeys(Without(rs, key))
  {
    if rs != [] {
      var rest := Without(rs[1..], key);
      WithoutUnique(rs[1..], key);
      WithoutMembers(rs[1..], key);
      forall j | 0 <= j < |rest| ensures rest[j].l2TxHash != rs[0].l2TxHash {
        assert rest[j] in rs[1..];
      }
    }
  }

  lemma WithoutKeeps(rs: seq<Record>, key: string)
    requires UniqueKeys(rs) && AllSound(rs)
    ensures UniqueKeys(Without(rs, key)) && AllSound(Without(rs, key))
  {
    WithoutUnique(rs, key);
    WithoutMembers(rs, key);
    forall j | 0 <= j < |Without(rs, key)| ensures Sound(Without(rs, key)[j]) {
      assert Without(rs, key)[j] in rs;
    }
  }

  lemma UpdatedAt(rs: seq<Record>, i: nat, p: Patch)
    requires UniqueKeys(rs) && i < |rs|
    ensures Updated(rs, rs[i].l2TxHash, p) == rs[i := Apply(rs[i], p)]
  {
    forall j | 0 <= j < |rs| && j != i ensures rs[j].l2TxHash != rs[i].l2TxHash {
      if j < i { assert rs[j].l2TxHash != rs[i].l2TxHash; }
    }
  }

  // The loop of a tick, i records done and n answers used.
  lemma TickStep(rs: seq<Record>, answers: seq<Answers>, i: nat, n: nat)
    requires i < |rs| && n <= |answers|
    ensures !Active(rs[i]) ==> Ticked(rs[i..], answers[n..]) == [rs[i]] + Ticked(rs[i + 1..], answers[n..])
    ensures Active(rs[i]) && n == |answers| ==> Ticked(rs[i..], answers[n..]) == rs[i..]
    ensures Active(rs[i]) && n < |answers| ==>
      Ticked(rs[i..], answers[n..]) == [Stepped(rs[i], answers[n])] + Ticked(rs[i + 1..], answers[n + 1..])
  {
    assert rs[i..][1..] == rs[i + 1..];
    if n < |answers| { assert answers[n..][1..] == answers[n + 1..]; }
  }

  class Tracker {
    var records: seq<Record>   // what the page shows, saved after every change

    ghost predicate Valid()
      reads this
    {
      UniqueKeys(records) && AllSound(records)
    }

    constructor ()
      ensures Valid() && records == []
    {
      records := [];
    }

    method UpdateRecord(key: string, patch: Patch)
      modifies this
      ensures records == Updated(old(records), key, patch)
    {
      records := Updated(records, key, patch);
    }

    method AddRecord(record: Record)
      requires Valid() && Sound(record)
      modifies this
      ensures Valid()
      ensures records == if Exists(old(records), record.l2TxHash) then old(records) else [record] + old(records)
    {
      if !Exists(records, record.l2TxHash) { records := [record] + records; }
    }

    method RemoveRecord(key: string)
      requires Valid()
      modifies this
      ensures Valid() && records == Without(old(records), key)
    {
      WithoutKeeps(records, key);
      records := Without(records, key);
    }

    // The body of a tick's loop, for the record at position i.
    method Poll(i: nat, a: Answers)
      requires i < |records| && UniqueKeys(records)
      modifies this
      ensures records == old(records)[i := Stepped(old(records)[i], a)]
    {
      var record := records[i];
      var thrown, patch := Advance(record, a);
      if thrown.Some? {
        UpdatedAt(records, i, EMPTY.(lastError := Some(thrown)));
        UpdateRecord(record.l2TxHash, EMPTY.(lastError := Some(thrown)));
      } else if patch.Some? {
        UpdatedAt(records, i, patch.value);
        UpdateRecord(record.l2TxHash, patch.value);
      }
    }

    /** `tick`: it asks in turn about every active record of the list it began
        with, and stops, cancelled, where the answers run out. */
    method Tick(answers: seq<Answers>)
      requires Valid() && ClockForward(answers)
      modifies this
      ensures Valid() && records == Ticked(old(records), answers)
    {
      TickMovesAhead(records, answers);
      AheadUnique(records, Ticked(records, answers));
      var current := records;
      var n := 0;
      assert records[..0] == [] && answers[0..] == answers && current[0..] == current;
      for i := 0 to |current|
        invariant Midway(current, records, answers, i, n)
      {
        if Active(current[i]) && n == |answers| {
          MidwayEnd(current, records, answers, i, n);
          return;
        }
        MidwayStep(current, records, answers, i, n);
        if Active(current[i]) {
          Poll(i, answers[n]);
          n := n + 1;
        }
      }
      MidwayEnd(current, records, answers, |current|, n);
    }

    /** Any run of ticks, additions and removals. */
    method Run(events: seq<Event>)
      requires Valid() && forall i :: 0 <= i < |events| ==> Welcome(events[i])
      modifies this
      ensures Valid() && records == AfterEvents(old(records), events)
      ensures Kept(old(records), records, RemovedKeys(events))
    {
      KeptSelf(records, {});
      for i := 0 to |events|
        invariant Valid() && records == AfterEvents(old(records), events[..i])
        invariant Kept(old(records), records, RemovedKeys(events[..i]))
      {
        ghost var before := records;
        match events[i] {
          case Ticks(answers) => Tick(answers);
          case Adds(record) => AddRecord(record);
          case Removes(key) => RemoveRecord(key);
        }
        EventKeeps(before, events[i]);
        KeptThrough(old(records), before, records, RemovedKeys(events[..i]), RemovedKey(events[i]));
        assert events[..i + 1][..i] == events[..i];
      }
      assert events[..|events|] == events;
    }
  }

  datatype Event = Ticks(answers: seq<Answers>) | Adds(record: Record) | Removes(key: string)

  // The page adds pending records only, as the wallet's transaction comes back.
  predicate Welcome(e: Event) {
    match e
    case Ticks(answers) => ClockForward(answers)
    case Adds(record) => record.status.Pending? && !Text(record.l1TxHash)
    case Removes(_) => true
  }

  function RemovedKey(e: Event): set<string> { if e.Removes? then {e.key} else {} }

  ghost function RemovedKeys(events: seq<Event>): set<string> {
    if events == [] then {} else RemovedKeys(events[..|events| - 1]) + RemovedKey(events[|events| - 1])
  }

  function EventResult(rs: seq<Record>, e: Event): seq<Record> {
    match e
    case Ticks(answers) => Ticked(rs, answers)
    case Adds(record) => if Exists(rs, record.l2TxHash) then rs else [record] + rs
    case Removes(key) => Without(rs, key)
  }

  function AfterEvents(rs: seq<Record>, events: seq<Event>): seq<Record> {
    if events == [] then rs else EventResult(AfterEvents(rs, events[..|events| - 1]), events[|events| - 1])
  }

  ghost predicate AheadIn(r: Record, rs: seq<Record>) {
    exists j :: 0 <= j < |rs| && Ahead(r, rs[j])
  }

  // Nothing is lost that was not removed, and everything kept moved only ahead.
  ghost predicate Kept(before: seq<Record>, after: seq<Record>, removed: set<string>) {
    forall i :: 0 <= i < |before| && before[i].l2TxHash !in removed ==> AheadIn(before[i], after)
  }

  lemma KeptSelf(rs: seq<Record>, removed: set<string>)
    ensures Kept(rs, rs, removed)
  {
    forall i | 0 <= i < |rs| && rs[i].l2TxHash !in removed ensures AheadIn(rs[i], rs) {
      assert Ahead(rs[i], rs[i]);
    }
  }

  lemma EventKeeps(rs: seq<Record>, e: Event)
    requires AllSound(rs) && Welcome(e)
    ensures Kept(rs, EventResult(rs, e), RemovedKey(e))
  {
    var after := EventResult(rs, e);
    if e.Ticks? { TickMovesAhead(rs, e.answers); }
    if e.Removes? { WithoutMembers(rs, e.key); }
    forall i | 0 <= i < |rs| && rs[i].l2TxHash !in RemovedKey(e) ensures AheadIn(rs[i], after) {
      assert rs[i] in rs && Ahead(rs[i], rs[i]);
      if e.Ticks? {
        assert Ahead(rs[i], after[i]);
      } else {
        assert e.Adds? && after != rs ==> after[i + 1] == rs[i];
        assert rs[i] in after;
      }
    }
  }

  lemma KeptThrough(a: seq<Record>, b: seq<Record>, c: seq<Record>, first: set<string>, second: set<string>)
    requires Kept(a, b, first) && Kept(b, c, second)
    ensures Kept(a, c, first + second)
  {
    forall i | 0 <= i < |a| && a[i].l2TxHash !in first + second ensures AheadIn(a[i], c) {
      assert AheadIn(a[i], b);
      var j :| 0 <= j < |b| && Ahead(a[i], b[j]);
      assert AheadIn(b[j], c);
      var k :| 0 <= k < |c| && Ahead(b[j], c[k]);
      assert Ahead(a[i], c[k]);
    }
  }

  lemma AheadUnique(before: seq<Record>, after: seq<Record>)
    requires UniqueKeys(before) && AllAhead(before, after)
    ensures UniqueKeys(after)
  {
    forall i, j | 0 <= i < j < |after| ensures after[i].l2TxHash != after[j].l2TxHash {
      assert Ahead(before[i], after[i]) && Ahead(before[j], after[j]);
    }
  }

  // A tick with i records done and n answers used.
  ghost predicate Midway(current: seq<Record>, records: seq<Record>, answers: seq<Answers>, i: nat, n: nat) {
    && n <= |answers| && i <= |records| == |current| && UniqueKeys(records) && records[i..] == current[i..]
    && Ticked(current, answers) == records[..i] + Ticked(current[i..], answers[n..])
  }

  lemma MidwayStep(current: seq<Record>, records: seq<Record>, answers: seq<Answers>, i: nat, n: nat)
    requires Midway(current, records, answers, i, n) && i < |current| && (Active(current[i]) ==> n < |answers|)
    ensures records[i] == current[i]
    ensures !Active(current[i]) ==> Midway(current, records, answers, i + 1, n)
    ensures Active(current[i]) ==> Midway(current, records[i := Stepped(current[i], answers[n])], answers, i + 1, n + 1)
  {
    assert records[i..][0] == current[i..][0];
    TickStep(current, answers, i, n);
    if Active(current[i]) {
      var r := Stepped(current[i], answers[n]);
      SameKeyUpdate(records, i, r);
      Frame(current, records, i, r);
      Shift(records[..i], r, Ticked(current[i + 1..], answers[n + 1..]));
    } else {
      Frame(current, records, i, records[i]);
      assert records[i := records[i]] == records;
      Shift(records[..i], records[i], Ticked(current[i + 1..], answers[n..]));
    }
  }

  lemma SameKeyUpdate(rs: seq<Record>, i: nat, r: Record)
    requires i < |rs| && UniqueKeys(rs) && r.l2TxHash == rs[i].l2TxHash
    ensures UniqueKeys(rs[i := r])
  {
  }

  lemma Frame(current: seq<Record>, records: seq<Record>, i: nat, r: Record)
    requires i < |records| == |current| && records[i..] == current[i..]
    ensures records[i := r][i + 1..] == current[i + 1..] && records[i := r][..i + 1] == records[..i] + [r]
  {
    assert records[i..][1..] == records[i + 1..] && current[i..][1..] == current[i + 1..];
  }

  lemma Shift<T>(done: seq<T>, x: T, rest: seq<T>)
    ensures done + ([x] + rest) == (done + [x]) + rest
  {
  }

  lemma MidwayEnd(current: seq<Record>, records: seq<Record>, answers: seq<Answers>, i: nat, n: nat)
    requires Midway(current, records, answers, i, n)
    requires i < |current| ==> Active(current[i]) && n == |answers|
    ensures records == Ticked(current, answers)
  {
    if i < |current| { TickStep(current, answers, i, n); }
    assert records == records[..i] + records[i..];
  }
}

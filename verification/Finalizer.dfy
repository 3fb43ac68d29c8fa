/** initia-rollup/scripts/finalize-withdrawals.ts: finalizing withdrawals on L1
    in order, from a state file that survives crashes. */
module Finalizer {
  import opened Common
  import Durations

  // ------------------------------------------------------------ what it reads

  // The executor's answer for the sequence asked for.
  datatype Withdrawal = Withdrawal(
    outputIndex: int, proofs: Option<nat>, storageRoot: Option<string>, lastBlockHash: Option<string>)

  // `isWithdrawalReadyForFinalize`; `proofs` is the length of the proof array.
  predicate Ready(w: Withdrawal) {
    && w.outputIndex > 0
    && w.proofs.Some? && w.proofs.value > 0
    && w.storageRoot.Some? && w.storageRoot.value != ""
    && w.lastBlockHash.Some? && w.lastBlockHash.value != ""
  }

  datatype QueryKind = NotFound | Transient | UnknownQuery

  function ClassifyQueryError(text: string): QueryKind {
    if Includes(text, "collections: not found") then NotFound
    else if
      || Includes(text, "502 Bad Gateway") || Includes(text, "503 Service Unavailable")
      || Includes(text, "504 Gateway Timeout") || Includes(text, "invalid character")
      || Includes(text, "context deadline exceeded") || Includes(text, "connection refused")
      || Includes(text, "EOF")
    then Transient
    else UnknownQuery
  }

  datatype ErrorKind = NotFinalized | AlreadyFinalized | FailedToVerify | UnknownError

  function ClassifyError(text: string): ErrorKind {
    if Includes(text, "output has not finalized") then NotFinalized
    else if Includes(text, "withdrawal already finalized") then AlreadyFinalized
    else if Includes(text, "failed to verify withdrawal tx") then FailedToVerify
    else UnknownError
  }

  // The answer to the output-proposal query; `Date.parse` may give NaN.
  datatype Proposal = Unreadable(text: string) | Untimed | Unparseable | At(ms: int)

  // `readOutputAvailableAtMs`: it throws, or gives null, or a time or NaN.
  datatype Available = Throws | Null | NaN | Since(ms: int)

  function AvailableAt(p: Proposal, period: nat): Available {
    match p
    case Unreadable(text) => if ClassifyQueryError(text).UnknownQuery? then Throws else Null
    case Untimed => Throws
    case Unparseable => NaN
    case At(ms) => Since(ms + period)
  }

  // `Date.now() < availableAtMs`: any comparison with NaN is false.
  predicate MustWait(available: Available, now: int) { available.Since? && now < available.ms }

  // ------------------------------------------------------- the world's answers

  // What becomes of a submission L1 can still accept: it lands and the command
  // says so (or L1 says it comes too late); the command exits normally although
  // L1 has not finalized (a nonzero code in the broadcast answer, a failure in
  // its block, or no block yet); it lands but the command fails; or it does not
  // land and the command fails.
  datatype Fate = Lands(tooLate: string) | Unsettled | LandsUnseen(text: string) | Lost(text: string)

  datatype Cli = Accepted | Refused(text: string)

  // L1 refuses a withdrawal that is already finalized.
  function Answer(fate: Fate, finalized: bool): Cli {
    match fate
    case Lands(tooLate) => if finalized then Refused(tooLate) else Accepted
    case Unsettled => Accepted
    case LandsUnseen(text) => Refused(text)
    case Lost(text) => Refused(text)
  }

  predicate Takes(fate: Fate, finalized: bool) { !finalized && (fate.Lands? || fate.LandsUnseen?) }

  // The command calls it a success and L1 has not finalized it.
  predicate LeavesOpen(fate: Fate, finalized: bool) { !finalized && fate.Unsettled? }

  // A process can be killed anywhere; a killed save leaves the old file, the
  // new one, or a truncated one.
  datatype Crash = Never | BeforeSubmit | AfterSubmit | InSave(left: Left)

  datatype Left = Old | New | Torn

  // `others` take effect before the submission: anyone's finalizations, a late
  // one of an earlier submission included.
  datatype Answers = Answers(
    others: set<nat>, withdrawal: Option<Withdrawal>, proposal: Proposal, now: int, fate: Fate, crash: Crash)

  // The text reports a withdrawal as finalized before.
  predicate SaysFinalized(text: string) {
    Includes(text, "withdrawal already finalized") && !Includes(text, "output has not finalized")
  }

  // L1 says "already finalized" of what is, and only of that.
  predicate Honest(a: Answers) {
    match a.fate
    case Lands(tooLate) => SaysFinalized(tooLate)
    case Unsettled => true
    case LandsUnseen(_) => true
    case Lost(text) => !SaysFinalized(text)
  }

  predicate Submits(a: Answers, period: nat) {
    && a.withdrawal.Some? && Ready(a.withdrawal.value)
    && (var available := AvailableAt(a.proposal, period);
        !available.Throws? && !available.Null? && !MustWait(available, a.now))
    && !a.crash.BeforeSubmit?
  }

  datatype Flow = Continues | Breaks | Dies

  // Whether the loop goes on to the next sequence, if nothing kills it.
  function Verdict(cli: Cli): Flow {
    match cli
    case Accepted => Continues
    case Refused(text) =>
      match ClassifyError(text)
      case AlreadyFinalized => Continues
      case NotFinalized => Breaks
      case _ => Dies
  }

  function AfterAnswer(cli: Cli, crash: Crash): Flow {
    var verdict := Verdict(cli);
    if crash.AfterSubmit? || (verdict.Continues? && crash.InSave?) then Dies else verdict
  }

  // ------------------------------------------------------------ the invariants

  datatype StateFile = Missing | Garbled | Saved(bridgeId: string, rollupChainId: string, nextSequence: nat)

  // The file after a submission: only a success saves, and a kill may spoil it.
  function FileAfter(before: StateFile, cli: Cli, crash: Crash, saved: StateFile): StateFile {
    if !Verdict(cli).Continues? || crash.AfterSubmit? || crash == InSave(Old) then before
    else if crash == InSave(Torn) then Garbled
    else saved
  }

  datatype Submission = Submission(sequence: nat, available: Available, now: int)

  ghost predicate AllBelow(n: nat, s: set<nat>) {
    forall k :: 1 <= k < n ==> k in s
  }

  // Own finalizations: none twice, nothing skipped but what the command had
  // called a success, and in order but for what it had called a success before.
  ghost predicate InOrder(own: seq<nat>, finalized: set<nat>, unsettled: set<nat>) {
    && (forall i :: 0 <= i < |own| ==> own[i] in finalized && AllBelow(own[i], finalized + unsettled))
    && (forall i, j :: 0 <= i < j < |own| ==> own[i] != own[j] && (own[i] < own[j] || own[j] in unsettled))
  }

  // No submission before its time, none out of turn.
  ghost predicate Timely(submissions: seq<Submission>, cleared: set<nat>) {
    forall i :: 0 <= i < |submissions| ==>
      && !MustWait(submissions[i].available, submissions[i].now)
      && (submissions[i].available.Since? || submissions[i].available.NaN?)
      && AllBelow(submissions[i].sequence, cleared)
  }

  lemma BelowGrows(n: nat, s: set<nat>, more: set<nat>)
    requires AllBelow(n, s) && s <= more
    ensures AllBelow(n, more)
  {
  }

  lemma OrderGrows(own: seq<nat>, finalized: set<nat>, unsettled: set<nat>, finalized': set<nat>, unsettled': set<nat>)
    requires InOrder(own, finalized, unsettled) && finalized <= finalized' && unsettled <= unsettled'
    ensures InOrder(own, finalized', unsettled')
  {
    forall i | 0 <= i < |own| ensures AllBelow(own[i], finalized' + unsettled') {
      BelowGrows(own[i], finalized + unsettled, finalized' + unsettled');
    }
  }

  lemma TimelyGrows(submissions: seq<Submission>, cleared: set<nat>, more: set<nat>)
    requires Timely(submissions, cleared) && cleared <= more
    ensures Timely(submissions, more)
  {
    forall i | 0 <= i < |submissions| ensures AllBelow(submissions[i].sequence, more) {
      BelowGrows(submissions[i].sequence, cleared, more);
    }
  }

  /** A sequence not yet finalized, with everything below it cleared, lies above
      every earlier own finalization or had been called a success before. */
  lemma NewestOwn(own: seq<nat>, finalized: set<nat>, unsettled: set<nat>, s: nat)
    requires s >= 1 && InOrder(own, finalized, unsettled) && AllBelow(s, finalized + unsettled) && s !in finalized
    ensures InOrder(own + [s], finalized + {s}, unsettled)
  {
    OrderGrows(own, finalized, unsettled, finalized + {s}, unsettled);
    BelowGrows(s, finalized + unsettled, finalized + {s} + unsettled);
    forall i | 0 <= i < |own| ensures own[i] != s && (own[i] < s || s in unsettled) {
      assert own[i] in finalized && AllBelow(own[i], finalized + unsettled);
      if own[i] > s { assert s in finalized + unsettled; }
    }
  }

  // The loop moves past a sequence that L1 has finalized, that the submission
  // finalizes, or that it leaves open while the command calls it a success.
  lemma PassedIsCleared(fate: Fate, sequence: nat, finalized: set<nat>)
    requires fate.Lost? ==> !SaysFinalized(fate.text)
    requires Verdict(Answer(fate, sequence in finalized)).Continues?
    ensures sequence in finalized || Takes(fate, sequence in finalized) || LeavesOpen(fate, sequence in finalized)
  {
  }

  lemma OneMore(n: nat, s: set<nat>)
    requires AllBelow(n, s) && n in s
    ensures AllBelow(n + 1, s)
  {
  }

  lemma SmoothTurn(a: Answers, period: nat, before: set<nat>, sequence: nat)
    requires Honest(a) && Submits(a, period) && a.fate.Lands? && a.crash.Never?
    ensures FlowAfter(before, sequence, period, a).Continues?
  {
  }

  /** Everything below a saved sequence is finalized exactly when every sequence
      below it that was called a success without being finalized is so by now. */
  lemma FinalizedUnlessUnsettled(n: nat, finalized: set<nat>, unsettled: set<nat>)
    requires AllBelow(n, finalized + unsettled)
    ensures AllBelow(n, finalized) <==> forall k :: 1 <= k < n && k in unsettled ==> k in finalized
  {
    if forall k :: 1 <= k < n && k in unsettled ==> k in finalized {
      forall k | 1 <= k < n ensures k in finalized {
        assert k in finalized + unsettled;
      }
    }
  }

  // ------------------------------------------------------------- the finalizer

  class WithdrawalFinalizer {
    const bridgeId: string
    const rollupChainId: string
    var file: StateFile
    var nextSequence: nat                 // in memory, for the current life
    var finalized: set<nat>               // on L1, by anyone
    ghost var unsettled: set<nat>         // called a success while L1 had not finalized them
    ghost var own: seq<nat>               // finalized by this finalizer's submissions, in time order
    ghost var submissions: seq<Submission>
    ghost var torn: nat                   // saves that were killed half way

    // The sequence a new life starts from.
    function Loaded(): nat
      reads this
    {
      if file.Saved? && file.bridgeId == bridgeId && file.rollupChainId == rollupChainId then file.nextSequence else 1
    }

    ghost predicate Valid()
      reads this
    {
      && 1 <= Loaded() <= nextSequence && AllBelow(nextSequence, finalized + unsettled)
      && InOrder(own, finalized, unsettled) && Timely(submissions, finalized + unsettled)
    }

    constructor (bridgeId: string, rollupChainId: string, file: StateFile, finalized: set<nat>)
      requires !(file.Saved? && file.bridgeId == bridgeId && file.rollupChainId == rollupChainId)
      ensures Valid() && this.file == file && this.finalized == finalized && unsettled == {} && own == []
      ensures submissions == [] && torn == 0 && nextSequence == 1
      ensures this.bridgeId == bridgeId && this.rollupChainId == rollupChainId
    {
      this.bridgeId, this.rollupChainId, this.file, this.nextSequence := bridgeId, rollupChainId, file, 1;
      this.finalized, this.unsettled, this.own, this.submissions, this.torn := finalized, {}, [], [], 0;
    }

    method LoadState()
      requires Valid()
      modifies this`nextSequence
      ensures Valid() && nextSequence == Loaded() && AllBelow(Loaded(), finalized + unsettled)
    {
      nextSequence := Loaded();
    }

    // `state.nextSequence = next` and `saveState`; `killed` says what a kill left.
    method SaveState(next: nat, killed: Option<Left>)
      requires Valid() && next >= nextSequence && AllBelow(next, finalized + unsettled)
      modifies this`nextSequence, this`file, this`torn
      ensures Valid() && nextSequence == next
      ensures file == match killed
        case None => Saved(bridgeId, rollupChainId, next)
        case Some(Old) => old(file)
        case Some(New) => Saved(bridgeId, rollupChainId, next)
        case Some(Torn) => Garbled
      ensures torn == old(torn) + if killed == Some(Torn) then 1 else 0
    {
      nextSequence := next;
      if killed == Some(Torn) {
        file, torn := Garbled, torn + 1;
      } else if killed != Some(Old) {
        file := Saved(bridgeId, rollupChainId, next);
      }
    }

    // L1 meets one submission.
    method FinalizeOnce(sequence: nat, fate: Fate) returns (cli: Cli)
      requires Valid() && sequence == nextSequence
      modifies this`finalized, this`own, this`unsettled
      ensures Valid()
      ensures cli == Answer(fate, sequence in old(finalized))
      ensures fate.Lands? ==> (cli.Accepted? <==> sequence !in old(finalized))
      ensures finalized == old(finalized) + if Takes(fate, sequence in old(finalized)) then {sequence} else {}
      ensures own == old(own) + if Takes(fate, sequence in old(finalized)) then [sequence] else []
      ensures unsettled == old(unsettled) + if LeavesOpen(fate, sequence in old(finalized)) then {sequence} else {}
    {
      cli := Answer(fate, sequence in finalized);
      if Takes(fate, sequence in finalized) {
        NewestOwn(own, finalized, unsettled, sequence);
        Clear({sequence}, {});
        own := own + [sequence];
      } else if LeavesOpen(fate, sequence in finalized) {
        Clear({}, {sequence});
      }
    }

    // More is finalized, or called a success.
    method Clear(more: set<nat>, ghost open: set<nat>)
      requires Valid()
      modifies this`finalized, this`unsettled
      ensures Valid() && finalized == old(finalized) + more && unsettled == old(unsettled) + open
    {
      OrderGrows(own, finalized, unsettled, finalized + more, unsettled + open);
      TimelyGrows(submissions, finalized + unsettled, (finalized + more) + (unsettled + open));
      BelowGrows(nextSequence, finalized + unsettled, (finalized + more) + (unsettled + open));
      finalized, unsettled := finalized + more, unsettled + open;
    }

    // From the submission on: what the command's answer makes the loop do.
    method Submit(sequence: nat, period: nat, a: Answers) returns (flow: Flow)
      requires Valid() && sequence == nextSequence && Honest(a) && Submits(a, period)
      modifies this
      ensures Valid()
      ensures finalized == old(finalized) + if Takes(a.fate, sequence in old(finalized)) then {sequence} else {}
      ensures own == old(own) + if Takes(a.fate, sequence in old(finalized)) then [sequence] else []
      ensures unsettled == old(unsettled) + if LeavesOpen(a.fate, sequence in old(finalized)) then {sequence} else {}
      ensures submissions == old(submissions) + [Submission(sequence, AvailableAt(a.proposal, period), a.now)]
      ensures flow == AfterAnswer(Answer(a.fate, sequence in old(finalized)), a.crash)
      ensures flow.Continues? ==> nextSequence == sequence + 1
      ensures flow.Breaks? ==> nextSequence == sequence
      ensures file == FileAfter(old(file), Answer(a.fate, sequence in old(finalized)), a.crash,
                                Saved(bridgeId, rollupChainId, sequence + 1))
      ensures torn >= old(torn) && (torn == old(torn) ==> Loaded() >= old(Loaded()))
    {
      submissions := submissions + [Submission(sequence, AvailableAt(a.proposal, period), a.now)];
      var cli := FinalizeOnce(sequence, a.fate);
      if a.crash.AfterSubmit? { return Dies; }
      flow := Verdict(cli);
      if flow.Continues? {
        PassedIsCleared(a.fate, sequence, old(finalized));
        OneMore(sequence, finalized + unsettled);
        SaveState(sequence + 1, if a.crash.InSave? then Some(a.crash.left) else None);
        if a.crash.InSave? { flow := Dies; }
      }
    }

    /** One turn of the inner loop, up to its `continue`, `break` or `throw`. */
    method Visit(sequence: nat, period: nat, a: Answers) returns (flow: Flow)
      requires Valid() && sequence == nextSequence && Honest(a)
      modifies this
      ensures Valid() && finalized == FinalizedAfter(old(finalized), sequence, period, a)
      ensures own == old(own) + if Wins(old(finalized), sequence, period, a) then [sequence] else []
      ensures unsettled == old(unsettled) + if Opens(old(finalized), sequence, period, a) then {sequence} else {}
      ensures submissions == if Submits(a, period)
        then old(submissions) + [Submission(sequence, AvailableAt(a.proposal, period), a.now)] else old(submissions)
      ensures flow == FlowAfter(old(finalized), sequence, period, a)
      ensures flow.Continues? ==> nextSequence == sequence + 1
      ensures flow.Breaks? ==> nextSequence == sequence
      ensures file == if Submits(a, period)
        then FileAfter(old(file), Answer(a.fate, sequence in old(finalized) + a.others), a.crash,
                       Saved(bridgeId, rollupChainId, sequence + 1))
        else old(file)
      ensures torn >= old(torn) && (torn == old(torn) ==> Loaded() >= old(Loaded()))
    {
      Clear(a.others, {});
      if a.withdrawal.None? { return Dies; }
      if !Ready(a.withdrawal.value) { return Breaks; }
      var available := AvailableAt(a.proposal, period);
      if available.Throws? { return Dies; }
      if available.Null? || MustWait(available, a.now) { return Breaks; }
      if a.crash.BeforeSubmit? { return Dies; }
      flow := Submit(sequence, period, a);
    }

    /** The invariants, nothing of the past undone, and while no save is torn,
        the file never moves back and nothing below it is submitted again. */
    twostate predicate Grown()
      reads this
    {
      && Valid() && old(finalized) <= finalized && old(unsettled) <= unsettled
      && old(own) <= own && old(submissions) <= submissions && old(torn) <= torn
      && (torn == old(torn) ==>
            Loaded() >= old(Loaded()) && NotBelow(submissions, |old(submissions)|, old(Loaded())))
    }

    // That turn, by what the outer loop needs of it.
    method Turn(sequence: nat, period: nat, a: Answers) returns (flow: Flow)
      requires Valid() && sequence == nextSequence && Honest(a)
      modifies this
      ensures Grown() && (!a.fate.Unsettled? ==> unsettled == old(unsettled))
      ensures flow.Continues? ==>
        nextSequence == sequence + 1 && file == Saved(bridgeId, rollupChainId, sequence + 1)
      ensures flow.Breaks? ==> nextSequence == sequence && file == old(file)
      ensures FirstIs(submissions, |old(submissions)|, sequence)
      ensures flow.Continues? ==> |submissions| > |old(submissions)|
      ensures Submits(a, period) && a.fate.Lands? && a.crash.Never? ==> flow.Continues?
    {
      ghost var before := finalized;
      flow := Visit(sequence, period, a);
      if Submits(a, period) && a.fate.Lands? && a.crash.Never? { SmoothTurn(a, period, before, sequence); }
    }

    /** One turn of the outer loop: every known sequence from the next one on.
        Running out of answers means the process is killed there. */
    method Poll(period: nat, p: PollAnswers) returns (alive: bool)
      requires Valid() && forall k :: 0 <= k < |p.visits| ==> Honest(p.visits[k])
      modifies this
      ensures Grown() && (Settled(p) ==> unsettled == old(unsettled))
      ensures Smooth(p, old(nextSequence), period) ==> alive && nextSequence == Max(p.last.value + 1, old(nextSequence))
      ensures FirstIs(submissions, |old(submissions)|, old(nextSequence))
      ensures alive && submissions == old(submissions) ==> nextSequence == old(nextSequence)
      ensures nextSequence == old(nextSequence) ==> alive ==> file == old(file)
      ensures alive && nextSequence > old(nextSequence) ==> file == Saved(bridgeId, rollupChainId, nextSequence)
    {
      if p.last.None? { return false; }
      if p.last.value < nextSequence { return true; }
      var start := nextSequence;
      var sequence := start;
      while sequence <= p.last.value
        invariant Grown() && (Settled(p) ==> unsettled == old(unsettled))
        invariant start <= sequence == nextSequence <= p.last.value + 1 && sequence - start <= |p.visits|
        invariant FirstIs(submissions, |old(submissions)|, start)
        invariant sequence > start ==> |submissions| > |old(submissions)|
        invariant file == if sequence > start then Saved(bridgeId, rollupChainId, sequence) else old(file)
      {
        var k := sequence - start;
        if k >= |p.visits| { return false; }
        var flow := Turn(sequence, period, p.visits[k]);
        if flow.Dies? { return false; }
        if flow.Breaks? { return true; }
        sequence := sequence + 1;
      }
      alive := true;
    }

    /** One process: it starts from the file and polls until it is killed. Its first
        submission is for the sequence the file says. If nothing goes wrong it gets
        past every withdrawal its polls have seen. */
    method Live(life: Life)
      requires Valid() && HonestLife(life)
      modifies this
      ensures Grown() && (SettledLife(life) ==> unsettled == old(unsettled))
      ensures FirstIs(submissions, |old(submissions)|, old(Loaded()))
      ensures SmoothLife(life) ==> Passed(life, |life.polls|, nextSequence)
    {
      if life.periodText.None? { return; }
      var period := Durations.ParseDurationMs(life.periodText.value);
      if period.None? { return; }
      LoadState();
      for i := 0 to |life.polls|
        invariant Grown() && (SettledLife(life) ==> unsettled == old(unsettled))
        invariant SmoothLife(life) ==> Passed(life, i, nextSequence)
        invariant FirstIs(submissions, |old(submissions)|, old(Loaded()))
        invariant submissions == old(submissions) ==> nextSequence == old(Loaded())
      {
        var alive := Poll(period.value, life.polls[i]);
        if !alive { return; }
      }
    }

    /** Any number of crashes and restarts. Everything before the saved sequence
        is finalized exactly when the unsettled ones below it are, which is
        always so where no submission was left unsettled. A last life where
        nothing goes wrong still gets past everything it sees. */
    method Run(lives: seq<Life>)
      requires Valid() && forall i :: 0 <= i < |lives| ==> HonestLife(lives[i])
      modifies this
      ensures Grown()
      ensures AllBelow(Loaded(), finalized + unsettled)
      ensures AllBelow(Loaded(), finalized) <==> forall k :: 1 <= k < Loaded() && k in unsettled ==> k in finalized
      ensures (forall i :: 0 <= i < |lives| ==> SettledLife(lives[i])) ==> unsettled == old(unsettled)
      ensures lives != [] ==> var last := lives[|lives| - 1];
        SmoothLife(last) ==> Passed(last, |last.polls|, nextSequence)
    {
      for i := 0 to |lives|
        invariant Grown()
        invariant (forall k :: 0 <= k < |lives| ==> SettledLife(lives[k])) ==> unsettled == old(unsettled)
        invariant i > 0 && SmoothLife(lives[i - 1]) ==> Passed(lives[i - 1], |lives[i - 1].polls|, nextSequence)
      {
        Live(lives[i]);
      }
      FinalizedUnlessUnsettled(Loaded(), finalized, unsettled);
    }
  }

  // The n-th submission, if there is one, is for this sequence.
  predicate FirstIs(submissions: seq<Submission>, n: nat, sequence: nat) {
    |submissions| > n ==> submissions[n].sequence == sequence
  }

  // The submissions from the n-th on concern sequences from `least` on.
  ghost predicate NotBelow(submissions: seq<Submission>, n: nat, least: nat) {
    forall i :: n <= i < |submissions| ==> submissions[i].sequence >= least
  }

  datatype PollAnswers = PollAnswers(last: Option<nat>, visits: seq<Answers>)

  datatype Life = Life(periodText: Option<string>, polls: seq<PollAnswers>)

  predicate HonestLife(life: Life) {
    forall i, k :: 0 <= i < |life.polls| && 0 <= k < |life.polls[i].visits| ==> Honest(life.polls[i].visits[k])
  }

  // No submission is called a success without being one.
  predicate Settled(p: PollAnswers) {
    forall k :: 0 <= k < |p.visits| ==> !p.visits[k].fate.Unsettled?
  }

  predicate SettledLife(life: Life) {
    forall i :: 0 <= i < |life.polls| ==> Settled(life.polls[i])
  }

  function Max(a: nat, b: nat): nat { if a >= b then a else b }

  // Every known withdrawal is due and accepted, and nothing goes wrong.
  predicate Smooth(p: PollAnswers, start: nat, period: nat) {
    && p.last.Some? && |p.visits| + start > p.last.value
    && forall k :: 0 <= k < |p.visits| ==>
         Submits(p.visits[k], period) && p.visits[k].fate.Lands? && p.visits[k].crash.Never?
  }

  // The period can be read, and in every poll all known withdrawals are due and
  // accepted.
  ghost predicate SmoothLife(life: Life) {
    && life.periodText.Some? && Durations.Matches(life.periodText.value) != []
    && forall i :: 0 <= i < |life.polls| ==> Smooth(life.polls[i], 1, Durations.Amount(life.periodText.value))
  }

  // The loop has passed all withdrawals seen by the first n polls.
  predicate Passed(life: Life, n: nat, next: nat)
    requires n <= |life.polls|
  {
    forall i :: 0 <= i < n ==> life.polls[i].last.Some? && next > life.polls[i].last.value
  }

  // Whether this turn is the one that finalizes the sequence.
  predicate Wins(before: set<nat>, sequence: nat, period: nat, a: Answers) {
    Submits(a, period) && Takes(a.fate, sequence in before + a.others)
  }

  // Whether this turn calls the sequence a success and leaves it open.
  predicate Opens(before: set<nat>, sequence: nat, period: nat, a: Answers) {
    Submits(a, period) && LeavesOpen(a.fate, sequence in before + a.others)
  }

  function FinalizedAfter(before: set<nat>, sequence: nat, period: nat, a: Answers): set<nat> {
    before + a.others + (if Wins(before, sequence, period, a) then {sequence} else {})
  }

  function FlowAfter(before: set<nat>, sequence: nat, period: nat, a: Answers): Flow {
    if Submits(a, period) then
      AfterAnswer(Answer(a.fate, sequence in before + a.others), a.crash)
    else if a.withdrawal.None? then Dies
    else if !Ready(a.withdrawal.value) then Breaks
    else
      var available := AvailableAt(a.proposal, period);
      if available.Throws? then Dies
      else if available.Null? || MustWait(available, a.now) then Breaks
      else Dies
  }

  /** The clock stops mattering exactly when the output's time does not parse;
      otherwise a submission waits for that time plus the period. */
  lemma WaitsUnlessUnparseable(a: Answers, period: nat)
    requires Submits(a, period)
    ensures (forall now: int :: Submits(a.(now := now), period)) <==> a.proposal.Unparseable?
    ensures !a.proposal.Unparseable? ==> a.proposal.At? && a.now >= a.proposal.ms + period
  {
    if a.proposal.At? {
      assert !Submits(a.(now := a.proposal.ms + period - 1), period);
    } else {
      forall now: int ensures Submits(a.(now := now), period) {}
    }
  }

  /** The loop passes a sequence that is then finalized, except exactly where the
      command exits normally for one that L1 has not finalized. And a submission
      that landed without the file knowing is met as finalized by the next life,
      which passes it without a second finalization. */
  lemma PassedIsFinalized(before: set<nat>, sequence: nat, period: nat, a: Answers, b: Answers)
    requires Honest(a) && Honest(b)
    ensures FlowAfter(before, sequence, period, a).Continues? ==>
      (sequence in FinalizedAfter(before, sequence, period, a) <==>
         !(a.fate.Unsettled? && sequence !in before + a.others))
    ensures Wins(before, sequence, period, a) && Submits(b, period) && b.fate.Lands? && b.crash.Never?
      ==> FlowAfter(FinalizedAfter(before, sequence, period, a), sequence, period, b).Continues?
          && !Wins(FinalizedAfter(before, sequence, period, a), sequence, period, b)
  {
    if FlowAfter(before, sequence, period, a).Continues? {
      PassedIsCleared(a.fate, sequence, before + a.others);
    }
    if Submits(b, period) && b.fate.Lands? && b.crash.Never? {
      SmoothTurn(b, period, FinalizedAfter(before, sequence, period, a), sequence);
    }
  }

  // ------------------------------------------------------------ texts and turns

  /** A submission is made exactly for a withdrawal with all its proof data whose
      output's time has passed by the period, or does not parse. */
  lemma SubmitsExactly(a: Answers, period: nat)
    requires !a.crash.BeforeSubmit?
    ensures Submits(a, period) <==>
      && a.withdrawal.Some?
      && var w := a.withdrawal.value;
         && w.outputIndex >= 1 && w.proofs.Some? && w.proofs.value >= 1
         && w.storageRoot !in {None, Some("")} && w.lastBlockHash !in {None, Some("")}
         && (a.proposal.Unparseable? || (a.proposal.At? && a.proposal.ms + period <= a.now))
  {
  }

  // The texts of the query for an output that mean "ask again later".
  const PASSING := [
    "collections: not found", "502 Bad Gateway", "503 Service Unavailable", "504 Gateway Timeout",
    "invalid character", "context deadline exceeded", "connection refused", "EOF"]

  /** Without a submission the turn ends the poll, to be tried again, or the process:
      it ends the process exactly if the withdrawal cannot be read, its output has no
      time, or the query for it fails with a text that says nothing of the above. */
  lemma WaitsOrDies(before: set<nat>, sequence: nat, period: nat, a: Answers)
    requires !Submits(a, period) && !a.crash.BeforeSubmit?
    ensures var dead := a.withdrawal.None?
        || (Ready(a.withdrawal.value)
            && (a.proposal.Untimed?
                || (a.proposal.Unreadable? && forall i :: 0 <= i < 8 ==> !Includes(a.proposal.text, PASSING[i]))));
      FlowAfter(before, sequence, period, a) == if dead then Dies else Breaks
  {
    if a.proposal.Unreadable? {
      var t := a.proposal.text;
      assert (exists i :: 0 <= i < 8 && Includes(t, PASSING[i])) <==>
        || Includes(t, PASSING[0]) || Includes(t, PASSING[1]) || Includes(t, PASSING[2]) || Includes(t, PASSING[3])
        || Includes(t, PASSING[4]) || Includes(t, PASSING[5]) || Includes(t, PASSING[6]) || Includes(t, PASSING[7]);
    }
  }

  // A turn that submits and is refused with this text, not killed.
  predicate RefusedWith(before: set<nat>, sequence: nat, period: nat, a: Answers, text: string) {
    && Submits(a, period) && a.crash.Never?
    && Answer(a.fate, sequence in before + a.others) == Refused(text)
  }

  /** Refused with a text saying that the output has not finalized, the turn ends the
      poll and leaves the file, whatever else the text says. */
  lemma NotYetIsRetried(
    before: set<nat>, sequence: nat, period: nat, a: Answers, pre: string, post: string, file: StateFile,
    saved: StateFile)
    requires RefusedWith(before, sequence, period, a, pre + "output has not finalized" + post)
    ensures FlowAfter(before, sequence, period, a) == Breaks
    ensures FileAfter(file, Answer(a.fate, sequence in before + a.others), a.crash, saved) == file
  {
    SplitIncludes(pre, "output has not finalized", post);
  }

  /** Refused with a text saying that the withdrawal is finalized already, and not
      the other thing, it goes on and saves. */
  lemma AlreadyDoneIsPassed(
    before: set<nat>, sequence: nat, period: nat, a: Answers, pre: string, post: string, file: StateFile,
    saved: StateFile)
    requires var text := pre + "withdrawal already finalized" + post;
      && RefusedWith(before, sequence, period, a, text)
      && forall x: string, y: string :: text != x + "output has not finalized" + y
    ensures FlowAfter(before, sequence, period, a) == Continues
    ensures FileAfter(file, Answer(a.fate, sequence in before + a.others), a.crash, saved) == saved
  {
    var text := pre + "withdrawal already finalized" + post;
    SplitIncludes(pre, "withdrawal already finalized", post);
    if Includes(text, "output has not finalized") {
      var x, y := IncludesSplit(text, "output has not finalized");
      assert false;
    }
  }

  /** Refused with any other text, the process dies and leaves the file. */
  lemma OtherTextsDie(
    before: set<nat>, sequence: nat, period: nat, a: Answers, text: string, file: StateFile, saved: StateFile)
    requires RefusedWith(before, sequence, period, a, text)
    requires forall x: string, y: string ::
      text != x + "output has not finalized" + y && text != x + "withdrawal already finalized" + y
    ensures FlowAfter(before, sequence, period, a) == Dies
    ensures FileAfter(file, Answer(a.fate, sequence in before + a.others), a.crash, saved) == file
  {
    if Includes(text, "output has not finalized") {
      var x, y := IncludesSplit(text, "output has not finalized");
      assert false;
    }
    if Includes(text, "withdrawal already finalized") {
      var x, y := IncludesSplit(text, "withdrawal already finalized");
      assert false;
    }
  }

  /** On the finalizer itself: a sequence refused as not finalized is the one the next
      turn, and the next life, begins with. */
  method NotYetOnFile(f: WithdrawalFinalizer, sequence: nat, period: nat, a: Answers, pre: string, post: string)
    requires f.Valid() && sequence == f.nextSequence == f.Loaded() && Honest(a)
    requires RefusedWith(f.finalized, sequence, period, a, pre + "output has not finalized" + post)
    modifies f
    ensures f.Valid() && f.file == old(f.file) && f.nextSequence == f.Loaded() == sequence
    ensures f.finalized == old(f.finalized) + a.others + if a.fate.LandsUnseen? then {sequence} else {}
  {
    var flow := f.Visit(sequence, period, a);
    NotYetIsRetried(old(f.finalized), sequence, period, a, pre, post, old(f.file), f.file);
  }

  // ---------------------------------------------------------- concrete failures

  // A withdrawal whose output was proposed at time 0.
  function Due(proposal: Proposal, now: int, fate: Fate): Answers {
    Answers({}, Some(Withdrawal(1, Some(1), Some("r"), Some("h"))), proposal, now, fate, Never)
  }

  /** Sequence 1 is submitted, the command exits normally, L1 does not finalize:
      the file says 2 and sequence 1 is not finalized. */
  method UnsettledIsSaved() returns (f: WithdrawalFinalizer)
    ensures fresh(f) && f.Valid() && f.Loaded() == 2 && f.finalized == {} && f.unsettled == {1}
    ensures !AllBelow(f.Loaded(), f.finalized)
  {
    f := new WithdrawalFinalizer("1", "rollup", Missing, {});
    var flow := f.Visit(1, 0, Due(At(0), 0, Unsettled));
    assert 1 !in f.finalized;
  }

  lemma UnsettledIsPassed()
    ensures Honest(Due(At(0), 0, Unsettled))
    ensures FlowAfter({}, 1, 0, Due(At(0), 0, Unsettled)).Continues?
    ensures 1 !in FinalizedAfter({}, 1, 0, Due(At(0), 0, Unsettled))
  {
  }

  /** A day's period, the clock at zero: an unparseable time is not waited for,
      the time zero is. */
  lemma UnparseableIsNotAwaited()
    ensures Submits(Due(Unparseable, 0, Unsettled), 86400000)
    ensures !Submits(Due(At(0), 0, Unsettled), 86400000)
  {
  }
}

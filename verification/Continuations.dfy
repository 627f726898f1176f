/** The pending-continuation record and what one claim, completion or failure does to it,
  * as one atomic decision over the record that was read.
  */
module Continuations {
  import opened Basics
  import opened OptimisticStore

  datatype Status = Pending | Claimed | Completed | TerminalFailed

  /** One stored continuation. The fields no decision looks at travel in `blob`. */
  datatype Record = Record(
    status: Status, executionId: string, threadId: Option<string>, principal: string, blob: string,
    expiresAt: real, leaseUntil: Option<real>, keyHash: Option<string>, claimedBy: Option<string>,
    outcome: Option<string>, aqid: Option<string>, digest: Option<string>, errorDetail: Option<string>)

  datatype Op =
    | ClaimOp(executionId: string, keyHash: string, principal: string, threadId: Option<string>, leaseSeconds: real)
    | CompleteOp(executionId: string, outcome: string, aqid: Option<string>, digest: Option<string>)
    | FailOp(executionId: string, detail: Option<string>)

  /** `claimed`, `reclaimed`, `in_progress`, `completed` and `rejected`; `Returned` is the
    * bare return of a completion or a failure.
    */
  datatype Reply = ClaimedReply | Reclaimed | InProgress | CompletedReply(outcome: Option<string>) | Rejected | Returned

  /** The clock is read twice: once against the record's expiry, once against the lease. */
  datatype Clock = Clock(tExpiry: real, tLease: real)

  type Verdict = Decision<Record, Reply>

  const LEASE_EXPIRED := "lease_expired"

  function NewRecord(executionId: string, threadId: Option<string>, principal: string, blob: string, expiresAt: real): Record {
    Record(Pending, executionId, threadId, principal, blob, expiresAt, None, None, None, None, None, None, None)
  }

  predicate IsNew(r: Record) {
    r == NewRecord(r.executionId, r.threadId, r.principal, r.blob, r.expiresAt)
  }

  function Decide(read: Option<Record>, op: Op, clock: Clock): Verdict {
    match op
    case ClaimOp(executionId, keyHash, principal, threadId, leaseSeconds) =>
      if read.None? || clock.tExpiry > read.value.expiresAt then Decision(None, Rejected)
      else DecideClaim(read.value, op, clock.tLease)
    case CompleteOp(executionId, outcome, aqid, digest) =>
      if read.None? || read.value.executionId != executionId || !read.value.status.Claimed? then Decision(None, Returned)
      else Decision(Some(read.value.(status := Completed, outcome := Some(outcome), aqid := aqid, digest := digest)), Returned)
    case FailOp(executionId, detail) =>
      if read.None? || read.value.executionId != executionId || !read.value.status.Claimed? then Decision(None, Returned)
      else Decision(Some(read.value.(status := TerminalFailed, errorDetail := detail)), Returned)
  }

  function DecideClaim(r: Record, op: Op, tLease: real): Verdict
    requires op.ClaimOp?
  {
    if r.principal != op.principal then Decision(None, Rejected)
    else if r.threadId.Some? && r.threadId != op.threadId then Decision(None, Rejected)
    else match r.status
      case Pending =>
        Decision(Some(r.(status := Claimed, keyHash := Some(op.keyHash), claimedBy := Some(op.executionId),
                         leaseUntil := Some(tLease + op.leaseSeconds))), ClaimedReply)
      case Claimed =>
        if tLease > (if r.leaseUntil.Some? then r.leaseUntil.value else 0.0) then
          Decision(Some(r.(status := TerminalFailed, errorDetail := Some(LEASE_EXPIRED))), Rejected)
        else if r.keyHash != Some(op.keyHash) then Decision(None, Rejected)
        else if r.claimedBy == Some(op.executionId) then Decision(None, Reclaimed)
        else Decision(None, InProgress)
      case Completed =>
        if r.keyHash == Some(op.keyHash) then Decision(None, CompletedReply(r.outcome)) else Decision(None, Rejected)
      case TerminalFailed => Decision(None, Rejected)
  }

  type Effect = Event<Record, Op, Clock, Reply>

  type Continuation = Machine<Record, Op, Clock, Reply>

  type ContinuationStore = Store<Record, Op, Clock, Reply>

  ghost predicate IsContinuationStore(st: ContinuationStore) {
    st.decide == Decide && forall r :: st.creates(r) <==> IsNew(r)
  }

  // ----- event kinds -----

  predicate Claims(e: Effect) { e.op.ClaimOp? && e.decision.reply.ClaimedReply? }

  predicate Completes(e: Effect) { e.op.CompleteOp? && e.decision.write.Some? }

  predicate LeaseExpires(e: Effect) { e.op.ClaimOp? && e.decision.write.Some? && e.decision.reply.Rejected? }

  predicate Fails(e: Effect) { e.op.FailOp? && e.decision.write.Some? }

  // ----- the invariant of every run -----

  ghost predicate ClaimedFor(r: Record, op: Op)
    requires op.ClaimOp?
  {
    !r.status.Pending? && r.keyHash == Some(op.keyHash)
  }

  ghost predicate CompletedBy(r: Record, op: Op)
    requires op.CompleteOp?
  {
    && r.status.Completed? && r.executionId == op.executionId
    && r.outcome == Some(op.outcome) && r.aqid == op.aqid && r.digest == op.digest
  }

  /** The claim comes from the record's principal and, where the record names one, its thread. */
  ghost predicate MayHear(r: Record, op: Op)
    requires op.ClaimOp?
  {
    r.principal == op.principal && (r.threadId.None? || r.threadId == op.threadId)
  }

  /** What one logged event says about the record now. */
  ghost predicate Explained(r: Record, e: Effect) {
    && (Claims(e) ==> ClaimedFor(r, e.op) && r.claimedBy == Some(e.op.executionId))
    && (Completes(e) ==> CompletedBy(r, e.op))
    && (LeaseExpires(e) || Fails(e) ==> r.status.TerminalFailed?)
    && (e.decision.reply.CompletedReply? ==>
         e.op.ClaimOp? && ClaimedFor(r, e.op) && r.status.Completed? && e.decision.reply.outcome == r.outcome)
    && (e.decision.reply.Reclaimed? ==> e.op.ClaimOp? && ClaimedFor(r, e.op) && r.claimedBy == Some(e.op.executionId))
    && (e.decision.reply.InProgress? ==> e.op.ClaimOp? && ClaimedFor(r, e.op))
    && (e.op.ClaimOp? && !e.decision.reply.Rejected? ==> MayHear(r, e.op))
  }

  /** What it says about clock and fence: a claim sets the lease from its own clock, the lease is
    * found expired by a later clock, a failure comes from the creator and leaves its detail, and
    * only an unexpired record is answered.
    */
  ghost predicate Fenced(r: Record, e: Effect) {
    && (Claims(e) ==> r.leaseUntil == Some(e.clock.tLease + e.op.leaseSeconds))
    && (LeaseExpires(e) ==> r.errorDetail == Some(LEASE_EXPIRED) && r.leaseUntil.Some? && e.clock.tLease > r.leaseUntil.value)
    && (Fails(e) ==> FailedBy(r, e.op))
    && (e.op.ClaimOp? && !e.decision.reply.Rejected? ==> e.clock.tExpiry <= r.expiresAt)
  }

  ghost predicate FailedBy(r: Record, op: Op)
    requires op.FailOp?
  {
    r.status.TerminalFailed? && r.executionId == op.executionId && r.errorDetail == op.detail
  }

  ghost predicate LogFenced(m: Continuation) {
    m.value.Some? ==> forall i :: 0 <= i < |m.log| ==> Fenced(m.value.value, m.log[i])
  }

  /** An event that only read a missing or unusable record. */
  predicate Harmless(e: Effect) {
    e.decision.write.None? && (e.decision.reply.Rejected? || e.decision.reply.Returned?)
  }

  ghost predicate LogExplained(m: Continuation) {
    forall i :: 0 <= i < |m.log| ==> if m.value.Some? then Explained(m.value.value, m.log[i]) else Harmless(m.log[i])
  }

  predicate In(v: Option<Record>, status: Status) {
    v.Some? && v.value.status == status
  }

  /** What the record says about the log. */
  ghost predicate RecordExplained(m: Continuation) {
    && (m.value.Some? ==> m.created)
    && (m.value.Some? && !In(m.value, Pending) ==> exists i :: 0 <= i < |m.log| && Claims(m.log[i]))
    && (In(m.value, Completed) ==> m.value.value.outcome.Some? && exists i :: 0 <= i < |m.log| && Completes(m.log[i]))
    && (In(m.value, TerminalFailed) ==> exists i :: 0 <= i < |m.log| && (LeaseExpires(m.log[i]) || Fails(m.log[i])))
  }

  predicate Ends(e: Effect) { Completes(e) || LeaseExpires(e) || Fails(e) }

  /** The claim happens at most once, and so does the ending, whichever it is. */
  ghost predicate PhasesOnce(log: seq<Effect>) {
    && (forall i, j :: 0 <= i < |log| && 0 <= j < |log| && Claims(log[i]) && Claims(log[j]) ==> i == j)
    && (forall i, j :: 0 <= i < |log| && 0 <= j < |log| && Ends(log[i]) && Ends(log[j]) ==> i == j)
  }

  /** Completions and failures return nothing, claims always answer. */
  ghost predicate RepliesFit(log: seq<Effect>) {
    forall i :: 0 <= i < |log| ==> (log[i].op.ClaimOp? <==> !log[i].decision.reply.Returned?)
  }

  ghost predicate ContinuationInv(m: Continuation) {
    LogExplained(m) && LogFenced(m) && RecordExplained(m) && PhasesOnce(m.log) && RepliesFit(m.log)
  }

  lemma EffectKeepsLog(st: ContinuationStore, m: Continuation, m': Continuation, call: nat, op: Op, clock: Clock)
    requires LogExplained(m) && RepliesFit(m.log) && st.decide == Decide && EffectStep(st, m, m', call, op, clock)
    ensures LogExplained(m') && RepliesFit(m'.log)
  {
    var d := Decide(m.value, op, clock);
    forall i | 0 <= i < |m'.log| ensures m'.log[i] == if i < |m.log| then m.log[i] else Event(call, op, clock, d) {}
  }

  /** A record that is not pending carries the lease of its claim. */
  lemma HasLease(m: Continuation)
    requires LogFenced(m) && RecordExplained(m) && m.value.Some? && !In(m.value, Pending)
    ensures m.value.value.leaseUntil.Some?
  {
    var i :| 0 <= i < |m.log| && Claims(m.log[i]);
    assert Fenced(m.value.value, m.log[i]);
  }

  lemma EffectKeepsFence(st: ContinuationStore, m: Continuation, m': Continuation, call: nat, op: Op, clock: Clock)
    requires LogExplained(m) && LogFenced(m) && RecordExplained(m) && st.decide == Decide && EffectStep(st, m, m', call, op, clock)
    ensures LogFenced(m')
  {
    hide RecordExplained;
    var d := Decide(m.value, op, clock);
    if m.value.Some? && !In(m.value, Pending) {
      HasLease(m);
    }
    if m'.value.Some? {
      forall i | 0 <= i < |m'.log| ensures Fenced(m'.value.value, m'.log[i]) {
        if i < |m.log| {
          assert m'.log[i] == m.log[i] && Explained(m.value.value, m.log[i]) && Fenced(m.value.value, m.log[i]);
        } else {
          assert m'.log[i] == Event(call, op, clock, d);
        }
      }
    }
  }

  lemma CreateKeepsFence(st: ContinuationStore, m: Continuation, m': Continuation)
    requires IsContinuationStore(st) && LogExplained(m) && RecordExplained(m) && RepliesFit(m.log) && CreateStep(st, m, m')
    ensures LogFenced(m')
  {}

  lemma EffectKeepsRecord(st: ContinuationStore, m: Continuation, m': Continuation, call: nat, op: Op, clock: Clock)
    requires LogExplained(m) && RecordExplained(m) && st.decide == Decide && EffectStep(st, m, m', call, op, clock)
    ensures RecordExplained(m')
  {
    assert m'.log[|m.log|] == Event(call, op, clock, Decide(m.value, op, clock));
    if m.value.Some? && !In(m.value, Pending) {
      var i :| 0 <= i < |m.log| && Claims(m.log[i]);
      assert Claims(m'.log[i]);
      if In(m.value, Completed) {
        var j :| 0 <= j < |m.log| && Completes(m.log[j]);
        assert Completes(m'.log[j]);
      }
      if In(m.value, TerminalFailed) {
        var j :| 0 <= j < |m.log| && (LeaseExpires(m.log[j]) || Fails(m.log[j]));
        assert LeaseExpires(m'.log[j]) || Fails(m'.log[j]);
      }
    }
  }

  lemma EffectKeepsPhases(st: ContinuationStore, m: Continuation, m': Continuation, call: nat, op: Op, clock: Clock)
    requires LogExplained(m) && PhasesOnce(m.log) && st.decide == Decide && EffectStep(st, m, m', call, op, clock)
    ensures PhasesOnce(m'.log)
  {
    var e := Event(call, op, clock, Decide(m.value, op, clock));
    forall i | 0 <= i < |m.log| ensures m'.log[i] == m.log[i] && !(Claims(e) && Claims(m.log[i])) && !(Ends(e) && Ends(m.log[i])) {}
  }

  lemma StepKeepsInv(st: ContinuationStore, m: Continuation, m': Continuation)
    requires IsContinuationStore(st) && ContinuationInv(m) && MachineStep(st, m, m')
    ensures ContinuationInv(m')
  {
    if CreateStep(st, m, m') {
      CreateKeepsFence(st, m, m');
    } else {
      var call, op, clock :| EffectStep(st, m, m', call, op, clock);
      EffectKeepsFence(st, m, m', call, op, clock);
      EffectKeepsLog(st, m, m', call, op, clock);
      EffectKeepsRecord(st, m, m', call, op, clock);
      EffectKeepsPhases(st, m, m', call, op, clock);
    }
  }

  /** Later states of one continuation: it stays created, its creator, owner and expiry stay, and
    * a terminal record is frozen whole.
    */
  ghost predicate Follows(m: Continuation, m': Continuation) {
    m.value.Some? && m.created ==>
      && m'.value.Some? && m'.created
      && SameIdentity(m.value.value, m'.value.value)
      && (In(m.value, Completed) || In(m.value, TerminalFailed) ==> m'.value == m.value)
  }

  ghost predicate SameIdentity(r: Record, r': Record) {
    NewRecord(r.executionId, r.threadId, r.principal, r.blob, r.expiresAt) == NewRecord(r'.executionId, r'.threadId, r'.principal, r'.blob, r'.expiresAt)
  }

  lemma StepFollows(st: ContinuationStore, m0: Continuation, m: Continuation, m': Continuation)
    requires IsContinuationStore(st) && Follows(m0, m) && MachineStep(st, m, m')
    ensures Follows(m0, m')
  {}

  /** A claim holds for its lease: a later claim by the same principal on the same thread fails the
    * record exactly when its clock has passed the first claim's by more than the lease, and until
    * then is told by key and execution which claim it met.
    */
  lemma LeaseHeldUntil(r: Record, first: Op, clock: Clock, second: Op, later: Clock)
    requires r.status.Pending? && first.ClaimOp? && second.ClaimOp? && MayHear(r, first) && MayHear(r, second)
    requires clock.tExpiry <= r.expiresAt && later.tExpiry <= r.expiresAt
    ensures var held := Decide(Some(r), first, clock).write;
      var d := Decide(held, second, later);
      && held.Some? && held.value.status.Claimed?
      && (d.write.Some? <==> later.tLease > clock.tLease + first.leaseSeconds)
      && (d.write.Some? ==> d.write.value.status.TerminalFailed? && d.reply.Rejected?)
      && (d.write.None? ==>
           (d.reply.Rejected? <==> second.keyHash != first.keyHash) &&
           (d.reply.Reclaimed? <==> second.keyHash == first.keyHash && second.executionId == first.executionId))
  {}

  /** From creation to retry: the claim is told "claimed", its creator completes, and a later claim of
    * the same principal and thread, while the record lives, hears the outcome exactly when it brings
    * the winning key, and changes nothing either way.
    */
  lemma RetryHearsOutcome(r: Record, claim: Op, clock: Clock, done: Op, between: Clock, retry: Op, later: Clock)
    requires IsNew(r) && claim.ClaimOp? && done.CompleteOp? && retry.ClaimOp? && MayHear(r, claim) && MayHear(r, retry)
    requires done.executionId == r.executionId && clock.tExpiry <= r.expiresAt && later.tExpiry <= r.expiresAt
    ensures var claimed := Decide(Some(r), claim, clock);
      var completed := Decide(claimed.write, done, between);
      var retried := Decide(completed.write, retry, later);
      && claimed.reply.ClaimedReply? && completed.write.Some? && completed.reply.Returned?
      && retried == Decision(None, if retry.keyHash == claim.keyHash then CompletedReply(Some(done.outcome)) else Rejected)
  {}

  /** Completion is fenced on the creating execution, not on the claiming one: it takes effect
    * exactly when the record is claimed and the caller is the execution that created it.
    */
  lemma CompletionFence(read: Option<Record>, op: Op, clock: Clock)
    requires op.CompleteOp?
    ensures Decide(read, op, clock).write.Some? <==> In(read, Claimed) && read.value.executionId == op.executionId
  {}

  /** So is failure. */
  lemma FailureFence(read: Option<Record>, op: Op, clock: Clock)
    requires op.FailOp?
    ensures Decide(read, op, clock).write.Some? <==> In(read, Claimed) && read.value.executionId == op.executionId
  {}

  /** The claiming execution, when it is not the creating one, cannot complete its own claim. */
  lemma ClaimantAloneCannotComplete(r: Record, claim: Op, done: Op, clock: Clock)
    requires claim.ClaimOp? && done.CompleteOp? && done.executionId == claim.executionId != r.executionId
    requires r.status.Pending? && clock.tExpiry <= r.expiresAt && MayHear(r, claim)
    ensures var d := Decide(Some(r), claim, clock);
      d.reply.ClaimedReply? && Decide(d.write, done, clock).write.None?
  {}
}

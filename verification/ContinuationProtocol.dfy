/** The Redis continuation methods under every interleaving: safety over whole runs. */
module ContinuationProtocol {
  import opened Basics
  import opened OptimisticStore
  import opened Continuations

  type Run = seq<System<Record, Op, Clock, Reply>>

  lemma RunContinuationInv(st: ContinuationStore, run: Run, k: nat)
    requires IsContinuationStore(st) && IsRun(st, run) && k < |run|
    ensures ContinuationInv(Abstract(run[k]))
  {
    hide ContinuationInv, MachineStep, IsRun, IsContinuationStore;
    EmptyInv();
    var inv := (m: Continuation) => ContinuationInv(m);
    forall m, m' | inv(m) && MachineStep(st, m, m') ensures inv(m') {
      StepKeepsInv(st, m, m');
    }
    MachineInvariantHolds(st, run, k, inv);
  }

  lemma EmptyInv()
    ensures ContinuationInv(Machine(None, false, []))
  {}

  /** At most one call is ever told "claimed". */
  lemma AtMostOneClaimed(st: ContinuationStore, run: Run, k: nat, a: nat, b: nat)
    requires IsContinuationStore(st) && IsRun(st, run) && k < |run|
    requires Told(run[k], a, ClaimedReply) && Told(run[k], b, ClaimedReply)
    ensures a == b
  {
    hide IsRun, LogExplained, RecordExplained;
    RunContinuationInv(st, run, k);
    var i := ToldTookEffect(st, run, k, a, ClaimedReply);
    var j := ToldTookEffect(st, run, k, b, ClaimedReply);
    assert Claims(run[k].log[i]) && Claims(run[k].log[j]);
  }

  /** "completed" always carries the one stored outcome, and only the winning idempotency key hears it. */
  lemma CompletedRepliesFaithful(st: ContinuationStore, run: Run, k: nat, a: nat, outcome: Option<string>)
    requires IsContinuationStore(st) && IsRun(st, run) && k < |run| && Told(run[k], a, CompletedReply(outcome))
    ensures In(run[k].key.value, Completed) && outcome.Some? && run[k].key.value.value.outcome == outcome
    ensures run[k].calls[a].op.ClaimOp? && run[k].key.value.value.keyHash == Some(run[k].calls[a].op.keyHash)
  {
    hide IsRun, PhasesOnce;
    RunContinuationInv(st, run, k);
    var i := ToldTookEffect(st, run, k, a, CompletedReply(outcome));
    var m := Abstract(run[k]);
    assert m.value.Some? ==> Explained(m.value.value, m.log[i]);
  }

  /** Whoever is told anything but "rejected" by a claim is the record's own principal, on its thread,
    * and asked before the record expired.
    */
  lemma AnswersOnlyItsOwner(st: ContinuationStore, run: Run, k: nat, a: nat, reply: Reply) returns (i: nat)
    requires IsContinuationStore(st) && IsRun(st, run) && k < |run| && Told(run[k], a, reply)
    requires run[k].calls[a].op.ClaimOp? && !reply.Rejected?
    ensures run[k].key.value.Some? && MayHear(run[k].key.value.value, run[k].calls[a].op)
    ensures i < |run[k].log| && run[k].log[i].call == a && run[k].log[i].clock.tExpiry <= run[k].key.value.value.expiresAt
  {
    hide IsRun, PhasesOnce, RecordExplained;
    RunContinuationInv(st, run, k);
    i := ToldTookEffect(st, run, k, a, reply);
    var m := Abstract(run[k]);
    assert m.value.Some? ==> Explained(m.value.value, m.log[i]);
  }

  lemma RunFollows(st: ContinuationStore, run: Run, i: nat, k: nat)
    requires IsContinuationStore(st) && IsRun(st, run) && i <= k < |run|
    ensures Follows(Abstract(run[i]), Abstract(run[k]))
  {
    hide Follows, MachineStep, IsRun, IsContinuationStore;
    var rel := (m: Continuation, m': Continuation) => Follows(m, m');
    FollowsSelf(Abstract(run[i]));
    forall m, m' | rel(Abstract(run[i]), m) && MachineStep(st, m, m') ensures rel(Abstract(run[i]), m') {
      StepFollows(st, Abstract(run[i]), m, m');
    }
    MachineRelationHolds(st, run, i, k, rel);
  }

  lemma FollowsSelf(m: Continuation)
    ensures Follows(m, m)
  {}

  /** COMPLETED and TERMINAL_FAILED are absorbing over the whole rest of the run. */
  lemma TerminalAbsorbing(st: ContinuationStore, run: Run, i: nat, k: nat)
    requires IsContinuationStore(st) && IsRun(st, run) && i <= k < |run|
    requires In(run[i].key.value, Completed) || In(run[i].key.value, TerminalFailed)
    ensures run[k].key.value == run[i].key.value
  {
    hide IsRun, LogExplained, PhasesOnce, RepliesFit;
    RunContinuationInv(st, run, i);
    RunFollows(st, run, i, k);
  }

  /** After a claim that found the lease expired no completion ever takes effect, then or later,
    * and nobody is ever told "completed".
    */
  lemma LeaseExpiryIsFinal(st: ContinuationStore, run: Run, k: nat, i: nat)
    requires IsContinuationStore(st) && IsRun(st, run) && k < |run| && i < |run[k].log| && LeaseExpires(run[k].log[i])
    ensures forall j :: 0 <= j < |run[k].log| ==> !Completes(run[k].log[j])
    ensures forall a, outcome :: !Told(run[k], a, CompletedReply(outcome))
  {
    hide IsRun;
    RunContinuationInv(st, run, k);
    var m := Abstract(run[k]);
    assert m.value.Some? ==> Explained(m.value.value, m.log[i]);
    forall a, outcome ensures !Told(run[k], a, CompletedReply(outcome)) {
      if Told(run[k], a, CompletedReply(outcome)) {
        CompletedRepliesFaithful(st, run, k, a, outcome);
      }
    }
  }

  /** A completed record was completed exactly once, by the execution that created it, with the
    * outcome, query id and digest it stores.
    */
  lemma CompletedByCreator(st: ContinuationStore, run: Run, k: nat) returns (i: nat)
    requires IsContinuationStore(st) && IsRun(st, run) && k < |run| && In(run[k].key.value, Completed)
    ensures i < |run[k].log| && Completes(run[k].log[i]) && CompletedBy(run[k].key.value.value, run[k].log[i].op)
    ensures forall j :: 0 <= j < |run[k].log| && Completes(run[k].log[j]) ==> j == i
  {
    hide IsRun, RepliesFit;
    RunContinuationInv(st, run, k);
    var m := Abstract(run[k]);
    i :| 0 <= i < |m.log| && Completes(m.log[i]);
    assert Explained(m.value.value, m.log[i]);
  }

  /** A failure that took effect came from the execution that created the record, in every state. */
  lemma FailsOnlyByCreator(st: ContinuationStore, run: Run, k: nat, i: nat)
    requires IsContinuationStore(st) && IsRun(st, run) && k < |run| && i < |run[k].log| && Fails(run[k].log[i])
    ensures In(run[k].key.value, TerminalFailed) && FailedBy(run[k].key.value.value, run[k].log[i].op)
  {
    hide IsRun, RepliesFit;
    RunContinuationInv(st, run, k);
    var m := Abstract(run[k]);
    assert m.value.Some? ==> Fenced(m.value.value, m.log[i]) && Explained(m.value.value, m.log[i]);
  }

  /** A terminally failed record was ended exactly once: by a failure of its creator, whose detail it
    * holds, or by a claim whose clock had passed the clock of the one claim by more than the lease.
    */
  lemma FailureExplained(st: ContinuationStore, run: Run, k: nat) returns (i: nat, claim: nat)
    requires IsContinuationStore(st) && IsRun(st, run) && k < |run| && In(run[k].key.value, TerminalFailed)
    ensures i < |run[k].log| && claim < |run[k].log| && Claims(run[k].log[claim])
    ensures forall j :: 0 <= j < |run[k].log| && Ends(run[k].log[j]) ==> j == i
    ensures var r, e, first := run[k].key.value.value, run[k].log[i], run[k].log[claim];
      || (Fails(e) && e.op.executionId == r.executionId && r.errorDetail == e.op.detail)
      || (LeaseExpires(e) && r.errorDetail == Some(LEASE_EXPIRED) && e.clock.tLease > first.clock.tLease + first.op.leaseSeconds)
  {
    hide IsRun, RepliesFit;
    RunContinuationInv(st, run, k);
    var m := Abstract(run[k]);
    i :| 0 <= i < |m.log| && (LeaseExpires(m.log[i]) || Fails(m.log[i]));
    claim :| 0 <= claim < |m.log| && Claims(m.log[claim]);
    assert Fenced(m.value.value, m.log[i]) && Fenced(m.value.value, m.log[claim]);
  }
}

/** `InMemoryConversationStore`: the atomic form of the store, its state updated in place, and
  * exactly where it agrees with the Redis form.
  */
module InMemoryStore {
  import opened Basics
  import opened OptimisticStore
  import C = Continuations
  import T = Transcripts

  /** What the in-memory store does with a thread: an expired one is dropped before anything else. */
  function Outcome(p: T.Policy, read: Option<T.Thread>, w: T.Write, at: T.Times): (Option<T.Thread>, T.Answer) {
    var live := if read.Some? && T.Expired(p, read.value, at.tExpiry) then None else read;
    if live.Some? && !T.Owns(live.value, w.user, w.entityId) then (live, T.OwnershipError)
    else match w
      case Append(user, entityId, turns, startedAt) =>
        var thread := if live.Some? then live.value else T.NewThread(user, entityId, startedAt, at.tCreate);
        (Some(T.Extend(p, thread, turns)), T.Stored(live.None?))
      case Replace(user, entityId, target, question, contextMode, turns) =>
        if live.None? || !T.TailMatches(live.value.turns, target, question, contextMode) then (live, T.RegenerateConflict)
        else (Some(T.ReplaceTail(p, live.value, turns)), T.Stored(false))
  }

  function RedisOutcome(p: T.Policy, read: Option<T.Thread>, w: T.Write, at: T.Times): (Option<T.Thread>, T.Answer) {
    var d := T.Decide(p, read, w, at);
    (Applied(read, d.write), d.reply)
  }

  /** The two stores agree exactly when the thread is missing or unexpired, or the write is an
    * append by the thread's owner.
    */
  lemma StoresAgreeIff(p: T.Policy, read: Option<T.Thread>, w: T.Write, at: T.Times)
    ensures Outcome(p, read, w, at) == RedisOutcome(p, read, w, at) <==>
      read.None? || !T.Expired(p, read.value, at.tExpiry) || (w.Append? && T.Owns(read.value, w.user, w.entityId))
  {}

  /** To the in-memory store a thread that has outlived its time is as good as missing: an append
    * begins it anew for whoever writes, and a regenerate conflicts and leaves nothing.
    */
  lemma OutlivedIsMissing(p: T.Policy, t: T.Thread, w: T.Write, at: T.Times)
    requires T.Outlived(p, t.createdAt, at.tExpiry)
    ensures Outcome(p, Some(t), w, at) == Outcome(p, None, w, at)
    ensures w.Replace? ==> Outcome(p, Some(t), w, at) == (None, T.RegenerateConflict)
    ensures w.Append? ==>
      var (after, answer) := Outcome(p, Some(t), w, at);
      answer == T.Stored(true) && after.Some? && after.value.owner == w.user && after.value.entityId == w.entityId
  {}

  class InMemoryConversationStore {
    const policy: T.Policy
    var records: map<string, T.Thread>
    var continuations: map<string, C.Record>

    constructor (policy: T.Policy)
      ensures this.policy == policy && records == map[] && continuations == map[]
    {
      this.policy := policy;
      records, continuations := map[], map[];
    }

    ghost function ThreadAt(threadId: string): Option<T.Thread>
      reads this
    {
      if threadId in records then Some(records[threadId]) else None
    }

    ghost function ContinuationAt(jti: string): Option<C.Record>
      reads this
    {
      if jti in continuations then Some(continuations[jti]) else None
    }

    /** `_check_owner`: drop an expired thread, refuse another owner's. */
    method CheckOwner(threadId: string, user: string, entityId: Option<int>, now: real) returns (ok: bool)
      modifies this`records
      ensures var was := old(ThreadAt(threadId));
        && (was.Some? && T.Outlived(policy, was.value.createdAt, now) ==> ok && records == old(records) - {threadId})
        && (was.Some? && !T.Outlived(policy, was.value.createdAt, now) ==> records == old(records) && (ok <==> T.Owns(was.value, user, entityId)))
        && (was.None? ==> ok && records == old(records))
    {
      ok := true;
      if threadId in records {
        var record := records[threadId];
        if T.Expired(policy, record, now) {
          records := records - {threadId};
        } else if !T.Owns(record, user, entityId) {
          ok := false;
        }
      }
    }

    method Load(threadId: string, user: string, entityId: Option<int>, now: real) returns (turns: Option<seq<T.Turn>>)
      modifies this`records
      ensures var was := old(ThreadAt(threadId));
        if was.None? || T.Outlived(policy, was.value.createdAt, now) then turns == Some([]) && ThreadAt(threadId) == None
        else ThreadAt(threadId) == was && turns == if T.Owns(was.value, user, entityId) then Some(was.value.turns) else None
      ensures forall other :: other != threadId ==> ThreadAt(other) == old(ThreadAt(other))
    {
      if threadId !in records {
        return Some([]);
      }
      var record := records[threadId];
      if T.Expired(policy, record, now) {
        records := records - {threadId};
        return Some([]);
      }
      var ok := CheckOwner(threadId, user, entityId, now);
      turns := if ok then Some(record.turns) else None;
    }

    method Append(threadId: string, w: T.Write, at: T.Times) returns (answer: T.Answer)
      requires w.Append?
      modifies this`records
      ensures (ThreadAt(threadId), answer) == Outcome(policy, old(ThreadAt(threadId)), w, at)
      ensures forall other :: other != threadId ==> ThreadAt(other) == old(ThreadAt(other))
    {
      var ok := CheckOwner(threadId, w.user, w.entityId, at.tExpiry);
      if !ok {
        return T.OwnershipError;
      }
      answer := T.Stored(threadId !in records);
      if threadId !in records {
        records := records[threadId := T.NewThread(w.user, w.entityId, w.startedAt, at.tCreate)];
      }
      records := records[threadId := T.Extend(policy, records[threadId], w.turns)];
    }

    method ReplaceLatestExchange(threadId: string, w: T.Write, at: T.Times) returns (answer: T.Answer)
      requires w.Replace?
      modifies this`records
      ensures (ThreadAt(threadId), answer) == Outcome(policy, old(ThreadAt(threadId)), w, at)
      ensures forall other :: other != threadId ==> ThreadAt(other) == old(ThreadAt(other))
    {
      var ok := CheckOwner(threadId, w.user, w.entityId, at.tExpiry);
      if !ok {
        return T.OwnershipError;
      }
      if threadId !in records || !T.TailMatches(records[threadId].turns, w.target, w.question, w.contextMode) {
        return T.RegenerateConflict;
      }
      records := records[threadId := T.ReplaceTail(policy, records[threadId], w.turns)];
      answer := T.Stored(false);
    }

    method CreatePendingContinuation(jti: string, executionId: string, threadId: Option<string>, principal: string, blob: string, expiresAt: real)
      modifies this`continuations
      ensures continuations == old(continuations)[jti := C.NewRecord(executionId, threadId, principal, blob, expiresAt)]
    {
      continuations := continuations[jti := C.NewRecord(executionId, threadId, principal, blob, expiresAt)];
    }

    /** `claim_pending_continuation`: the atomic decision, except that an expired record is dropped. */
    method ClaimPendingContinuation(jti: string, op: C.Op, clock: C.Clock) returns (reply: C.Reply)
      requires op.ClaimOp?
      modifies this`continuations
      ensures reply == C.Decide(old(ContinuationAt(jti)), op, clock).reply
      ensures var was := old(ContinuationAt(jti));
        ContinuationAt(jti) == if was.Some? && clock.tExpiry > was.value.expiresAt then None else Applied(was, C.Decide(was, op, clock).write)
      ensures forall other :: other != jti ==> ContinuationAt(other) == old(ContinuationAt(other))
    {
      if jti !in continuations {
        return C.Rejected;
      }
      var state := continuations[jti];
      if clock.tExpiry > state.expiresAt {
        continuations := continuations - {jti};
        return C.Rejected;
      }
      if state.principal != op.principal {
        return C.Rejected;
      }
      if state.threadId.Some? && state.threadId != op.threadId {
        return C.Rejected;
      }
      match state.status
      case Pending =>
        continuations := continuations[jti := state.(status := C.Claimed, keyHash := Some(op.keyHash),
                                                    claimedBy := Some(op.executionId), leaseUntil := Some(clock.tLease + op.leaseSeconds))];
        reply := C.ClaimedReply;
      case Claimed =>
        if clock.tLease > (if state.leaseUntil.Some? then state.leaseUntil.value else 0.0) {
          continuations := continuations[jti := state.(status := C.TerminalFailed, errorDetail := Some(C.LEASE_EXPIRED))];
          reply := C.Rejected;
        } else if state.keyHash != Some(op.keyHash) {
          reply := C.Rejected;
        } else if state.claimedBy == Some(op.executionId) {
          reply := C.Reclaimed;
        } else {
          reply := C.InProgress;
        }
      case Completed =>
        reply := if state.keyHash == Some(op.keyHash) then C.CompletedReply(state.outcome) else C.Rejected;
      case TerminalFailed =>
        reply := C.Rejected;
    }

    method CompletePendingContinuation(jti: string, op: C.Op, ghost clock: C.Clock)
      requires op.CompleteOp?
      modifies this`continuations
      ensures ContinuationAt(jti) == Applied(old(ContinuationAt(jti)), C.Decide(old(ContinuationAt(jti)), op, clock).write)
      ensures forall other :: other != jti ==> ContinuationAt(other) == old(ContinuationAt(other))
    {
      if jti !in continuations || continuations[jti].executionId != op.executionId {
        return;
      }
      if continuations[jti].status != C.Claimed {
        return;
      }
      continuations := continuations[jti := continuations[jti].(status := C.Completed, outcome := Some(op.outcome), aqid := op.aqid, digest := op.digest)];
    }

    method FailPendingContinuation(jti: string, op: C.Op, ghost clock: C.Clock)
      requires op.FailOp?
      modifies this`continuations
      ensures ContinuationAt(jti) == Applied(old(ContinuationAt(jti)), C.Decide(old(ContinuationAt(jti)), op, clock).write)
      ensures forall other :: other != jti ==> ContinuationAt(other) == old(ContinuationAt(other))
    {
      if jti !in continuations || continuations[jti].executionId != op.executionId {
        return;
      }
      if continuations[jti].status != C.Claimed {
        return;
      }
      continuations := continuations[jti := continuations[jti].(status := C.TerminalFailed, errorDetail := op.detail)];
    }
  }
}

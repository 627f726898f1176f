/** Case repeats: the two sinks' operations on one journal, and what every run of them keeps. */
module CaseRepeats {
  import opened Basics
  import opened Journaling

  datatype Start = Start(
    id: string, key: string, project: string, runEpoch: string, caseId: string, repeatIndex: nat,
    owner: string, epoch: nat, expires: int, startedAt: int)

  datatype TerminalPayload = TerminalPayload(terminalClass: string, code: string, plannerAttempt: Option<string>, answer: Option<string>, finishedAt: int)

  type Entry = JournalState<Start, TerminalPayload>

  /** Entries by case repeat id, and ids by idempotency key. */
  datatype Journal = Journal(entries: map<string, Entry>, keys: map<string, string>)

  datatype Sink = Memory | Sql

  datatype Op =
    | StartOp(start: Start, digest: string)
    | FinishOp(id: string, expected: nat, terminal: Terminal<TerminalPayload>)
    | ClaimOp(id: string, owner: string, now: int, expires: int)

  datatype Reply = Started(id: string) | Finished | Claimed(epoch: nat) | Failed(reason: Reason)

  function Candidate(s: Start, digest: string): Entry {
    JournalState(s, digest, s.epoch, s.owner, s.expires, None)
  }

  function At<V>(m: map<string, V>, k: string): Option<V> {
    if k in m then Some(m[k]) else None
  }

  function Add(j: Journal, s: Start, digest: string): Journal {
    Journal(j.entries[s.id := Candidate(s, digest)], j.keys[s.key := s.id])
  }

  /** The in-memory start. An empty prior id counts as no prior start (`if prior_id`). */
  function MemoryStart(j: Journal, s: Start, digest: string): (Journal, Reply) {
    var prior := At(j.keys, s.key);
    var byKey := if prior.Some? && prior.value != "" then At(j.entries, prior.value) else None;
    match StartEntry(Candidate(s, digest), byKey, At(j.entries, s.id))
    case Refused(reason) => (j, Failed(reason))
    case Done(_) => if prior.Some? then (j, Started(prior.value)) else (Add(j, s, digest), Started(s.id))
  }

  predicate SameIdentity(a: Start, b: Start) {
    a.project == b.project && a.runEpoch == b.runEpoch && a.caseId == b.caseId && a.repeatIndex == b.repeatIndex
  }

  /** Another start of the same project, run, case and repeat is stored. */
  ghost predicate IdentityTaken(j: Journal, s: Start) {
    exists id :: id in j.entries && SameIdentity(j.entries[id].start, s)
  }

  /** The Postgres start: the key is the insert's conflict target, while a second row for the id or
    * for the identity breaks a unique constraint.
    */
  ghost function SqlStart(j: Journal, s: Start, digest: string): (Journal, Reply) {
    if s.key in j.keys then
      if j.keys[s.key] in j.entries && j.entries[j.keys[s.key]].startDigest == digest then (j, Started(j.keys[s.key]))
      else (j, Failed(DigestMismatch))
    else if s.id in j.entries then (j, Failed(EntryExists))
    else if IdentityTaken(j, s) then (j, Failed(IdentityExists))
    else (Add(j, s, digest), Started(s.id))
  }

  /** Both sinks. They name a missing entry differently. */
  function Finish(sink: Sink, j: Journal, id: string, expected: nat, terminal: Terminal<TerminalPayload>): (Journal, Reply) {
    if id !in j.entries then (j, Failed(if sink.Memory? then NotFound else StaleEpoch))
    else match CommitTerminal(j.entries[id], expected, terminal)
      case Refused(reason) => (j, Failed(reason))
      case Done(entry) => (j.(entries := j.entries[id := entry]), Finished)
  }

  function Claim(j: Journal, id: string, owner: string, now: int, expires: int): (Journal, Reply) {
    if id !in j.entries then (j, Failed(NotFound))
    else match ReclaimLease(j.entries[id], now, owner, expires)
      case Refused(reason) => (j, Failed(reason))
      case Done(entry) => (j.(entries := j.entries[id := entry]), Claimed(entry.epoch))
  }

  ghost function Apply(sink: Sink, j: Journal, op: Op): (Journal, Reply) {
    match op
    case StartOp(s, digest) => if sink.Memory? then MemoryStart(j, s, digest) else SqlStart(j, s, digest)
    case FinishOp(id, expected, terminal) => Finish(sink, j, id, expected, terminal)
    case ClaimOp(id, owner, now, expires) => Claim(j, id, owner, now, expires)
  }

  // ----- runs -----

  /** The journal after all of `ops`, from an empty one. Each operation is one locked section or
    * one transaction holding the entry's row lock.
    */
  ghost function After(sink: Sink, ops: seq<Op>): Journal {
    if ops == [] then Journal(map[], map[])
    else Apply(sink, After(sink, ops[..|ops| - 1]), ops[|ops| - 1]).0
  }

  ghost function ReplyAt(sink: Sink, ops: seq<Op>, k: nat): Reply
    requires k < |ops|
  {
    Apply(sink, After(sink, ops[..k]), ops[k]).1
  }

  /** Successful takeovers of `id`. */
  ghost function Takeovers(sink: Sink, ops: seq<Op>, id: string): nat {
    if ops == [] then 0
    else
      var k := |ops| - 1;
      Takeovers(sink, ops[..k], id) + (if ops[k].ClaimOp? && ops[k].id == id && ReplyAt(sink, ops, k).Claimed? then 1 else 0)
  }

  // ----- what one operation keeps -----

  /** The key index is exactly the entries' own keys. */
  ghost predicate KeysAgree(j: Journal) {
    && (forall key :: key in j.keys ==> j.keys[key] in j.entries && j.entries[j.keys[key]].start.key == key)
    && (forall id :: id in j.entries ==> j.entries[id].start.id == id && j.entries[id].start.key in j.keys && j.keys[j.entries[id].start.key] == id)
  }

  ghost predicate JournalAdvances(j: Journal, j': Journal) {
    forall id :: id in j.entries ==> id in j'.entries && Advances(j.entries[id], j'.entries[id])
  }

  lemma StartKeepsKeys(sink: Sink, j: Journal, s: Start, digest: string)
    requires KeysAgree(j)
    ensures KeysAgree(Apply(sink, j, StartOp(s, digest)).0)
  {}

  lemma ApplyKeepsKeys(sink: Sink, j: Journal, op: Op)
    requires KeysAgree(j)
    ensures KeysAgree(Apply(sink, j, op).0)
  {
    if op.StartOp? {
      StartKeepsKeys(sink, j, op.start, op.digest);
    }
  }

  lemma ApplyAdvances(sink: Sink, j: Journal, op: Op)
    requires KeysAgree(j)
    ensures JournalAdvances(j, Apply(sink, j, op).0)
  {}

  /** Only a takeover moves an entry's epoch, by one; a new entry has the epoch it started with. */
  lemma ApplyEpoch(sink: Sink, j: Journal, op: Op, id: string)
    requires KeysAgree(j)
    ensures var (j', reply) := Apply(sink, j, op);
      var took := op.ClaimOp? && op.id == id && reply.Claimed?;
      && (id in j.entries ==>
            id in j'.entries && j'.entries[id].start == j.entries[id].start && j'.entries[id].epoch == j.entries[id].epoch + (if took then 1 else 0))
      && (id !in j.entries ==> !took && (id in j'.entries ==> j'.entries[id].epoch == j'.entries[id].start.epoch))
  {}

  lemma {:induction false} AfterKeysAgree(sink: Sink, ops: seq<Op>)
    ensures KeysAgree(After(sink, ops))
  {
    hide Apply;
    if ops != [] {
      AfterKeysAgree(sink, ops[..|ops| - 1]);
      ApplyKeepsKeys(sink, After(sink, ops[..|ops| - 1]), ops[|ops| - 1]);
    }
  }

  lemma {:induction false} AfterAdvances(sink: Sink, ops: seq<Op>, i: nat)
    requires i <= |ops|
    ensures JournalAdvances(After(sink, ops[..i]), After(sink, ops))
  {
    hide Apply;
    if i == |ops| {
      assert ops[..i] == ops;
    } else {
      var last := |ops| - 1;
      AfterAdvances(sink, ops[..last], i);
      assert ops[..last][..i] == ops[..i];
      AfterKeysAgree(sink, ops[..last]);
      ApplyAdvances(sink, After(sink, ops[..last]), ops[last]);
    }
  }

  lemma AfterOneMore(sink: Sink, ops: seq<Op>, i: nat)
    requires i < |ops|
    ensures After(sink, ops[..i + 1]) == Apply(sink, After(sink, ops[..i]), ops[i]).0
  {
    assert ops[..i + 1][..i] == ops[..i];
  }

  /** What has happened by step `i` still binds at step `k`. */
  lemma Between(sink: Sink, ops: seq<Op>, i: nat, k: nat)
    requires i < k <= |ops|
    ensures JournalAdvances(Apply(sink, After(sink, ops[..i]), ops[i]).0, After(sink, ops[..k]))
  {
    hide Apply;
    AfterOneMore(sink, ops, i);
    AfterAdvances(sink, ops[..k], i + 1);
    assert ops[..k][..i + 1] == ops[..i + 1];
  }

  // ----- over every run -----

  /** An entry's epoch is the one it started with plus one per takeover: a replayed start, a finish
    * and a refused claim never move it.
    */
  lemma {:induction false} EpochCountsTakeovers(sink: Sink, ops: seq<Op>, id: string)
    ensures id in After(sink, ops).entries ==>
      After(sink, ops).entries[id].epoch == After(sink, ops).entries[id].start.epoch + Takeovers(sink, ops, id)
    ensures id !in After(sink, ops).entries ==> Takeovers(sink, ops, id) == 0
  {
    hide Apply;
    if ops != [] {
      var last := |ops| - 1;
      EpochCountsTakeovers(sink, ops[..last], id);
      AfterKeysAgree(sink, ops[..last]);
      ApplyEpoch(sink, After(sink, ops[..last]), ops[last], id);
    }
  }

  /** After a takeover that returned epoch `e`, a finish that succeeds holds an epoch of at least
    * `e`: every older holder is refused.
    */
  lemma OldEpochNeverCommits(sink: Sink, ops: seq<Op>, i: nat, k: nat)
    requires i < k < |ops| && ops[i].ClaimOp? && ReplyAt(sink, ops, i).Claimed?
    requires ops[k].FinishOp? && ops[k].id == ops[i].id && ReplyAt(sink, ops, k).Finished?
    ensures ops[k].expected >= ReplyAt(sink, ops, i).epoch
  {
    Between(sink, ops, i, k);
  }

  /** Two takeovers of an entry return different, increasing epochs. */
  lemma TakeoverEpochsIncrease(sink: Sink, ops: seq<Op>, i: nat, k: nat)
    requires i < k < |ops| && ops[i].ClaimOp? && ReplyAt(sink, ops, i).Claimed?
    requires ops[k].ClaimOp? && ops[k].id == ops[i].id && ReplyAt(sink, ops, k).Claimed?
    ensures ReplyAt(sink, ops, k).epoch > ReplyAt(sink, ops, i).epoch
  {
    Between(sink, ops, i, k);
  }

  /** Once a finish has succeeded the entry never changes again: no takeover succeeds, and another
    * finish succeeds only as a replay of the same digest under the same epoch.
    */
  lemma TerminalIsFinal(sink: Sink, ops: seq<Op>, i: nat, k: nat)
    requires i < k <= |ops| && ops[i].FinishOp? && ReplyAt(sink, ops, i).Finished?
    ensures var id := ops[i].id;
      && id in After(sink, ops[..k]).entries
      && After(sink, ops[..k]).entries[id].terminal.Some?
      && After(sink, ops[..k]).entries[id].terminal.value.digest == ops[i].terminal.digest
      && After(sink, ops[..k]).entries[id].epoch == ops[i].expected
    ensures k < |ops| && ops[k].ClaimOp? && ops[k].id == ops[i].id ==> ReplyAt(sink, ops, k).Failed?
    ensures k < |ops| && ops[k].FinishOp? && ops[k].id == ops[i].id && ReplyAt(sink, ops, k).Finished? ==>
      ops[k].terminal.digest == ops[i].terminal.digest && ops[k].expected == ops[i].expected
  {
    Between(sink, ops, i, k);
  }

  // ----- what is answered, exactly -----

  /** A finish of `id` succeeded at step `i`. */
  ghost predicate FinishedAt(sink: Sink, ops: seq<Op>, i: nat, id: string)
    requires i < |ops|
  {
    ops[i].FinishOp? && ops[i].id == id && ReplyAt(sink, ops, i).Finished?
  }

  ghost predicate Settled(sink: Sink, ops: seq<Op>, id: string) {
    exists i :: 0 <= i < |ops| && FinishedAt(sink, ops, i, id)
  }

  /** Until when the lease on `id` runs: what the last successful takeover asked for, or else the
    * start that was first answered with `id`.
    */
  ghost function LeaseEnd(sink: Sink, ops: seq<Op>, id: string): Option<int> {
    if ops == [] then None
    else
      var k := |ops| - 1;
      var op, reply, before := ops[k], ReplyAt(sink, ops, k), LeaseEnd(sink, ops[..k], id);
      if op.ClaimOp? && op.id == id && reply.Claimed? then Some(op.expires)
      else if before.None? && op.StartOp? && op.start.id == id && reply == Started(id) then Some(op.start.expires)
      else before
  }

  /** The epoch the entry was started with. */
  ghost function StartEpoch(sink: Sink, ops: seq<Op>, id: string): nat {
    var entries := After(sink, ops).entries;
    if id in entries then entries[id].start.epoch else 0
  }

  /** What one operation does to the lease and to the terminal of `id`. */
  lemma ApplyLease(sink: Sink, j: Journal, op: Op, id: string)
    requires KeysAgree(j)
    ensures var (j', reply) := Apply(sink, j, op);
      var took := op.ClaimOp? && op.id == id && reply.Claimed?;
      var began := op.StartOp? && op.start.id == id && reply == Started(id);
      && (id in j.entries ==> id in j'.entries && j'.entries[id].expires == if took then op.expires else j.entries[id].expires)
      && (id !in j.entries ==> !took && (id in j'.entries <==> began))
      && (id !in j.entries && began ==> j'.entries[id].expires == op.start.expires)
      && (id in j'.entries && j'.entries[id].terminal.Some? ==>
            (id in j.entries && j.entries[id].terminal.Some?) || (op.FinishOp? && op.id == id && reply.Finished?))
  {}

  lemma {:induction false} LeaseIsRecorded(sink: Sink, ops: seq<Op>, id: string)
    ensures id in After(sink, ops).entries <==> LeaseEnd(sink, ops, id).Some?
    ensures id in After(sink, ops).entries ==> LeaseEnd(sink, ops, id) == Some(After(sink, ops).entries[id].expires)
  {
    hide Apply;
    if ops != [] {
      var last := |ops| - 1;
      LeaseIsRecorded(sink, ops[..last], id);
      AfterKeysAgree(sink, ops[..last]);
      ApplyLease(sink, After(sink, ops[..last]), ops[last], id);
    }
  }

  /** An entry has a terminal exactly when a finish of it succeeded. */
  lemma {:induction false} TerminalIffSettled(sink: Sink, ops: seq<Op>, id: string)
    ensures Settled(sink, ops, id) <==> id in After(sink, ops).entries && After(sink, ops).entries[id].terminal.Some?
  {
    hide Apply;
    if i: nat :| i < |ops| && FinishedAt(sink, ops, i, id) {
      TerminalIsFinal(sink, ops, i, |ops|);
      assert ops[..|ops|] == ops;
    }
    if ops != [] {
      var last := |ops| - 1;
      TerminalIffSettled(sink, ops[..last], id);
      AfterKeysAgree(sink, ops[..last]);
      ApplyLease(sink, After(sink, ops[..last]), ops[last], id);
      if Settled(sink, ops[..last], id) {
        var i :| 0 <= i < last && FinishedAt(sink, ops[..last], i, id);
        assert ops[..last][..i] == ops[..i] && FinishedAt(sink, ops, i, id);
      } else if ops[last].FinishOp? && ops[last].id == id && ReplyAt(sink, ops, last).Finished? {
        assert FinishedAt(sink, ops, last, id);
      }
    }
  }

  /** A live lease protects its holder: over every run a takeover succeeds exactly when the entry was
    * started, no finish of it succeeded, and its clock has reached the end of the lease that the last
    * takeover, or else the start, gave. It answers the next epoch; a refusal names what was wrong.
    */
  lemma TakenOverIff(sink: Sink, ops: seq<Op>, k: nat)
    requires k < |ops| && ops[k].ClaimOp?
    ensures ReplyAt(sink, ops, k).Claimed? <==>
      var end := LeaseEnd(sink, ops[..k], ops[k].id);
      end.Some? && end.value <= ops[k].now && !Settled(sink, ops[..k], ops[k].id)
    ensures var id := ops[k].id;
      ReplyAt(sink, ops, k) ==
        if LeaseEnd(sink, ops[..k], id).None? then Failed(NotFound)
        else if Settled(sink, ops[..k], id) then Failed(AlreadyCommitted)
        else if ops[k].now < LeaseEnd(sink, ops[..k], id).value then Failed(LeaseActive)
        else Claimed(StartEpoch(sink, ops[..k], id) + Takeovers(sink, ops[..k], id) + 1)
  {
    EpochCountsTakeovers(sink, ops[..k], ops[k].id);
    LeaseIsRecorded(sink, ops[..k], ops[k].id);
    TerminalIffSettled(sink, ops[..k], ops[k].id);
  }

  /** Over every run a finish succeeds exactly when the entry was started, its epoch is the one the
    * takeovers so far have led to, and every finish that succeeded before had the same digest. A stale
    * epoch is named before a clash with what was committed.
    */
  lemma FinishedIff(sink: Sink, ops: seq<Op>, k: nat)
    requires k < |ops| && ops[k].FinishOp?
    ensures var id := ops[k].id;
      ReplyAt(sink, ops, k).Finished? <==>
        && LeaseEnd(sink, ops[..k], id).Some? && ops[k].expected == StartEpoch(sink, ops[..k], id) + Takeovers(sink, ops[..k], id)
        && forall i :: 0 <= i < k && FinishedAt(sink, ops, i, id) ==> ops[i].terminal.digest == ops[k].terminal.digest
    ensures var id, reply := ops[k].id, ReplyAt(sink, ops, k);
      || reply.Finished?
      || reply == if LeaseEnd(sink, ops[..k], id).None? then Failed(if sink.Memory? then NotFound else StaleEpoch)
                  else if ops[k].expected != StartEpoch(sink, ops[..k], id) + Takeovers(sink, ops[..k], id) then Failed(StaleEpoch)
                  else Failed(AlreadyCommitted)
  {
    var id := ops[k].id;
    LeaseIsRecorded(sink, ops[..k], id);
    EpochCountsTakeovers(sink, ops[..k], id);
    TerminalIffSettled(sink, ops[..k], id);
    forall i | 0 <= i < k && FinishedAt(sink, ops, i, id)
      ensures id in After(sink, ops[..k]).entries && After(sink, ops[..k]).entries[id].terminal.Some?
        && After(sink, ops[..k]).entries[id].terminal.value.digest == ops[i].terminal.digest
    {
      TerminalIsFinal(sink, ops, i, k);
    }
    if Settled(sink, ops[..k], id) {
      var i :| 0 <= i < k && FinishedAt(sink, ops[..k], i, id);
      assert ops[..k][..i] == ops[..i] && FinishedAt(sink, ops, i, id);
    }
  }

  /** A start under an unused key and id, and in the database an unused identity, is taken: the entry
    * is as asked, with no terminal, and nothing else changes.
    */
  lemma FreshStartTaken(sink: Sink, ops: seq<Op>, k: nat)
    requires k < |ops| && ops[k].StartOp?
    requires var s, j := ops[k].start, After(sink, ops[..k]);
      s.key !in j.keys && s.id !in j.entries && (sink.Sql? ==> !IdentityTaken(j, s))
    ensures var s, before, after := ops[k].start, After(sink, ops[..k]), After(sink, ops[..k + 1]);
      && ReplyAt(sink, ops, k) == Started(s.id)
      && after.entries == before.entries[s.id := JournalState(s, ops[k].digest, s.epoch, s.owner, s.expires, None)]
      && after.keys == before.keys[s.key := s.id]
  {
    AfterOneMore(sink, ops, k);
  }

  /** A start under a key already used changes nothing. It is answered with that key's entry exactly
    * when the digest is the entry's; in memory this takes an entry whose id is not empty.
    */
  lemma StartReplayChangesNothing(sink: Sink, j: Journal, s: Start, digest: string)
    requires KeysAgree(j) && s.key in j.keys
    ensures Apply(sink, j, StartOp(s, digest)).0 == j
    ensures Apply(sink, j, StartOp(s, digest)).1.Started? ==> Apply(sink, j, StartOp(s, digest)).1.id == j.keys[s.key]
    ensures sink.Sql? || j.keys[s.key] != "" ==>
      Apply(sink, j, StartOp(s, digest)).1 == if j.entries[j.keys[s.key]].startDigest == digest then Started(j.keys[s.key]) else Failed(DigestMismatch)
  {}

  /** A start under an unused key is refused, and changes nothing, when the id is taken, and in the
    * database when the identity is.
    */
  lemma TakenStartRefused(sink: Sink, j: Journal, s: Start, digest: string)
    requires s.key !in j.keys && (s.id in j.entries || (sink.Sql? && IdentityTaken(j, s)))
    ensures Apply(sink, j, StartOp(s, digest)) == (j, Failed(if s.id in j.entries then EntryExists else IdentityExists))
  {}

  // ----- the two sinks -----

  /** Same answer, not counting the reason of a refusal. */
  predicate SameReply(a: Reply, b: Reply) {
    a == b || (a.Failed? && b.Failed?)
  }

  predicate SinksAgreeOn(a: (Journal, Reply), b: (Journal, Reply)) {
    a.0 == b.0 && SameReply(a.1, b.1)
  }

  /** The key was used by an entry with an empty id, and taking that for no prior start matters. */
  predicate EmptyIdMatters(j: Journal, s: Start, digest: string) {
    && s.key in j.keys && j.keys[s.key] == "" && "" in j.entries
    && (s.id in j.entries <==> j.entries[""].startDigest == digest)
  }

  /** On a start the sinks agree except after an empty id, and except when a new key and id come
    * with an identity already stored, which only the database refuses.
    */
  lemma StartsAgreeIff(j: Journal, s: Start, digest: string)
    requires KeysAgree(j)
    ensures SinksAgreeOn(MemoryStart(j, s, digest), SqlStart(j, s, digest)) <==>
      !EmptyIdMatters(j, s, digest) && !(s.key !in j.keys && s.id !in j.entries && IdentityTaken(j, s))
  {}

  /** A start as `CaseRepeatLifecycle` makes it: key and id computed from the identity. */
  ghost predicate LifecycleStart(keyOf: (string, string, nat) -> string, idOf: (string, string, nat) -> string, s: Start) {
    && s.key == keyOf(s.runEpoch, s.caseId, s.repeatIndex)
    && s.id == idOf(s.runEpoch, s.caseId, s.repeatIndex) && s.id != ""
    && s.epoch == 1
  }

  ghost predicate LifecycleOps(keyOf: (string, string, nat) -> string, idOf: (string, string, nat) -> string, ops: seq<Op>) {
    forall op :: op in ops && op.StartOp? ==> LifecycleStart(keyOf, idOf, op.start)
  }

  ghost predicate LifecycleEntries(keyOf: (string, string, nat) -> string, idOf: (string, string, nat) -> string, j: Journal) {
    forall id :: id in j.entries ==> LifecycleStart(keyOf, idOf, j.entries[id].start)
  }

  lemma ApplyLifecycle(keyOf: (string, string, nat) -> string, idOf: (string, string, nat) -> string, sink: Sink, j: Journal, op: Op)
    requires LifecycleEntries(keyOf, idOf, j)
    requires op.StartOp? ==> LifecycleStart(keyOf, idOf, op.start)
    ensures LifecycleEntries(keyOf, idOf, Apply(sink, j, op).0)
  {}

  lemma LifecycleStepAgrees(keyOf: (string, string, nat) -> string, idOf: (string, string, nat) -> string, j: Journal, op: Op)
    requires KeysAgree(j) && LifecycleEntries(keyOf, idOf, j)
    requires op.StartOp? ==> LifecycleStart(keyOf, idOf, op.start)
    ensures SinksAgreeOn(Apply(Memory, j, op), Apply(Sql, j, op))
  {
    if op.StartOp? {
      StartsAgreeIff(j, op.start, op.digest);
    }
  }

  /** Over every run whose starts the lifecycle made, the two sinks hold the same journal and
    * answer alike.
    */
  lemma {:induction false} SinksAgree(keyOf: (string, string, nat) -> string, idOf: (string, string, nat) -> string, ops: seq<Op>)
    requires LifecycleOps(keyOf, idOf, ops)
    ensures After(Memory, ops) == After(Sql, ops) && LifecycleEntries(keyOf, idOf, After(Sql, ops))
    ensures forall k :: 0 <= k < |ops| ==> SameReply(ReplyAt(Memory, ops, k), ReplyAt(Sql, ops, k))
  {
    hide Apply, LifecycleStart, LifecycleEntries;
    if ops == [] {
      EmptyLifecycle(keyOf, idOf);
    } else {
      var last := |ops| - 1;
      SinksAgree(keyOf, idOf, ops[..last]);
      AfterKeysAgree(Sql, ops[..last]);
      LifecycleStepAgrees(keyOf, idOf, After(Sql, ops[..last]), ops[last]);
      ApplyLifecycle(keyOf, idOf, Sql, After(Sql, ops[..last]), ops[last]);
      forall k | 0 <= k < last ensures SameReply(ReplyAt(Memory, ops, k), ReplyAt(Sql, ops, k)) {
        assert ops[..last][..k] == ops[..k] && ops[..last][k] == ops[k];
        assert SameReply(ReplyAt(Memory, ops[..last], k), ReplyAt(Sql, ops[..last], k));
      }
    }
  }

  lemma EmptyLifecycle(keyOf: (string, string, nat) -> string, idOf: (string, string, nat) -> string)
    ensures LifecycleEntries(keyOf, idOf, Journal(map[], map[]))
  {}

  /** The lifecycle always finishes under epoch 1, so its finish fails after any takeover. */
  lemma LifecycleFinishFailsAfterTakeover(
    keyOf: (string, string, nat) -> string, idOf: (string, string, nat) -> string, sink: Sink, ops: seq<Op>, i: nat, k: nat)
    requires LifecycleOps(keyOf, idOf, ops)
    requires i < k < |ops| && ops[i].ClaimOp? && ReplyAt(sink, ops, i).Claimed?
    requires ops[k].FinishOp? && ops[k].id == ops[i].id && ops[k].expected == 1
    ensures ReplyAt(sink, ops, k).Failed?
  {
    hide LifecycleStart;
    var id := ops[i].id;
    LifecycleAt(keyOf, idOf, sink, ops[..i], id);
    EpochCountsTakeovers(sink, ops[..i], id);
    if ReplyAt(sink, ops, k).Finished? {
      OldEpochNeverCommits(sink, ops, i, k);
    }
  }

  lemma {:induction false} LifecycleAt(
    keyOf: (string, string, nat) -> string, idOf: (string, string, nat) -> string, sink: Sink, ops: seq<Op>, id: string)
    requires LifecycleOps(keyOf, idOf, ops)
    ensures id in After(sink, ops).entries ==> After(sink, ops).entries[id].start.epoch == 1
  {
    if ops != [] {
      LifecycleAt(keyOf, idOf, sink, ops[..|ops| - 1], id);
      AfterKeysAgree(sink, ops[..|ops| - 1]);
    }
  }
}

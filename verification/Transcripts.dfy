/** The conversation transcript: what an append or a regenerate does to the stored thread, and why
  * no interleaving of optimistic writers loses a turn.
  */
module Transcripts {
  import opened Basics
  import opened OptimisticStore
  import opened HistoryPolicy

  datatype Role = User | Assistant

  /** One stored message. `extra` stands for the fields the store never looks at. */
  datatype Turn = Turn(role: Role, content: string, exchangeId: Option<string>, contextMode: Option<string>, extra: string)

  datatype Thread = Thread(owner: string, entityId: Option<int>, turns: seq<Turn>, createdAt: real)

  datatype Policy = Policy(maxStoredTurns: int, absoluteTtl: real)

  datatype Write =
    | Append(user: string, entityId: Option<int>, turns: seq<Turn>, startedAt: Option<real>)
    | Replace(user: string, entityId: Option<int>, target: string, question: string, contextMode: Option<string>, turns: seq<Turn>)

  /** `Stored` is the bare return of a write; `restarted` records that it began the thread anew. */
  datatype Answer = Stored(restarted: bool) | OwnershipError | RegenerateConflict

  /** The clock at the expiry test and at the creation of a record. */
  datatype Times = Times(tExpiry: real, tCreate: real)

  predicate Expired(p: Policy, t: Thread, now: real) {
    t.createdAt <= 0.0 || now - t.createdAt > p.absoluteTtl
  }

  function NewThread(user: string, entityId: Option<int>, startedAt: Option<real>, now: real): Thread {
    Thread(user, entityId, [], if startedAt.Some? then startedAt.value else now)
  }

  predicate Owns(t: Thread, user: string, entityId: Option<int>) {
    t.owner == user && t.entityId == entityId
  }

  /** `_verify_regenerate_tail`: the last two turns are the user and assistant turns of the target
    * exchange, with the expected question and context mode.
    */
  predicate TailMatches(turns: seq<Turn>, target: string, question: string, contextMode: Option<string>) {
    && |turns| >= 2
    && turns[|turns| - 2].role.User? && turns[|turns| - 1].role.Assistant?
    && turns[|turns| - 2].exchangeId == Some(target) && turns[|turns| - 1].exchangeId == Some(target)
    && turns[|turns| - 2].content == question
    && turns[|turns| - 2].contextMode == contextMode
  }

  function Extend(p: Policy, t: Thread, turns: seq<Turn>): Thread {
    t.(turns := Trim(p.maxStoredTurns, t.turns + turns))
  }

  function ReplaceTail(p: Policy, t: Thread, turns: seq<Turn>): Thread
    requires |t.turns| >= 2
  {
    t.(turns := Trim(p.maxStoredTurns, t.turns[..|t.turns| - 2] + turns))
  }

  /** The Redis store's decision over the raw value it read. A replace has no expiry check. */
  function Decide(p: Policy, read: Option<Thread>, w: Write, at: Times): Decision<Thread, Answer> {
    match w
    case Append(user, entityId, turns, startedAt) =>
      if read.Some? && !Owns(read.value, user, entityId) then Decision(None, OwnershipError)
      else if read.Some? && !Expired(p, read.value, at.tExpiry) then
        Decision(Some(Extend(p, read.value, turns)), Stored(false))
      else
        Decision(Some(Extend(p, NewThread(user, entityId, startedAt, at.tCreate), turns)), Stored(true))
    case Replace(user, entityId, target, question, contextMode, turns) =>
      if read.None? then Decision(None, RegenerateConflict)
      else if !Owns(read.value, user, entityId) then Decision(None, OwnershipError)
      else if !TailMatches(read.value.turns, target, question, contextMode) then Decision(None, RegenerateConflict)
      else Decision(Some(ReplaceTail(p, read.value, turns)), Stored(false))
  }

  /** A regenerate that is taken takes the place of the last two turns, and these were the user's and
    * the assistant's turn of its target, with the question and the context mode it expected. One that
    * is not is told whose thread it is not, or that it conflicts.
    */
  lemma ReplaceHitsTarget(p: Policy, read: Option<Thread>, w: Write, at: Times)
    requires w.Replace?
    ensures Decide(p, read, w, at).write.Some? <==>
      && read.Some? && read.value.owner == w.user && read.value.entityId == w.entityId
      && exists kept, question, answer ::
           && read.value.turns == kept + [question, answer] && question.role.User? && answer.role.Assistant?
           && question.exchangeId == Some(w.target) == answer.exchangeId
           && question.content == w.question && question.contextMode == w.contextMode
    ensures Decide(p, read, w, at).write.Some? ==> forall kept, question, answer :: read.value.turns == kept + [question, answer] ==>
      Decide(p, read, w, at).write == Some(read.value.(turns := Trim(p.maxStoredTurns, kept + w.turns)))
    ensures Decide(p, read, w, at).reply ==
      if Decide(p, read, w, at).write.Some? then Stored(false)
      else if read.Some? && !(read.value.owner == w.user && read.value.entityId == w.entityId) then OwnershipError
      else RegenerateConflict
  {
    if read.Some? && |read.value.turns| >= 2 {
      var turns := read.value.turns;
      assert turns == turns[..|turns| - 2] + [turns[|turns| - 2], turns[|turns| - 1]];
      forall kept, question: Turn, answer: Turn | turns == kept + [question, answer] ensures kept == turns[..|turns| - 2] {}
    }
  }

  /** An append is refused exactly when the thread is another's; otherwise its turns are the newest. */
  lemma AppendRefusedIff(p: Policy, read: Option<Thread>, w: Write, at: Times)
    requires w.Append?
    ensures var d, foreign := Decide(p, read, w, at), read.Some? && !(read.value.owner == w.user && read.value.entityId == w.entityId);
      && (d.reply == OwnershipError <==> foreign) && (d.write.None? <==> foreign) && d.reply != RegenerateConflict
      && (d.write.Some? && (p.maxStoredTurns <= 0 || |w.turns| <= p.maxStoredTurns) ==>
            var n := |d.write.value.turns| - |w.turns|; n >= 0 && d.write.value.turns[n..] == w.turns)
  {}

  type ThreadStore = Store<Thread, Write, Times, Answer>
  type ThreadMachine = Machine<Thread, Write, Times, Answer>
  type Effect = Event<Thread, Write, Times, Answer>
  type Run = seq<System<Thread, Write, Times, Answer>>

  ghost predicate IsThreadStore(p: Policy, st: ThreadStore) {
    && (forall read, w, at :: st.decide(read, w, at) == Decide(p, read, w, at))
    && (forall t :: !st.creates(t))
  }

  // ----- the transcript the log of effects spells out, untrimmed -----

  predicate Writes(e: Effect) { e.decision.write.Some? }

  /** The untrimmed transcript after one more write. */
  function Extended(before: seq<Turn>, w: Write, restarted: bool): seq<Turn> {
    if w.Replace? then (if |before| >= 2 then before[..|before| - 2] else []) + w.turns
    else if restarted then w.turns
    else before + w.turns
  }

  function Transcript(log: seq<Effect>): seq<Turn> {
    if log == [] then []
    else
      var last := log[|log| - 1];
      var before := Transcript(log[..|log| - 1]);
      if Writes(last) then Extended(before, last.op, last.decision.reply == Stored(true)) else before
  }

  /** Regenerates that took effect brought both turns of the pair. */
  ghost predicate WholeReplacements(log: seq<Effect>) {
    forall i :: 0 <= i < |log| && Writes(log[i]) && log[i].op.Replace? ==> |log[i].op.turns| >= 2
  }

  /** The stored turns are the trimmed transcript of everything that took effect, in commit order. */
  ghost predicate NothingLost(p: Policy, m: ThreadMachine) {
    && (m.value.None? ==> Transcript(m.log) == [])
    && (m.value.Some? ==> m.value.value.turns == Trim(p.maxStoredTurns, Transcript(m.log)))
  }

  lemma WriteTracksTranscript(p: Policy, read: Option<Thread>, all: seq<Turn>, w: Write, at: Times)
    requires read.Some? ==> read.value.turns == Trim(p.maxStoredTurns, all)
    requires Decide(p, read, w, at).write.Some? && (w.Replace? ==> |w.turns| >= 2)
    ensures var d := Decide(p, read, w, at);
      d.write.value.turns == Trim(p.maxStoredTurns, Extended(all, w, d.reply == Stored(true)))
  {
    var d := Decide(p, read, w, at);
    if w.Replace? {
      TrimThenReplace(p.maxStoredTurns, all, w.turns);
    } else if d.reply == Stored(false) {
      TrimThenAppend(p.maxStoredTurns, all, w.turns);
    } else {
      assert [] + w.turns == w.turns;
    }
  }

  lemma EffectKeepsTurns(p: Policy, st: ThreadStore, m: ThreadMachine, m': ThreadMachine, call: nat, w: Write, at: Times)
    requires IsThreadStore(p, st) && NothingLost(p, m) && WholeReplacements(m'.log)
    requires EffectStep(st, m, m', call, w, at)
    ensures NothingLost(p, m')
  {
    hide Decide, Extended;
    var d := Decide(p, m.value, w, at);
    assert m'.log[|m.log|] == Event(call, w, at, d) && m'.log[..|m.log|] == m.log;
    if d.write.Some? {
      WriteTracksTranscript(p, m.value, Transcript(m.log), w, at);
    }
  }

  ghost predicate TurnsInv(p: Policy, m: ThreadMachine) {
    WholeReplacements(m.log) ==> NothingLost(p, m)
  }

  lemma StepKeepsTurns(p: Policy, st: ThreadStore, m: ThreadMachine, m': ThreadMachine)
    requires IsThreadStore(p, st) && TurnsInv(p, m) && MachineStep(st, m, m')
    ensures TurnsInv(p, m')
  {
    assert !CreateStep(st, m, m');
    var call, w, at :| EffectStep(st, m, m', call, w, at);
    if WholeReplacements(m'.log) {
      assert WholeReplacements(m.log) by {
        assert forall i :: 0 <= i < |m.log| ==> m'.log[i] == m.log[i];
      }
      EffectKeepsTurns(p, st, m, m', call, w, at);
    }
  }

  lemma NothingAtStart(p: Policy)
    ensures TurnsInv(p, Machine(None, false, []))
  {}

  /** No lost updates: after any interleaving of optimistic appends and whole-pair regenerates,
    * the stored turns are the last N of everything that took effect, in commit order.
    */
  lemma NoLostUpdates(p: Policy, st: ThreadStore, run: Run, k: nat)
    requires IsThreadStore(p, st) && IsRun(st, run) && k < |run| && WholeReplacements(run[k].log)
    ensures NothingLost(p, Abstract(run[k]))
  {
    hide IsThreadStore, IsRun, MachineStep, NothingLost, TurnsInv, WholeReplacements;
    NothingAtStart(p);
    var inv := (m: ThreadMachine) => TurnsInv(p, m);
    forall m, m' | inv(m) && MachineStep(st, m, m') ensures inv(m') {
      StepKeepsTurns(p, st, m, m');
    }
    MachineInvariantHolds(st, run, k, inv);
    TurnsInvGives(p, Abstract(run[k]));
  }

  lemma TurnsInvGives(p: Policy, m: ThreadMachine)
    requires TurnsInv(p, m) && WholeReplacements(m.log)
    ensures NothingLost(p, m)
  {}

  /** Once stored, a thread stays stored under the same owner and entity. */
  ghost predicate SameOwner(m: ThreadMachine, m': ThreadMachine) {
    m.value.Some? ==> m'.value.Some? && Owns(m'.value.value, m.value.value.owner, m.value.value.entityId)
  }

  lemma StepKeepsOwner(p: Policy, st: ThreadStore, m0: ThreadMachine, m: ThreadMachine, m': ThreadMachine)
    requires IsThreadStore(p, st) && SameOwner(m0, m) && MachineStep(st, m, m')
    ensures SameOwner(m0, m')
  {
    assert !CreateStep(st, m, m');
    var call, w, at :| EffectStep(st, m, m', call, w, at);
  }

  /** Over every run a thread never changes hands: nobody but its owner writes it, not even to start
    * it anew after it expired.
    */
  lemma OwnerStays(p: Policy, st: ThreadStore, run: Run, i: nat, k: nat)
    requires IsThreadStore(p, st) && IsRun(st, run) && i <= k < |run|
    ensures SameOwner(Abstract(run[i]), Abstract(run[k]))
  {
    hide IsThreadStore, IsRun, MachineStep;
    var rel := (m: ThreadMachine, m': ThreadMachine) => SameOwner(m, m');
    forall m, m' | rel(Abstract(run[i]), m) && MachineStep(st, m, m') ensures rel(Abstract(run[i]), m') {
      StepKeepsOwner(p, st, Abstract(run[i]), m, m');
    }
    MachineRelationHolds(st, run, i, k, rel);
  }

  // ----- restarts -----

  /** When the stored thread was begun: what the last restarting append gave, or its own clock. */
  function BegunAt(log: seq<Effect>): Option<real> {
    if log == [] then None
    else
      var e := log[|log| - 1];
      if Writes(e) && e.decision.reply == Stored(true) then
        Some(if e.op.Append? && e.op.startedAt.Some? then e.op.startedAt.value else e.clock.tCreate)
      else BegunAt(log[..|log| - 1])
  }

  /** A thread begun at that time is past its absolute time to live; a time that is not positive
    * counts as long past.
    */
  predicate Outlived(p: Policy, begun: real, now: real) {
    begun <= 0.0 || begun + p.absoluteTtl < now
  }

  /** The append at `i` began the thread anew exactly when there was none or it had outlived its time. */
  ghost predicate RestartFits(p: Policy, log: seq<Effect>, i: nat)
    requires i < |log|
  {
    var begun := BegunAt(log[..i]);
    log[i].op.Append? && Writes(log[i]) ==>
      (log[i].decision.reply == Stored(true) <==> begun.None? || Outlived(p, begun.value, log[i].clock.tExpiry))
  }

  ghost predicate AgesExplained(p: Policy, m: ThreadMachine) {
    && (if m.value.Some? then BegunAt(m.log) == Some(m.value.value.createdAt) else BegunAt(m.log) == None)
    && forall i :: 0 <= i < |m.log| ==> RestartFits(p, m.log, i)
  }

  lemma EffectKeepsAges(p: Policy, st: ThreadStore, m: ThreadMachine, m': ThreadMachine, call: nat, w: Write, at: Times)
    requires IsThreadStore(p, st) && AgesExplained(p, m) && EffectStep(st, m, m', call, w, at)
    ensures AgesExplained(p, m')
  {
    hide BegunAt;
    var last := |m.log|;
    BegunOneMore(m.log, m'.log[last]);
    assert m'.log[..last] == m.log;
    forall i | 0 <= i < |m'.log| ensures RestartFits(p, m'.log, i) {
      if i < last {
        assert RestartFits(p, m.log, i) && m'.log[..i] == m.log[..i] && m'.log[i] == m.log[i];
      }
    }
  }

  lemma BegunOneMore(log: seq<Effect>, e: Effect)
    ensures BegunAt(log + [e]) ==
      if Writes(e) && e.decision.reply == Stored(true) then
        Some(if e.op.Append? && e.op.startedAt.Some? then e.op.startedAt.value else e.clock.tCreate)
      else BegunAt(log)
  {
    assert (log + [e])[..|log|] == log;
  }

  lemma StepKeepsAges(p: Policy, st: ThreadStore, m: ThreadMachine, m': ThreadMachine)
    requires IsThreadStore(p, st) && AgesExplained(p, m) && MachineStep(st, m, m')
    ensures AgesExplained(p, m')
  {
    assert !CreateStep(st, m, m');
    var call, w, at :| EffectStep(st, m, m', call, w, at);
    EffectKeepsAges(p, st, m, m', call, w, at);
  }

  lemma NoAgeAtStart(p: Policy)
    ensures AgesExplained(p, Machine(None, false, []))
  {}

  /** Over every run an append that took effect began the thread anew exactly when there was none, or
    * when its clock had passed the beginning of the stored one by more than the absolute time to live.
    */
  lemma RestartedIffOutlived(p: Policy, st: ThreadStore, run: Run, k: nat, i: nat)
    requires IsThreadStore(p, st) && IsRun(st, run) && k < |run| && i < |run[k].log|
    ensures RestartFits(p, run[k].log, i)
    ensures run[k].key.value.Some? ==> BegunAt(run[k].log) == Some(run[k].key.value.value.createdAt)
  {
    hide IsThreadStore, IsRun, MachineStep, AgesExplained;
    NoAgeAtStart(p);
    var inv := (m: ThreadMachine) => AgesExplained(p, m);
    forall m, m' | inv(m) && MachineStep(st, m, m') ensures inv(m') {
      StepKeepsAges(p, st, m, m');
    }
    MachineInvariantHolds(st, run, k, inv);
    AgesGive(p, Abstract(run[k]), i);
  }

  lemma AgesGive(p: Policy, m: ThreadMachine, i: nat)
    requires AgesExplained(p, m) && i < |m.log|
    ensures RestartFits(p, m.log, i) && (m.value.Some? ==> BegunAt(m.log) == Some(m.value.value.createdAt))
  {}

  // ----- appends only -----

  /** Everything appended, in commit order. */
  function Appended(log: seq<Effect>): seq<Turn> {
    if log == [] then []
    else Appended(log[..|log| - 1]) + if Writes(log[|log| - 1]) then log[|log| - 1].op.turns else []
  }

  /** On one thread that never expired, appends alone are simply concatenated. */
  ghost predicate OneThreadOfAppends(log: seq<Effect>) {
    forall i :: 0 <= i < |log| && Writes(log[i]) ==>
      log[i].op.Append? && (log[i].decision.reply == Stored(true) ==> forall j :: 0 <= j < i ==> !Writes(log[j]))
  }

  lemma {:induction false} NoWritesNothingAppended(log: seq<Effect>)
    requires forall j :: 0 <= j < |log| ==> !Writes(log[j])
    ensures Appended(log) == [] && Transcript(log) == []
  {
    if log != [] {
      NoWritesNothingAppended(log[..|log| - 1]);
    }
  }

  lemma {:induction false} AppendsConcatenate(log: seq<Effect>)
    requires OneThreadOfAppends(log)
    ensures Transcript(log) == Appended(log)
  {
    if log != [] {
      var last := log[|log| - 1];
      AppendsConcatenate(log[..|log| - 1]);
      if Writes(last) && last.decision.reply == Stored(true) {
        NoWritesNothingAppended(log[..|log| - 1]);
      }
    }
  }

  /** Appends by any number of writers to one unexpired thread: the stored turns are the last N of
    * all turns that took effect, concatenated in commit order; and an append that returned is
    * among them exactly once.
    */
  lemma AppendsNeverLost(p: Policy, st: ThreadStore, run: Run, k: nat, a: nat, restarted: bool) returns (i: nat)
    requires IsThreadStore(p, st) && IsRun(st, run) && k < |run| && OneThreadOfAppends(run[k].log)
    requires Told(run[k], a, Stored(restarted))
    ensures run[k].key.value.Some? ==> run[k].key.value.value.turns == Trim(p.maxStoredTurns, Appended(run[k].log))
    ensures i < |run[k].log| && run[k].log[i].call == a && run[k].log[i].op == run[k].calls[a].op
    ensures forall j :: 0 <= j < |run[k].log| && run[k].log[j].call == a ==> j == i
  {
    hide IsThreadStore, IsRun;
    NoLostUpdates(p, st, run, k);
    AppendsConcatenate(run[k].log);
    i := ToldTookEffect(st, run, k, a, Stored(restarted));
  }

  /** A regenerate that brings only a question turn, to a thread from which turns were trimmed, is
    * taken and loses the oldest turn that the bound still had room for, whatever the bound.
    */
  lemma BlankRegenerateLosesATurn(p: Policy, read: Thread, all: seq<Turn>, w: Write, at: Times)
    requires p.maxStoredTurns < |all| && read.turns == Trim(p.maxStoredTurns, all)
    requires w.Replace? && |w.turns| == 1 && p.maxStoredTurns > 0
    requires Owns(read, w.user, w.entityId) && TailMatches(read.turns, w.target, w.question, w.contextMode)
    ensures var d, whole := Decide(p, Some(read), w, at), Trim(p.maxStoredTurns, all[..|all| - 2] + w.turns);
      && d.reply == Stored(false) && d.write.Some?
      && |whole| == p.maxStoredTurns && d.write.value.turns == whole[1..]
  {
    var n := p.maxStoredTurns;
    assert read.turns == all[|all| - n..];
    var full := all[..|all| - 2] + w.turns;
    assert Trim(n, full) == full[|full| - n..];
    assert read.turns[..n - 2] + w.turns == full[|full| - n..][1..];
  }
}

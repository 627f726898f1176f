/** The store's optimistic loops: WATCH, GET, a pure decision, MULTI / EXEC, bounded retry, with any
  * number of interleaved calls on one key. Whatever the decision is, the loops refine the machine
  * that takes it atomically.
  */
module OptimisticStore {
  import opened Basics

  /** What a call does with the value it read: what to write, if anything, and what to answer. */
  datatype Decision<V, R> = Decision(write: Option<V>, reply: R)

  /** A kind of record: the decision over a read value, an operation and the clock readings it
    * took; the values an unconditional SET may create; and the attempts a call has.
    */
  datatype Store<!V, !Op, !C, !R> = Store(
    decide: (Option<V>, Op, C) -> Decision<V, R>, creates: V -> bool, maxRetries: nat)

  // ----- the atomic machine -----

  /** One operation taking effect, with the clock readings it decided by. */
  datatype Event<V, Op, C, R> = Event(call: nat, op: Op, clock: C, decision: Decision<V, R>)

  datatype Machine<V, Op, C, R> = Machine(value: Option<V>, created: bool, log: seq<Event<V, Op, C, R>>)

  function Applied<V>(before: Option<V>, write: Option<V>): Option<V> {
    if write.Some? then write else before
  }

  ghost predicate CreateStep<V(!new), Op(!new), C(!new), R(!new)>(st: Store<V, Op, C, R>, m: Machine<V, Op, C, R>, m': Machine<V, Op, C, R>) {
    !m.created && exists v :: st.creates(v) && m' == Machine(Some(v), true, m.log)
  }

  ghost predicate EffectStep<V(!new), Op(!new), C(!new), R(!new)>(
    st: Store<V, Op, C, R>, m: Machine<V, Op, C, R>, m': Machine<V, Op, C, R>, call: nat, op: Op, clock: C)
  {
    var d := st.decide(m.value, op, clock);
    m' == Machine(Applied(m.value, d.write), m.created, m.log + [Event(call, op, clock, d)])
  }

  ghost predicate MachineStep<V(!new), Op(!new), C(!new), R(!new)>(st: Store<V, Op, C, R>, m: Machine<V, Op, C, R>, m': Machine<V, Op, C, R>) {
    CreateStep(st, m, m') || exists call, op, clock :: EffectStep(st, m, m', call, op, clock)
  }

  // ----- the optimistic system -----

  /** The key: its value and a version that every write to it raises. EXEC succeeds only while
    * the version is the one WATCH saw.
    */
  datatype Key<V> = Key(value: Option<V>, version: nat)

  datatype Result<R> =
    | Replied(reply: R)
    | Unavailable   // a Redis error; a lost race may also surface as one
    | Contended     // the attempts are used up

  /** One call of a store method. `attempt` counts from 0. A call that has to write keeps what it
    * read and the clock readings it decided with until EXEC.
    */
  datatype Call<V, Op, C, R> =
    | Ready(op: Op, attempt: nat)
    | Watching(op: Op, attempt: nat, version: nat)
    | Deciding(op: Op, attempt: nat, version: nat, read: Option<V>, clock: C)
    | Finished(op: Op, result: Result<R>)

  datatype System<V, Op, C, R> = System(key: Key<V>, created: bool, calls: map<nat, Call<V, Op, C, R>>, log: seq<Event<V, Op, C, R>>)

  ghost function Put<V(!new), Op(!new), C(!new), R(!new)>(s: System<V, Op, C, R>, id: nat, call: Call<V, Op, C, R>): System<V, Op, C, R> {
    s.(calls := s.calls[id := call])
  }

  datatype Label<V, Op, C, R> =
    | Create(value: V)
    | Begin(op: Op)
    | Watch
    | Get(clock: C)
    | ExecWrites(result: Result<R>)
    | ExecLosesRace(unavailable: bool)
    | Fault

  ghost predicate Step<V(!new), Op(!new), C(!new), R(!new)>(
    st: Store<V, Op, C, R>, s: System<V, Op, C, R>, s': System<V, Op, C, R>, id: nat, l: Label<V, Op, C, R>)
  {
    match l
    // An unconditional SET that creates the record, once.
    case Create(v) => !s.created && st.creates(v) && s' == s.(created := true, key := Key(Some(v), s.key.version + 1))
    case Begin(op) => id !in s.calls && s' == Put(s, id, Ready(op, 0))
    case _ => id in s.calls && CallStep(st, s, s', id, s.calls[id], l)
  }

  ghost predicate CallStep<V(!new), Op(!new), C(!new), R(!new)>(
    st: Store<V, Op, C, R>, s: System<V, Op, C, R>, s': System<V, Op, C, R>, id: nat, c: Call<V, Op, C, R>, l: Label<V, Op, C, R>)
    requires !l.Create? && !l.Begin?
  {
    match l
    case Watch => c.Ready? && s' == Put(s, id, Watching(c.op, c.attempt, s.key.version))
    // GET and the decision: a call with nothing to write answers at once.
    case Get(clock) => c.Watching? &&
      var d := st.decide(s.key.value, c.op, clock);
      s' == if d.write.None?
            then Put(s, id, Finished(c.op, Replied(d.reply))).(log := s.log + [Event(id, c.op, clock, d)])
            else Put(s, id, Deciding(c.op, c.attempt, c.version, s.key.value, clock))
    // EXEC on an unchanged key writes. The answer may still be lost on the way back.
    case ExecWrites(result) => c.Deciding? && c.version == s.key.version &&
      var d := st.decide(c.read, c.op, c.clock);
      && (result == Replied(d.reply) || result == Unavailable)
      && s' == Put(s, id, Finished(c.op, result)).(key := Key(d.write, s.key.version + 1), log := s.log + [Event(id, c.op, c.clock, d)])
    // EXEC on a changed key writes nothing: the race surfaces as an error, a retry or contention.
    case ExecLosesRace(unavailable) => c.Deciding? && c.version != s.key.version &&
      s' == Put(s, id, if unavailable then Finished(c.op, Unavailable)
                       else if c.attempt + 1 >= st.maxRetries then Finished(c.op, Contended)
                       else Ready(c.op, c.attempt + 1))
    // Any command before EXEC may fail.
    case Fault => !c.Finished? && s' == Put(s, id, Finished(c.op, Unavailable))
  }

  ghost predicate Init<V(!new), Op(!new), C(!new), R(!new)>(s: System<V, Op, C, R>) {
    s.key == Key(None, 0) && !s.created && s.calls == map[] && s.log == []
  }

  ghost predicate Next<V(!new), Op(!new), C(!new), R(!new)>(st: Store<V, Op, C, R>, s: System<V, Op, C, R>, s': System<V, Op, C, R>) {
    exists id, l :: Step(st, s, s', id, l)
  }

  /** A run: any interleaving of any number of calls. */
  ghost predicate IsRun<V(!new), Op(!new), C(!new), R(!new)>(st: Store<V, Op, C, R>, run: seq<System<V, Op, C, R>>) {
    && st.maxRetries >= 1 && |run| > 0 && Init(run[0])
    && forall i, j :: 0 <= i < j < |run| && j == i + 1 ==> Next(st, run[i], run[j])
  }

  ghost function Abstract<V(!new), Op(!new), C(!new), R(!new)>(s: System<V, Op, C, R>): Machine<V, Op, C, R> {
    Machine(s.key.value, s.created, s.log)
  }

  // ----- invariants -----

  /** A call whose watched version is still current read the value that is still stored; no call
    * is past its last attempt.
    */
  ghost predicate ReadsCurrent<V(!new), Op(!new), C(!new), R(!new)>(st: Store<V, Op, C, R>, s: System<V, Op, C, R>) {
    forall id :: id in s.calls ==>
      match s.calls[id]
      case Ready(_, attempt) => attempt < st.maxRetries
      case Watching(_, attempt, version) => version <= s.key.version && attempt < st.maxRetries
      case Deciding(op, attempt, version, read, clock) =>
        && version <= s.key.version && attempt < st.maxRetries
        && (version == s.key.version ==> read == s.key.value)
        && st.decide(read, op, clock).write.Some?
      case Finished(_, _) => true
  }

  ghost predicate InLog<V(!new), Op(!new), C(!new), R(!new)>(log: seq<Event<V, Op, C, R>>, id: nat, op: Op, reply: R) {
    exists i :: 0 <= i < |log| && log[i].call == id && log[i].op == op && log[i].decision.reply == reply
  }

  /** Each call takes effect at most once, and what it was told is what took effect. */
  ghost predicate EffectsMatchReplies<V(!new), Op(!new), C(!new), R(!new)>(s: System<V, Op, C, R>) {
    && (forall i :: 0 <= i < |s.log| ==> s.log[i].call in s.calls && s.calls[s.log[i].call].Finished? && s.calls[s.log[i].call].op == s.log[i].op)
    && (forall i, j :: 0 <= i < j < |s.log| ==> s.log[i].call != s.log[j].call)
    && (forall id :: id in s.calls && s.calls[id].Finished? && s.calls[id].result.Replied? ==> InLog(s.log, id, s.calls[id].op, s.calls[id].result.reply))
  }

  /** Every step of the optimistic system is a step of the atomic machine, or nothing there. */
  lemma StepRefines<V(!new), Op(!new), C(!new), R(!new)>(
    st: Store<V, Op, C, R>, s: System<V, Op, C, R>, s': System<V, Op, C, R>, id: nat, l: Label<V, Op, C, R>)
    requires ReadsCurrent(st, s) && Step(st, s, s', id, l)
    ensures Abstract(s') == Abstract(s) || MachineStep(st, Abstract(s), Abstract(s'))
  {
    match l
    case Create(v) => assert CreateStep(st, Abstract(s), Abstract(s'));
    case Get(clock) =>
      if st.decide(s.key.value, s.calls[id].op, clock).write.None? {
        assert EffectStep(st, Abstract(s), Abstract(s'), id, s.calls[id].op, clock);
      }
    case ExecWrites(_) =>
      assert EffectStep(st, Abstract(s), Abstract(s'), id, s.calls[id].op, s.calls[id].clock);
    case _ =>
  }

  lemma StepReadsCurrent<V(!new), Op(!new), C(!new), R(!new)>(
    st: Store<V, Op, C, R>, s: System<V, Op, C, R>, s': System<V, Op, C, R>, id: nat, l: Label<V, Op, C, R>)
    requires ReadsCurrent(st, s) && Step(st, s, s', id, l) && st.maxRetries >= 1
    ensures ReadsCurrent(st, s')
  {}

  lemma InLogMore<V(!new), Op(!new), C(!new), R(!new)>(log: seq<Event<V, Op, C, R>>, more: seq<Event<V, Op, C, R>>, id: nat, op: Op, reply: R)
    requires InLog(log, id, op, reply)
    ensures InLog(log + more, id, op, reply)
  {
    var i :| 0 <= i < |log| && log[i].call == id && log[i].op == op && log[i].decision.reply == reply;
    assert (log + more)[i] == log[i];
  }

  lemma StepEffectsMatch<V(!new), Op(!new), C(!new), R(!new)>(
    st: Store<V, Op, C, R>, s: System<V, Op, C, R>, s': System<V, Op, C, R>, id: nat, l: Label<V, Op, C, R>)
    requires EffectsMatchReplies(s) && Step(st, s, s', id, l)
    ensures EffectsMatchReplies(s')
  {
    assert s'.log == s.log || (|s'.log| == |s.log| + 1 && s'.log == s.log + [s'.log[|s.log|]]);
    forall k | k in s'.calls && s'.calls[k].Finished? && s'.calls[k].result.Replied?
      ensures InLog(s'.log, k, s'.calls[k].op, s'.calls[k].result.reply)
    {
      if k in s.calls && s'.calls[k] == s.calls[k] {
        if s'.log != s.log {
          InLogMore(s.log, [s'.log[|s.log|]], k, s.calls[k].op, s.calls[k].result.reply);
        }
      } else {
        assert s'.log[|s.log|].call == id;
      }
    }
  }

  lemma {:induction false} RunInvariant<V(!new), Op(!new), C(!new), R(!new)>(st: Store<V, Op, C, R>, run: seq<System<V, Op, C, R>>, k: nat)
    requires IsRun(st, run) && k < |run|
    ensures ReadsCurrent(st, run[k]) && EffectsMatchReplies(run[k])
  {
    if k > 0 {
      RunInvariant(st, run, k - 1);
      var i := k - 1;
      assert Next(st, run[i], run[k]);
      var id, l :| Step(st, run[i], run[k], id, l);
      StepReadsCurrent(st, run[i], run[k], id, l);
      StepEffectsMatch(st, run[i], run[k], id, l);
    }
  }

  /** Refinement: neighbouring states of every run are related by the atomic machine. */
  lemma RunRefines<V(!new), Op(!new), C(!new), R(!new)>(st: Store<V, Op, C, R>, run: seq<System<V, Op, C, R>>, i: nat, k: nat)
    requires IsRun(st, run) && k == i + 1 < |run|
    ensures Abstract(run[k]) == Abstract(run[i]) || MachineStep(st, Abstract(run[i]), Abstract(run[k]))
  {
    RunInvariant(st, run, i);
    assert Next(st, run[i], run[k]);
    var id, l :| Step(st, run[i], run[k], id, l);
    StepRefines(st, run[i], run[k], id, l);
  }

  /** What a call was told. */
  ghost predicate Told<V(!new), Op(!new), C(!new), R(!new)>(s: System<V, Op, C, R>, id: nat, reply: R) {
    id in s.calls && s.calls[id].Finished? && s.calls[id].result == Replied(reply)
  }

  /** What a call was told took effect, exactly once. */
  lemma ToldTookEffect<V(!new), Op(!new), C(!new), R(!new)>(
    st: Store<V, Op, C, R>, run: seq<System<V, Op, C, R>>, k: nat, id: nat, reply: R) returns (i: nat)
    requires IsRun(st, run) && k < |run| && Told(run[k], id, reply)
    ensures i < |run[k].log| && run[k].log[i].call == id && run[k].log[i].op == run[k].calls[id].op && run[k].log[i].decision.reply == reply
    ensures forall j :: 0 <= j < |run[k].log| && run[k].log[j].call == id ==> j == i
  {
    RunInvariant(st, run, k);
    assert InLog(run[k].log, id, run[k].calls[id].op, reply);
    i :| 0 <= i < |run[k].log| && run[k].log[i].call == id && run[k].log[i].op == run[k].calls[id].op && run[k].log[i].decision.reply == reply;
  }

  /** A property that every step of the atomic machine keeps holds in every state of every run. */
  lemma {:induction false} MachineInvariantHolds<V(!new), Op(!new), C(!new), R(!new)>(
    st: Store<V, Op, C, R>, run: seq<System<V, Op, C, R>>, k: nat, inv: Machine<V, Op, C, R> -> bool)
    requires IsRun(st, run) && k < |run|
    requires inv(Machine(None, false, []))
    requires forall m, m' :: inv(m) && MachineStep(st, m, m') ==> inv(m')
    ensures inv(Abstract(run[k]))
  {
    if k > 0 {
      MachineInvariantHolds(st, run, k - 1, inv);
      RunRefines(st, run, k - 1, k);
    }
  }

  /** A relation to later states: reflexive, and extended by every step of the atomic machine. */
  lemma {:induction false} MachineRelationHolds<V(!new), Op(!new), C(!new), R(!new)>(
    st: Store<V, Op, C, R>, run: seq<System<V, Op, C, R>>, i: nat, k: nat, rel: (Machine<V, Op, C, R>, Machine<V, Op, C, R>) -> bool)
    requires IsRun(st, run) && i <= k < |run|
    requires rel(Abstract(run[i]), Abstract(run[i]))
    requires forall m, m' :: rel(Abstract(run[i]), m) && MachineStep(st, m, m') ==> rel(Abstract(run[i]), m')
    ensures rel(Abstract(run[i]), Abstract(run[k]))
  {
    if i < k {
      MachineRelationHolds(st, run, i, k - 1, rel);
      RunRefines(st, run, k - 1, k);
    }
  }
}

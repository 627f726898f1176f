/** Slot construction and shutdown of the process resources: any number of threads acquiring any
  * slots through `_once`, and any number of closers in `aclose`, stepping between lock operations,
  * unlocked reads and writes in any order.
  */
module ProcessResources {

  datatype Lifecycle = Open | Closing | Closed

  datatype Lock = Free | HeldBy(thread: nat)

  datatype Answer = Got(value: nat) | Refused | BuildFailed

  /** Where a thread is. Acquirers name their slot; values are numbered in the order built. */
  datatype Pc =
    | Check(slot: nat)                      // _ensure_open, no lock
    | Peek(slot: nat)                       // first read of the slot, no lock
    | WantSlotLock(slot: nat)
    | Recheck(slot: nat)                    // _ensure_open under the slot lock
    | Reread(slot: nat)                     // second read, under the slot lock
    | Build(slot: nat)                      // the builder, under the slot lock
    | WantPublish(slot: nat, value: nat)    // waiting for the shutdown lock
    | Publish(slot: nat, value: nat)        // under both locks
    | Orphan(slot: nat, value: nat)         // built during closing: dispose, under both locks
    | Acquired(slot: nat, answer: Answer)
    | WantClose                             // waiting for the shutdown lock
    | CloseCheck                            // reading the lifecycle under the shutdown lock
    | Snapshot                              // CLOSING set: copying the slots
    | Clear(built: map<nat, nat>)           // slots copied: clearing them
    | Dispose(rest: map<nat, nat>)          // disposing the copied slots, no lock
    | WantFinish                            // waiting for the shutdown lock again
    | Finish                                // under the shutdown lock: CLOSED
    | SetEvent                              // CLOSED set: setting the event
    | WaitClosed                            // another closer owns disposal
    | ClosedReturn

  datatype Publication = Publication(slot: nat, value: nat)

  datatype Disposal = Disposal(value: nat, thread: nat)

  /** The shared fields, and the history the theorems are about. A value is its index in
    * `builders`, which holds the thread that built it.
    */
  datatype Shared = Shared(
    life: Lifecycle, slots: map<nat, nat>, slotLocks: map<nat, nat>, shutdownLock: Lock, closedEvent: bool,
    builders: seq<nat>,
    closers: seq<nat>,              // threads that took the lifecycle out of OPEN
    published: seq<Publication>,    // writes of a slot
    started: seq<Disposal>)         // disposals started

  datatype State = State(shared: Shared, threads: seq<Pc>)

  /** Any number of threads, each about to acquire some slot or to close. */
  ghost predicate Init(s: State) {
    && s.shared == Shared(Open, map[], map[], Free, false, [], [], [], [])
    && forall pc :: pc in s.threads ==> pc.Check? || pc.WantClose?
  }

  function FreeSlot(g: Shared, slot: nat): Shared {
    g.(slotLocks := g.slotLocks - {slot})
  }

  /** The owner starts disposing one of the slots it copied. */
  ghost predicate DisposeOne(g: Shared, g': Shared, t: nat, rest: map<nat, nat>, slot: nat, pc': Pc) {
    && slot in rest
    && pc' == Dispose(rest - {slot})
    && g' == g.(started := g.started + [Disposal(rest[slot], t)])
  }

  /** The thread is closing, not acquiring. */
  predicate Closer(pc: Pc) {
    pc.WantClose? || pc.CloseCheck? || Owner(pc) || pc.WaitClosed? || pc.ClosedReturn?
  }

  /** One step of `_once` by thread `t`, from `pc` to `pc'`, the shared state going from `g` to `g'`. */
  ghost predicate AcquirerStep(g: Shared, g': Shared, t: nat, pc: Pc, pc': Pc)
    requires !Closer(pc)
  {
    match pc
    case Check(slot) =>
      g' == g && pc' == if g.life.Open? then Peek(slot) else Acquired(slot, Refused)
    case Peek(slot) =>
      g' == g && pc' == if slot in g.slots then Acquired(slot, Got(g.slots[slot])) else WantSlotLock(slot)
    case WantSlotLock(slot) =>
      slot !in g.slotLocks && g' == g.(slotLocks := g.slotLocks[slot := t]) && pc' == Recheck(slot)
    case Recheck(slot) =>
      if g.life.Open? then g' == g && pc' == Reread(slot)
      else g' == FreeSlot(g, slot) && pc' == Acquired(slot, Refused)
    case Reread(slot) =>
      if slot in g.slots then g' == FreeSlot(g, slot) && pc' == Acquired(slot, Got(g.slots[slot]))
      else g' == g && pc' == Build(slot)
    case Build(slot) =>
      || (g' == FreeSlot(g, slot) && pc' == Acquired(slot, BuildFailed))
      || (g' == g.(builders := g.builders + [t]) && pc' == WantPublish(slot, |g.builders|))
    case WantPublish(slot, v) =>
      g.shutdownLock.Free? && g' == g.(shutdownLock := HeldBy(t)) && pc' == Publish(slot, v)
    case Publish(slot, v) =>
      if g.life.Open? then
        && g' == FreeSlot(g, slot).(slots := g.slots[slot := v], shutdownLock := Free, published := g.published + [Publication(slot, v)])
        && pc' == Acquired(slot, Got(v))
      else g' == g && pc' == Orphan(slot, v)
    case Orphan(slot, v) =>
      && g' == FreeSlot(g, slot).(shutdownLock := Free, started := g.started + [Disposal(v, t)])
      && pc' == Acquired(slot, Refused)
    case Acquired(_, _) => false
  }

  /** One step of `aclose`. */
  ghost predicate CloserStep(g: Shared, g': Shared, t: nat, pc: Pc, pc': Pc)
    requires Closer(pc)
  {
    match pc
    case WantClose =>
      g.shutdownLock.Free? && g' == g.(shutdownLock := HeldBy(t)) && pc' == CloseCheck
    case CloseCheck =>
      if g.life.Closed? then g' == g.(shutdownLock := Free) && pc' == ClosedReturn
      else if g.life.Closing? then g' == g.(shutdownLock := Free) && pc' == WaitClosed
      else g' == g.(life := Closing, closers := g.closers + [t]) && pc' == Snapshot
    case Snapshot => g' == g && pc' == Clear(g.slots)
    case Clear(built) => g' == g.(slots := map[], shutdownLock := Free) && pc' == Dispose(built)
    case Dispose(rest) =>
      || (rest == map[] && g' == g && pc' == WantFinish)
      || (exists slot :: DisposeOne(g, g', t, rest, slot, pc'))
    case WantFinish =>
      g.shutdownLock.Free? && g' == g.(shutdownLock := HeldBy(t)) && pc' == Finish
    case Finish => g' == g.(life := Closed) && pc' == SetEvent
    case SetEvent => g' == g.(closedEvent := true, shutdownLock := Free) && pc' == ClosedReturn
    case WaitClosed => g.closedEvent && g' == g && pc' == ClosedReturn
    case ClosedReturn => false
  }

  ghost predicate ThreadStep(g: Shared, g': Shared, t: nat, pc: Pc, pc': Pc) {
    if Closer(pc) then CloserStep(g, g', t, pc, pc') else AcquirerStep(g, g', t, pc, pc')
  }

  ghost predicate StepBy(s: State, s': State, t: nat) {
    && t < |s.threads| == |s'.threads|
    && s'.threads == s.threads[t := s'.threads[t]]
    && ThreadStep(s.shared, s'.shared, t, s.threads[t], s'.threads[t])
  }

  ghost predicate Next(s: State, s': State) {
    exists t :: StepBy(s, s', t)
  }

  ghost predicate IsRun(run: seq<State>) {
    && |run| > 0 && Init(run[0])
    && forall i, j :: 0 <= i < j < |run| && j == i + 1 ==> Next(run[i], run[j])
  }

  // ----- where a value can be -----

  predicate HoldsSlotLock(pc: Pc) {
    pc.Recheck? || pc.Reread? || pc.Build? || Passing(pc)
  }

  predicate HoldsShutdown(pc: Pc) {
    pc.Publish? || pc.Orphan? || pc.CloseCheck? || pc.Snapshot? || pc.Clear? || pc.Finish? || pc.SetEvent?
  }

  /** The builder has its value in hand. */
  predicate Passing(pc: Pc) {
    pc.WantPublish? || pc.Publish? || pc.Orphan?
  }

  /** The closer that moved the lifecycle out of OPEN, until it returns. */
  predicate Owner(pc: Pc) {
    pc.Snapshot? || pc.Clear? || Emptied(pc)
  }

  /** The owner, once it has cleared the slots. */
  predicate Emptied(pc: Pc) {
    pc.Dispose? || pc.WantFinish? || pc.Finish? || pc.SetEvent?
  }

  ghost predicate Published(g: Shared, v: nat) {
    exists slot :: Publication(slot, v) in g.published
  }

  ghost predicate Started(g: Shared, v: nat) {
    exists t :: Disposal(v, t) in g.started
  }

  // ----- the invariant -----

  /** One closer leaves OPEN; the event comes after CLOSED; CLOSED finds no slot filled. */
  ghost predicate LifeInv(g: Shared) {
    && (if g.life.Open? then g.closers == [] else |g.closers| == 1)
    && (g.closedEvent ==> g.life.Closed?)
    && (g.life.Closed? ==> g.slots == map[])
  }

  /** Each slot is written once, with a value never written elsewhere. */
  ghost predicate WrittenOnce(published: seq<Publication>) {
    forall i, j :: 0 <= i < j < |published| ==>
      published[i].slot != published[j].slot && published[i].value != published[j].value
  }

  ghost predicate PublishedInv(g: Shared) {
    && WrittenOnce(g.published)
    && (forall p :: p in g.published ==> p.value < |g.builders|)
    && (forall slot :: slot in g.slots ==> Publication(slot, g.slots[slot]) in g.published)
    && (g.life.Open? ==> forall p :: p in g.published ==> p.slot in g.slots)
  }

  ghost predicate StartedOnce(started: seq<Disposal>) {
    forall i, j :: 0 <= i < j < |started| ==> started[i].value != started[j].value
  }

  /** Disposal of a written value is started by the one closer, of any other by its own builder. */
  ghost predicate StartedBy(g: Shared) {
    forall d :: d in g.started ==>
      && d.value < |g.builders|
      && if Published(g, d.value) then g.closers == [d.thread] else g.builders[d.value] == d.thread
  }

  ghost predicate SlotsUnstarted(g: Shared) {
    forall slot :: slot in g.slots ==> !Started(g, g.slots[slot])
  }

  ghost predicate StartedInv(g: Shared) {
    StartedOnce(g.started) && StartedBy(g) && SlotsUnstarted(g)
  }

  ghost predicate SharedInv(g: Shared) {
    LifeInv(g) && PublishedInv(g) && StartedInv(g)
  }

  ghost predicate SlotLockInv(g: Shared, t: nat, pc: Pc) {
    HoldsSlotLock(pc) ==> pc.slot in g.slotLocks && g.slotLocks[pc.slot] == t
  }

  ghost predicate ShutdownLockInv(g: Shared, t: nat, pc: Pc) {
    HoldsShutdown(pc) ==> g.shutdownLock == HeldBy(t)
  }

  ghost predicate LockInv(g: Shared, t: nat, pc: Pc) {
    SlotLockInv(g, t, pc) && ShutdownLockInv(g, t, pc)
  }

  ghost predicate OwnerInv(g: Shared, t: nat, pc: Pc) {
    && (Owner(pc) ==> g.closers == [t] && (g.life.Closed? <==> pc.SetEvent?))
    && (pc.ClosedReturn? ==> g.life.Closed?)
  }

  ghost predicate ClearInv(g: Shared, pc: Pc) {
    && (pc.Clear? ==> pc.built == g.slots)
    && (Emptied(pc) ==> g.slots == map[])
  }

  ghost predicate DisposeInv(g: Shared, pc: Pc) {
    pc.Dispose? ==> forall slot :: slot in pc.rest ==>
                      Publication(slot, pc.rest[slot]) in g.published && !Started(g, pc.rest[slot])
  }

  ghost predicate CloserInv(g: Shared, t: nat, pc: Pc) {
    OwnerInv(g, t, pc) && ClearInv(g, pc) && DisposeInv(g, pc)
  }

  ghost predicate EmptySlotInv(g: Shared, pc: Pc) {
    Filling(pc) ==> pc.slot !in g.slots
  }

  ghost predicate PassingInv(g: Shared, t: nat, pc: Pc) {
    && (Passing(pc) ==> pc.value < |g.builders| && g.builders[pc.value] == t && !Published(g, pc.value) && !Started(g, pc.value))
    && (pc.Orphan? ==> !g.life.Open?)
  }

  ghost predicate GotInv(g: Shared, pc: Pc) {
    pc.Acquired? && pc.answer.Got? ==> Publication(pc.slot, pc.answer.value) in g.published
  }

  ghost predicate BuilderInv(g: Shared, t: nat, pc: Pc) {
    EmptySlotInv(g, pc) && PassingInv(g, t, pc) && GotInv(g, pc)
  }

  ghost predicate ThreadInv(g: Shared, t: nat, pc: Pc) {
    LockInv(g, t, pc) && CloserInv(g, t, pc) && BuilderInv(g, t, pc)
  }

  /** A built value is with its builder, written to its slot, or on its way out. */
  ghost predicate BuiltKept(s: State) {
    forall v :: 0 <= v < |s.shared.builders| ==>
      || Published(s.shared, v) || Started(s.shared, v)
      || (s.shared.builders[v] < |s.threads| && Passing(s.threads[s.shared.builders[v]]) && s.threads[s.shared.builders[v]].value == v)
  }

  /** From the end of OPEN until the event is set, the owner is still at work. */
  ghost predicate OwnerAtWork(s: State) {
    !s.shared.life.Open? && !s.shared.closedEvent ==> |s.shared.closers| == 1 && s.shared.closers[0] < |s.threads| && Owner(s.threads[s.shared.closers[0]])
  }

  /** A written value is still in its slot, or was copied by the owner, or its disposal started. */
  ghost predicate WrittenKept(s: State) {
    forall p :: p in s.shared.published ==>
      || (p.slot in s.shared.slots && s.shared.slots[p.slot] == p.value)
      || Started(s.shared, p.value)
      || Copied(s, p)
  }

  ghost predicate Copied(s: State, p: Publication) {
    && |s.shared.closers| == 1 && s.shared.closers[0] < |s.threads| && s.threads[s.shared.closers[0]].Dispose?
    && var rest := s.threads[s.shared.closers[0]].rest;
       p.slot in rest && rest[p.slot] == p.value
  }

  ghost predicate Inv(s: State) {
    && SharedInv(s.shared)
    && (forall t :: 0 <= t < |s.threads| ==> ThreadInv(s.shared, t, s.threads[t]))
    && BuiltKept(s) && OwnerAtWork(s) && WrittenKept(s)
  }

  // ----- what a step does to each shared field -----

  ghost predicate SlotLockMove(g: Shared, g': Shared, t: nat, pc: Pc, pc': Pc) {
    || (pc.WantSlotLock? && pc.slot !in g.slotLocks && g'.slotLocks == g.slotLocks[pc.slot := t] && pc' == Recheck(pc.slot))
    || (HoldsSlotLock(pc) && !HoldsSlotLock(pc') && g'.slotLocks == g.slotLocks - {pc.slot})
    || (g'.slotLocks == g.slotLocks && if HoldsSlotLock(pc) then HoldsSlotLock(pc') && pc'.slot == pc.slot else !HoldsSlotLock(pc'))
  }

  ghost predicate ShutdownLockMove(g: Shared, g': Shared, t: nat, pc: Pc, pc': Pc) {
    || (g.shutdownLock.Free? && g'.shutdownLock == HeldBy(t) && HoldsShutdown(pc'))
    || (HoldsShutdown(pc) && !HoldsShutdown(pc') && g'.shutdownLock.Free?)
    || (g'.shutdownLock == g.shutdownLock && HoldsShutdown(pc') == HoldsShutdown(pc))
  }

  /** The lifecycle moves only at the two writes, and only an owner finishes. */
  ghost predicate LifeMove(g: Shared, g': Shared, t: nat, pc: Pc, pc': Pc) {
    && (|| (pc.CloseCheck? && g.life.Open? && g'.life.Closing? && g'.closers == g.closers + [t] && pc' == Snapshot)
        || (pc.Finish? && g'.life.Closed? && g'.closers == g.closers && pc' == SetEvent)
        || (g'.life == g.life && g'.closers == g.closers && !pc'.SetEvent? && (Owner(pc') ==> Owner(pc) && !pc.SetEvent?)))
    && (pc'.ClosedReturn? ==> g.life.Closed? || pc.SetEvent? || g.closedEvent)
    && g'.closedEvent == (g.closedEvent || pc.SetEvent?)
    && (Owner(pc) ==> Owner(pc') || pc.SetEvent?)
    && (pc'.WaitClosed? ==> !g.life.Open?)
  }

  ghost predicate SlotsMove(g: Shared, g': Shared, pc: Pc, pc': Pc) {
    && (|| (pc.Publish? && g.life.Open? && g'.slots == g.slots[pc.slot := pc.value] && g'.published == g.published + [Publication(pc.slot, pc.value)])
        || (pc.Clear? && g'.slots == map[] && g'.published == g.published && pc' == Dispose(pc.built))
        || (g'.slots == g.slots && g'.published == g.published))
    && (pc'.Clear? ==> pc' == Clear(g.slots) && g'.slots == g.slots)
    && (Emptied(pc') ==> (pc.Clear? && g'.slots == map[]) || (Emptied(pc) && g'.slots == g.slots))
    && (Filling(pc') ==> g'.slots == g.slots && (pc'.slot !in g.slots || (Filling(pc) && pc'.slot == pc.slot)))
    && (pc'.Acquired? && pc'.answer.Got? ==> pc'.slot in g'.slots && g'.slots[pc'.slot] == pc'.answer.value)
  }

  /** Between finding the slot empty and writing it. */
  predicate Filling(pc: Pc) { pc.Build? || pc.WantPublish? || pc.Publish? }

  ghost predicate StartedMove(g: Shared, g': Shared, t: nat, pc: Pc, pc': Pc) {
    || (pc.Orphan? && g'.started == g.started + [Disposal(pc.value, t)] && SameStores(g, g') && !pc'.Dispose?)
    || (pc.Dispose? && SameStores(g, g') && exists slot :: DisposeOne(g, g', t, pc.rest, slot, pc'))
    || (g'.started == g.started && (pc'.Dispose? ==> pc.Clear? && pc'.rest == pc.built) && (pc.Dispose? ==> pc.rest == map[]))
  }

  ghost predicate SameStores(g: Shared, g': Shared) {
    g'.slots == g.slots && g'.published == g.published && g'.closers == g.closers && g'.builders == g.builders
  }

  ghost predicate BuildersMove(g: Shared, g': Shared, t: nat, pc: Pc, pc': Pc) {
    && (|| (pc.Build? && g'.builders == g.builders + [t] && pc' == WantPublish(pc.slot, |g.builders|))
        || (g'.builders == g.builders && (Passing(pc') ==> Passing(pc) && pc'.value == pc.value && pc'.slot == pc.slot)))
    && (Passing(pc') ==> g'.published == g.published && g'.started == g.started)
    && (pc'.Orphan? ==> !g.life.Open? && g'.life == g.life)
    && (Passing(pc) ==> Passing(pc') || pc.Publish? || pc.Orphan?)
    && (pc.Publish? && !Passing(pc') ==> g'.published == g.published + [Publication(pc.slot, pc.value)])
    && (pc.Orphan? ==> !Passing(pc') && g'.started == g.started + [Disposal(pc.value, t)])
  }

  /** A copied slot stays with the owner until its disposal is started. */
  lemma DisposalMoves(g: Shared, g': Shared, t: nat, pc: Pc, pc': Pc)
    requires StartedMove(g, g', t, pc, pc') && pc.Dispose?
    ensures forall slot :: slot in pc.rest ==>
      Started(g', pc.rest[slot]) || (pc'.Dispose? && slot in pc'.rest && pc'.rest[slot] == pc.rest[slot])
  {}

  ghost predicate LockMoves(g: Shared, g': Shared, t: nat, pc: Pc, pc': Pc) {
    SlotLockMove(g, g', t, pc, pc') && ShutdownLockMove(g, g', t, pc, pc')
  }

  ghost predicate ValueMoves(g: Shared, g': Shared, t: nat, pc: Pc, pc': Pc) {
    SlotsMove(g, g', pc, pc') && StartedMove(g, g', t, pc, pc') && BuildersMove(g, g', t, pc, pc')
  }

  lemma AcquirerLock(g: Shared, g': Shared, t: nat, pc: Pc, pc': Pc)
    requires !Closer(pc) && AcquirerStep(g, g', t, pc, pc')
    ensures LockMoves(g, g', t, pc, pc')
  {}

  lemma AcquirerLife(g: Shared, g': Shared, t: nat, pc: Pc, pc': Pc)
    requires !Closer(pc) && AcquirerStep(g, g', t, pc, pc')
    ensures LifeMove(g, g', t, pc, pc')
  {}

  lemma AcquirerValue(g: Shared, g': Shared, t: nat, pc: Pc, pc': Pc)
    requires !Closer(pc) && AcquirerStep(g, g', t, pc, pc')
    ensures ValueMoves(g, g', t, pc, pc')
  {}

  lemma CloserLock(g: Shared, g': Shared, t: nat, pc: Pc, pc': Pc)
    requires Closer(pc) && CloserStep(g, g', t, pc, pc')
    ensures LockMoves(g, g', t, pc, pc')
  {}

  lemma CloserLife(g: Shared, g': Shared, t: nat, pc: Pc, pc': Pc)
    requires Closer(pc) && CloserStep(g, g', t, pc, pc')
    ensures LifeMove(g, g', t, pc, pc')
  {}

  lemma CloserValue(g: Shared, g': Shared, t: nat, pc: Pc, pc': Pc)
    requires Closer(pc) && CloserStep(g, g', t, pc, pc')
    ensures ValueMoves(g, g', t, pc, pc')
  {}

  lemma StepMoves(g: Shared, g': Shared, t: nat, pc: Pc, pc': Pc)
    requires ThreadStep(g, g', t, pc, pc')
    ensures LockMoves(g, g', t, pc, pc') && LifeMove(g, g', t, pc, pc') && ValueMoves(g, g', t, pc, pc')
  {
    hide AcquirerStep, CloserStep, LockMoves, LifeMove, ValueMoves;
    if Closer(pc) {
      CloserLock(g, g', t, pc, pc');
      CloserLife(g, g', t, pc, pc');
      CloserValue(g, g', t, pc, pc');
    } else {
      AcquirerLock(g, g', t, pc, pc');
      AcquirerLife(g, g', t, pc, pc');
      AcquirerValue(g, g', t, pc, pc');
    }
  }

  // ----- every step keeps it -----

  lemma StepLife(g: Shared, g': Shared, t: nat, pc: Pc, pc': Pc)
    requires LifeInv(g) && CloserInv(g, t, pc) && LifeMove(g, g', t, pc, pc') && SlotsMove(g, g', pc, pc')
    ensures LifeInv(g')
  {}

  lemma StepPublished(g: Shared, g': Shared, t: nat, pc: Pc, pc': Pc)
    requires LifeInv(g) && PublishedInv(g) && CloserInv(g, t, pc) && BuilderInv(g, t, pc) && LifeMove(g, g', t, pc, pc') && SlotsMove(g, g', pc, pc') && BuildersMove(g, g', t, pc, pc')
    ensures PublishedInv(g')
  {}

  /** What a step adds to the disposals: nothing, or one value that had none. */
  lemma StartedGrows(g: Shared, g': Shared, t: nat, pc: Pc, pc': Pc)
    requires CloserInv(g, t, pc) && BuilderInv(g, t, pc) && StartedMove(g, g', t, pc, pc')
    ensures g'.started == g.started || (exists v :: g'.started == g.started + [Disposal(v, t)] && !Started(g, v))
  {}

  lemma StepStartedOnce(g: Shared, g': Shared, t: nat, pc: Pc, pc': Pc)
    requires StartedOnce(g.started) && CloserInv(g, t, pc) && BuilderInv(g, t, pc) && StartedMove(g, g', t, pc, pc')
    ensures StartedOnce(g'.started)
  {
    hide CloserInv, BuilderInv, StartedMove;
    StartedGrows(g, g', t, pc, pc');
  }

  lemma StepStartedBy(g: Shared, g': Shared, t: nat, pc: Pc, pc': Pc)
    requires LifeInv(g) && PublishedInv(g) && StartedBy(g) && CloserInv(g, t, pc) && BuilderInv(g, t, pc)
    requires LifeMove(g, g', t, pc, pc') && SlotsMove(g, g', pc, pc') && StartedMove(g, g', t, pc, pc') && BuildersMove(g, g', t, pc, pc')
    ensures StartedBy(g')
  {}

  lemma StepSlotsUnstarted(g: Shared, g': Shared, t: nat, pc: Pc, pc': Pc)
    requires PublishedInv(g) && SlotsUnstarted(g) && CloserInv(g, t, pc) && BuilderInv(g, t, pc)
    requires SlotsMove(g, g', pc, pc') && StartedMove(g, g', t, pc, pc')
    ensures SlotsUnstarted(g')
  {}

  lemma StepSlotLock(g: Shared, g': Shared, t: nat, pc: Pc, pc': Pc)
    requires SlotLockInv(g, t, pc) && SlotLockMove(g, g', t, pc, pc')
    ensures SlotLockInv(g', t, pc')
  {}

  lemma StepShutdownLock(g: Shared, g': Shared, t: nat, pc: Pc, pc': Pc)
    requires ShutdownLockInv(g, t, pc) && ShutdownLockMove(g, g', t, pc, pc')
    ensures ShutdownLockInv(g', t, pc')
  {}

  lemma StepOwner(g: Shared, g': Shared, t: nat, pc: Pc, pc': Pc)
    requires LifeInv(g) && OwnerInv(g, t, pc) && LifeMove(g, g', t, pc, pc')
    ensures OwnerInv(g', t, pc')
  {}

  lemma StepClear(g: Shared, g': Shared, t: nat, pc: Pc, pc': Pc)
    requires ClearInv(g, pc) && SlotsMove(g, g', pc, pc')
    ensures ClearInv(g', pc')
  {}

  /** Two writes are of different slots exactly when they are of different values. */
  lemma WritesApart(published: seq<Publication>, p: Publication, q: Publication)
    requires WrittenOnce(published) && p in published && q in published
    ensures p.slot == q.slot <==> p.value == q.value
  {}

  lemma StepDispose(g: Shared, g': Shared, t: nat, pc: Pc, pc': Pc)
    requires PublishedInv(g) && SlotsUnstarted(g) && ClearInv(g, pc) && DisposeInv(g, pc) && SlotsMove(g, g', pc, pc') && StartedMove(g, g', t, pc, pc')
    ensures DisposeInv(g', pc')
  {
    if pc.Dispose? && pc'.Dispose? {
      var slot :| DisposeOne(g, g', t, pc.rest, slot, pc');
      forall other | other in pc'.rest
        ensures Publication(other, pc'.rest[other]) in g'.published && !Started(g', pc'.rest[other])
      {
        WritesApart(g.published, Publication(slot, pc.rest[slot]), Publication(other, pc.rest[other]));
      }
    }
  }

  lemma StepEmptySlot(g: Shared, g': Shared, t: nat, pc: Pc, pc': Pc)
    requires EmptySlotInv(g, pc) && SlotsMove(g, g', pc, pc')
    ensures EmptySlotInv(g', pc')
  {}

  lemma StepPassing(g: Shared, g': Shared, t: nat, pc: Pc, pc': Pc)
    requires PublishedInv(g) && StartedBy(g) && PassingInv(g, t, pc) && SlotsMove(g, g', pc, pc') && StartedMove(g, g', t, pc, pc') && BuildersMove(g, g', t, pc, pc')
    ensures PassingInv(g', t, pc')
  {}

  lemma StepGot(g: Shared, g': Shared, t: nat, pc: Pc, pc': Pc)
    requires PublishedInv(g') && SlotsMove(g, g', pc, pc')
    ensures GotInv(g', pc')
  {}

  // ----- a step by one thread keeps what every other thread knows -----

  lemma OtherSlotLock(g: Shared, g': Shared, t: nat, pc: Pc, pc': Pc, u: nat, other: Pc)
    requires u != t && SlotLockInv(g, t, pc) && SlotLockInv(g, u, other) && SlotLockMove(g, g', t, pc, pc')
    ensures SlotLockInv(g', u, other)
  {}

  lemma OtherShutdownLock(g: Shared, g': Shared, t: nat, pc: Pc, pc': Pc, u: nat, other: Pc)
    requires u != t && ShutdownLockInv(g, t, pc) && ShutdownLockInv(g, u, other) && ShutdownLockMove(g, g', t, pc, pc')
    ensures ShutdownLockInv(g', u, other)
  {}

  lemma OtherOwner(g: Shared, g': Shared, t: nat, pc: Pc, pc': Pc, u: nat, other: Pc)
    requires u != t && LifeInv(g) && OwnerInv(g, t, pc) && OwnerInv(g, u, other) && LifeMove(g, g', t, pc, pc')
    ensures OwnerInv(g', u, other)
  {}

  lemma OtherClear(g: Shared, g': Shared, t: nat, pc: Pc, pc': Pc, u: nat, other: Pc)
    requires u != t && LifeInv(g) && OwnerInv(g, t, pc) && OwnerInv(g, u, other) && ClearInv(g, other)
    requires SlotsMove(g, g', pc, pc')
    ensures ClearInv(g', other)
  {}

  lemma OtherDispose(g: Shared, g': Shared, t: nat, pc: Pc, pc': Pc, u: nat, other: Pc)
    requires u != t && OwnerInv(g, t, pc) && PassingInv(g, t, pc) && OwnerInv(g, u, other) && DisposeInv(g, other)
    requires SlotsMove(g, g', pc, pc') && StartedMove(g, g', t, pc, pc')
    ensures DisposeInv(g', other)
  {}

  lemma OtherEmptySlot(g: Shared, g': Shared, t: nat, pc: Pc, pc': Pc, u: nat, other: Pc)
    requires u != t && SlotLockInv(g, t, pc) && SlotLockInv(g, u, other) && EmptySlotInv(g, other)
    requires SlotsMove(g, g', pc, pc')
    ensures EmptySlotInv(g', other)
  {}

  lemma OtherPassing(g: Shared, g': Shared, t: nat, pc: Pc, pc': Pc, u: nat, other: Pc)
    requires u != t && LifeInv(g) && PassingInv(g, t, pc) && DisposeInv(g, pc) && PassingInv(g, u, other)
    requires LifeMove(g, g', t, pc, pc') && SlotsMove(g, g', pc, pc') && StartedMove(g, g', t, pc, pc') && BuildersMove(g, g', t, pc, pc')
    ensures PassingInv(g', u, other)
  {}

  lemma OtherGot(g: Shared, g': Shared, t: nat, pc: Pc, pc': Pc, other: Pc)
    requires GotInv(g, other) && SlotsMove(g, g', pc, pc')
    ensures GotInv(g', other)
  {}

  // ----- and the system invariant -----

  lemma StepShared(g: Shared, g': Shared, t: nat, pc: Pc, pc': Pc)
    requires SharedInv(g) && ThreadInv(g, t, pc) && ThreadStep(g, g', t, pc, pc')
    ensures SharedInv(g')
  {
    hide ThreadStep, LifeMove, SlotsMove, StartedMove, BuildersMove;
    StepMoves(g, g', t, pc, pc');
    StepLife(g, g', t, pc, pc');
    StepPublished(g, g', t, pc, pc');
    StepStartedOnce(g, g', t, pc, pc');
    StepStartedBy(g, g', t, pc, pc');
    StepSlotsUnstarted(g, g', t, pc, pc');
  }

  lemma StepThread(g: Shared, g': Shared, t: nat, pc: Pc, pc': Pc)
    requires SharedInv(g) && ThreadInv(g, t, pc) && ThreadStep(g, g', t, pc, pc')
    ensures ThreadInv(g', t, pc')
  {
    hide ThreadStep, SlotLockInv, ShutdownLockInv, OwnerInv, ClearInv, DisposeInv, EmptySlotInv, PassingInv, GotInv;
    hide SlotLockMove, ShutdownLockMove, LifeMove, SlotsMove, StartedMove, BuildersMove;
    StepMoves(g, g', t, pc, pc');
    StepShared(g, g', t, pc, pc');
    StepSlotLock(g, g', t, pc, pc');
    StepShutdownLock(g, g', t, pc, pc');
    StepOwner(g, g', t, pc, pc');
    StepClear(g, g', t, pc, pc');
    StepDispose(g, g', t, pc, pc');
    StepEmptySlot(g, g', t, pc, pc');
    StepPassing(g, g', t, pc, pc');
    StepGot(g, g', t, pc, pc');
  }

  lemma StepOther(g: Shared, g': Shared, t: nat, pc: Pc, pc': Pc, u: nat, other: Pc)
    requires u != t && SharedInv(g) && ThreadInv(g, t, pc) && ThreadInv(g, u, other) && ThreadStep(g, g', t, pc, pc')
    ensures ThreadInv(g', u, other)
  {
    hide ThreadStep, SlotLockInv, ShutdownLockInv, OwnerInv, ClearInv, DisposeInv, EmptySlotInv, PassingInv, GotInv;
    hide SlotLockMove, ShutdownLockMove, LifeMove, SlotsMove, StartedMove, BuildersMove;
    StepMoves(g, g', t, pc, pc');
    OtherSlotLock(g, g', t, pc, pc', u, other);
    OtherShutdownLock(g, g', t, pc, pc', u, other);
    OtherOwner(g, g', t, pc, pc', u, other);
    OtherClear(g, g', t, pc, pc', u, other);
    OtherDispose(g, g', t, pc, pc', u, other);
    OtherEmptySlot(g, g', t, pc, pc', u, other);
    OtherPassing(g, g', t, pc, pc', u, other);
    OtherGot(g, g', t, pc, pc', other);
  }

  /** The history only grows. */
  lemma HistoryGrows(g: Shared, g': Shared, t: nat, pc: Pc, pc': Pc)
    requires LifeMove(g, g', t, pc, pc') && SlotsMove(g, g', pc, pc') && StartedMove(g, g', t, pc, pc') && BuildersMove(g, g', t, pc, pc')
    ensures g.builders <= g'.builders && g.published <= g'.published && g.started <= g'.started && g.closers <= g'.closers
    ensures forall v :: Published(g, v) ==> Published(g', v)
    ensures forall v :: Started(g, v) ==> Started(g', v)
  {}

  /** What becomes of the value a builder has just made, or has in hand. */
  lemma BuilderPasses(g: Shared, g': Shared, t: nat, pc: Pc, pc': Pc)
    requires BuildersMove(g, g', t, pc, pc')
    ensures g'.builders == g.builders || (g'.builders == g.builders + [t] && Passing(pc') && pc'.value == |g.builders|)
    ensures Passing(pc) ==> Published(g', pc.value) || Started(g', pc.value) || (Passing(pc') && pc'.value == pc.value)
  {
    if pc.Publish? && !Passing(pc') {
      assert Publication(pc.slot, pc.value) in g'.published;
    } else if pc.Orphan? {
      assert Disposal(pc.value, t) in g'.started;
    }
  }

  lemma StepBuiltKept(s: State, s': State, t: nat)
    requires StepBy(s, s', t) && BuiltKept(s)
    ensures BuiltKept(s')
  {
    hide ThreadStep, Passing, Published, Started;
    hide SlotLockMove, ShutdownLockMove, LifeMove, SlotsMove, StartedMove, BuildersMove;
    var g, g', pc, pc' := s.shared, s'.shared, s.threads[t], s'.threads[t];
    StepMoves(g, g', t, pc, pc');
    HistoryGrows(g, g', t, pc, pc');
    BuilderPasses(g, g', t, pc, pc');
  }

  lemma StepOwnerAtWork(s: State, s': State, t: nat)
    requires StepBy(s, s', t) && OwnerAtWork(s) && LifeInv(s.shared) && OwnerInv(s.shared, t, s.threads[t])
    ensures OwnerAtWork(s')
  {
    hide ThreadStep;
    StepMoves(s.shared, s'.shared, t, s.threads[t], s'.threads[t]);
  }

  lemma StepWrittenKept(s: State, s': State, t: nat)
    requires StepBy(s, s', t) && WrittenKept(s) && LifeInv(s.shared) && OwnerInv(s.shared, t, s.threads[t])
    requires ClearInv(s.shared, s.threads[t]) && EmptySlotInv(s.shared, s.threads[t])
    ensures WrittenKept(s')
  {
    hide ThreadStep, Started;
    var g, g', pc, pc' := s.shared, s'.shared, s.threads[t], s'.threads[t];
    StepMoves(g, g', t, pc, pc');
    HistoryGrows(g, g', t, pc, pc');
    if pc.Dispose? {
      DisposalMoves(g, g', t, pc, pc');
    }
  }

  lemma StepInv(s: State, s': State, t: nat)
    requires Inv(s) && StepBy(s, s', t)
    ensures Inv(s')
  {
    hide ThreadStep, SharedInv, ThreadInv, BuiltKept, OwnerAtWork, WrittenKept;
    var g, g', pc, pc' := s.shared, s'.shared, s.threads[t], s'.threads[t];
    StepShared(g, g', t, pc, pc');
    StepThread(g, g', t, pc, pc');
    forall u | 0 <= u < |s'.threads| && u != t ensures ThreadInv(g', u, s'.threads[u]) {
      StepOther(g, g', t, pc, pc', u, s.threads[u]);
    }
    StepWhole(s, s', t);
  }

  lemma StepWhole(s: State, s': State, t: nat)
    requires Inv(s) && StepBy(s, s', t)
    ensures BuiltKept(s') && OwnerAtWork(s') && WrittenKept(s')
  {
    hide ThreadStep, LifeInv, PublishedInv, StartedInv, OwnerInv, ClearInv, EmptySlotInv, BuiltKept, OwnerAtWork, WrittenKept;
    assert ThreadInv(s.shared, t, s.threads[t]);
    StepBuiltKept(s, s', t);
    StepOwnerAtWork(s, s', t);
    StepWrittenKept(s, s', t);
  }

  lemma InitInv(s: State)
    requires Init(s)
    ensures Inv(s)
  {
    forall t | 0 <= t < |s.threads| ensures ThreadInv(s.shared, t, s.threads[t]) {
      assert s.threads[t] in s.threads;
    }
  }

  lemma {:induction false} RunInv(run: seq<State>, i: nat)
    requires IsRun(run) && i < |run|
    ensures Inv(run[i])
  {
    hide Inv, Init, StepBy;
    if i == 0 {
      InitInv(run[0]);
    } else {
      RunInv(run, i - 1);
      var t: nat :| StepBy(run[i - 1], run[i], t);
      StepInv(run[i - 1], run[i], t);
    }
  }

  // ----- what holds over every run -----

  /** Thread `t` has acquired its slot. */
  ghost predicate GotAt(s: State, t: nat) {
    t < |s.threads| && s.threads[t].Acquired? && s.threads[t].answer.Got?
  }

  /** A slot is written at most once, and everyone who gets that slot gets the value written. */
  lemma SlotsPublishOnce(run: seq<State>, i: nat)
    requires IsRun(run) && i < |run|
    ensures WrittenOnce(run[i].shared.published)
    ensures forall t: nat, u: nat :: GotAt(run[i], t) && GotAt(run[i], u) ==>
              (run[i].threads[t].slot == run[i].threads[u].slot <==> run[i].threads[t].answer == run[i].threads[u].answer)
  {
    hide IsRun;
    RunInv(run, i);
    var g, threads := run[i].shared, run[i].threads;
    forall t: nat, u: nat | GotAt(run[i], t) && GotAt(run[i], u)
      ensures threads[t].slot == threads[u].slot <==> threads[t].answer == threads[u].answer
    {
      assert ThreadInv(g, t, threads[t]) && ThreadInv(g, u, threads[u]);
      WritesApart(g.published, Publication(threads[t].slot, threads[t].answer.value), Publication(threads[u].slot, threads[u].answer.value));
    }
  }

  lemma StepAfterOpen(g: Shared, g': Shared, t: nat, pc: Pc, pc': Pc)
    requires !g.life.Open? && LifeMove(g, g', t, pc, pc') && SlotsMove(g, g', pc, pc')
    ensures !g'.life.Open? && g'.published == g.published && g'.closers == g.closers
  {}

  /** Once OPEN has ended it never comes back, and no slot is written any more. */
  lemma {:induction false} NothingPublishedAfterOpen(run: seq<State>, i: nat, j: nat)
    requires IsRun(run) && i <= j < |run| && !run[i].shared.life.Open?
    ensures !run[j].shared.life.Open? && run[j].shared.published == run[i].shared.published
  {
    hide ThreadStep;
    if i < j {
      NothingPublishedAfterOpen(run, i, j - 1);
      var t: nat :| StepBy(run[j - 1], run[j], t);
      StepMoves(run[j - 1].shared, run[j].shared, t, run[j - 1].threads[t], run[j].threads[t]);
      StepAfterOpen(run[j - 1].shared, run[j].shared, t, run[j - 1].threads[t], run[j].threads[t]);
    }
  }

  /** An acquirer that has not read the lifecycle since OPEN ended, or was refused. */
  predicate Late(pc: Pc) {
    pc.Check? || pc.WantSlotLock? || pc.Recheck? || (pc.Acquired? && pc.answer.Refused?)
  }

  lemma LateStays(g: Shared, g': Shared, t: nat, pc: Pc, pc': Pc)
    requires !g.life.Open? && Late(pc) && ThreadStep(g, g', t, pc, pc')
    ensures Late(pc') && g'.builders == g.builders
  {}

  /** An acquirer that starts after OPEN ended, or was still to read the lifecycle under the slot lock,
    * builds nothing and never gets a value: when it returns it was refused.
    */
  lemma {:induction false} LateAcquirersRefused(run: seq<State>, i: nat, j: nat, t: nat)
    requires IsRun(run) && i <= j < |run| && !run[i].shared.life.Open? && t < |run[i].threads| && Late(run[i].threads[t])
    ensures t < |run[j].threads| && Late(run[j].threads[t])
    ensures forall v :: |run[i].shared.builders| <= v < |run[j].shared.builders| ==> run[j].shared.builders[v] != t
  {
    hide ThreadStep, Late;
    if i < j {
      LateAcquirersRefused(run, i, j - 1, t);
      NothingPublishedAfterOpen(run, i, j - 1);
      var s, s' := run[j - 1], run[j];
      var u: nat :| StepBy(s, s', u);
      StepMoves(s.shared, s'.shared, u, s.threads[u], s'.threads[u]);
      BuilderPasses(s.shared, s'.shared, u, s.threads[u], s'.threads[u]);
      if u == t {
        LateStays(s.shared, s'.shared, t, s.threads[t], s'.threads[t]);
      }
    }
  }

  ghost predicate RefusedAfterOpen(s: State) {
    forall pc :: pc in s.threads && pc.Acquired? && pc.answer.Refused? ==> !s.shared.life.Open?
  }

  lemma StepRefused(s: State, s': State, t: nat)
    requires StepBy(s, s', t) && RefusedAfterOpen(s) && PassingInv(s.shared, t, s.threads[t])
    ensures RefusedAfterOpen(s')
  {
    hide Passing;
    StepMoves(s.shared, s'.shared, t, s.threads[t], s'.threads[t]);
    forall u | 0 <= u < |s'.threads| && s'.threads[u].Acquired? && s'.threads[u].answer.Refused? ensures !s'.shared.life.Open? {
      if u != t {
        assert s'.threads[u] == s.threads[u] && s.threads[u] in s.threads;
      }
    }
  }

  /** Nobody is refused while the resources are open. */
  lemma {:induction false} RefusedOnlyAfterOpen(run: seq<State>, i: nat, t: nat)
    requires IsRun(run) && i < |run| && t < |run[i].threads| && run[i].threads[t].Acquired? && run[i].threads[t].answer.Refused?
    ensures !run[i].shared.life.Open?
  {
    hide IsRun;
    AllRefusedAfterOpen(run, i);
    assert run[i].threads[t] in run[i].threads;
  }

  lemma {:induction false} AllRefusedAfterOpen(run: seq<State>, i: nat)
    requires IsRun(run) && i < |run|
    ensures RefusedAfterOpen(run[i])
  {
    hide StepBy, RefusedAfterOpen, SharedInv, LockInv, CloserInv;
    if i == 0 {
      NoneRefused(run[0]);
    } else {
      AllRefusedAfterOpen(run, i - 1);
      RunInv(run, i - 1);
      var t: nat :| StepBy(run[i - 1], run[i], t);
      StepInRange(run[i - 1], run[i], t);
      assert ThreadInv(run[i - 1].shared, t, run[i - 1].threads[t]);
      StepRefused(run[i - 1], run[i], t);
    }
  }

  lemma NoneRefused(s: State)
    requires Init(s)
    ensures RefusedAfterOpen(s)
  {}

  /** What a builder has come to: its value is still in its hands, or it got that value, or it was
    * refused.
    */
  predicate Outcome(pc: Pc, v: nat) {
    (Passing(pc) && pc.value == v) || (pc.Acquired? && (pc.answer == Got(v) || pc.answer == Refused))
  }

  ghost predicate BuildersAnswered(s: State) {
    forall v :: 0 <= v < |s.shared.builders| ==> s.shared.builders[v] < |s.threads| && Outcome(s.threads[s.shared.builders[v]], v)
  }

  lemma AcquirerOutcome(g: Shared, g': Shared, t: nat, pc: Pc, pc': Pc)
    requires !Closer(pc) && AcquirerStep(g, g', t, pc, pc')
    ensures g'.builders == g.builders || (g'.builders == g.builders + [t] && Outcome(pc', |g.builders|) && pc.Build?)
    ensures forall v :: Outcome(pc, v) ==> Outcome(pc', v)
  {}

  lemma StepBuildersAnswered(s: State, s': State, t: nat)
    requires StepBy(s, s', t) && BuildersAnswered(s)
    ensures BuildersAnswered(s')
  {
    hide AcquirerStep, CloserStep, Outcome;
    var pc, pc' := s.threads[t], s'.threads[t];
    if Closer(pc) {
      CloserBuilds(s.shared, s'.shared, t, pc, pc');
    } else {
      AcquirerOutcome(s.shared, s'.shared, t, pc, pc');
    }
    NoOutcomeYet(pc);
  }

  lemma CloserBuilds(g: Shared, g': Shared, t: nat, pc: Pc, pc': Pc)
    requires Closer(pc) && CloserStep(g, g', t, pc, pc')
    ensures g'.builders == g.builders
  {}

  lemma NoOutcomeYet(pc: Pc)
    ensures Closer(pc) || pc.Build? ==> forall v :: !Outcome(pc, v)
  {}

  /** Whoever built a value ends with that value or a refusal, never as a failed build. */
  lemma {:induction false} BuilderGetsItsValue(run: seq<State>, i: nat, v: nat)
    requires IsRun(run) && i < |run| && v < |run[i].shared.builders|
    ensures run[i].shared.builders[v] < |run[i].threads| && Outcome(run[i].threads[run[i].shared.builders[v]], v)
  {
    hide IsRun, Outcome;
    AllBuildersAnswered(run, i);
  }

  lemma {:induction false} AllBuildersAnswered(run: seq<State>, i: nat)
    requires IsRun(run) && i < |run|
    ensures BuildersAnswered(run[i])
  {
    hide StepBy, Outcome;
    if i > 0 {
      AllBuildersAnswered(run, i - 1);
      var t: nat :| StepBy(run[i - 1], run[i], t);
      StepBuildersAnswered(run[i - 1], run[i], t);
    }
  }

  /** On open resources an acquirer of a filled slot takes no lock: each of its steps leads on to the
    * read of the slot or to its value.
    */
  lemma FilledSlotNeedsNoLock(s: State, s': State, t: nat)
    requires StepBy(s, s', t) && s.shared.life.Open?
    requires var pc := s.threads[t]; (pc.Check? || pc.Peek?) && pc.slot in s.shared.slots
    ensures var pc, pc' := s.threads[t], s'.threads[t];
      s'.shared == s.shared && (pc' == Peek(pc.slot) || pc' == Acquired(pc.slot, Got(s.shared.slots[pc.slot]))) && !pc'.Check?
      && (pc.Peek? ==> pc'.Acquired?)
  {}

  /** One closer takes the lifecycle out of OPEN; all disposals are its, of written values, or a
    * builder's, of its own unwritten value; and no closer returns before CLOSED.
    */
  lemma OneCloserDisposes(run: seq<State>, i: nat)
    requires IsRun(run) && i < |run|
    ensures |run[i].shared.closers| <= 1
    ensures StartedBy(run[i].shared)
    ensures forall t :: 0 <= t < |run[i].threads| && run[i].threads[t].ClosedReturn? ==> run[i].shared.life.Closed?
  {
    hide IsRun, PublishedInv;
    RunInv(run, i);
    forall t | 0 <= t < |run[i].threads| && run[i].threads[t].ClosedReturn? ensures run[i].shared.life.Closed? {
      assert ThreadInv(run[i].shared, t, run[i].threads[t]);
    }
  }

  /** How many times disposal of `v` was started. */
  function Starts(started: seq<Disposal>, v: nat): nat {
    if started == [] then 0 else Starts(started[..|started| - 1], v) + (if started[|started| - 1].value == v then 1 else 0)
  }

  lemma {:induction false} StartsAtMostOnce(started: seq<Disposal>, v: nat)
    requires StartedOnce(started)
    ensures Starts(started, v) == if exists d :: d in started && d.value == v then 1 else 0
  {
    if started != [] {
      var last := |started| - 1;
      var front := started[..last];
      StartsAtMostOnce(front, v);
      assert forall d :: d in started <==> d in front || d == started[last];
      if started[last].value == v {
        assert started[last] in started;
        forall d | d in front ensures d.value != v {
          var k :| 0 <= k < |front| && front[k] == d;
          assert started[k] == d;
        }
      }
    }
  }

  /** Once CLOSED, every value whose builder has moved on had its disposal started exactly once;
    * at any time no disposal is started twice.
    */
  lemma BuiltValuesDisposedOnce(run: seq<State>, i: nat, v: nat)
    requires IsRun(run) && i < |run| && v < |run[i].shared.builders|
    ensures Starts(run[i].shared.started, v) <= 1
    ensures run[i].shared.builders[v] < |run[i].threads|
    ensures run[i].shared.life.Closed? && !Passing(run[i].threads[run[i].shared.builders[v]]) ==> Starts(run[i].shared.started, v) == 1
  {
    hide IsRun;
    RunInv(run, i);
    var s := run[i];
    StartsAtMostOnce(s.shared.started, v);
    BuiltInRange(run, i, v);
    if s.shared.life.Closed? && !Passing(s.threads[s.shared.builders[v]]) {
      ClosedStarted(s, v);
    }
  }

  lemma NothingCopiedWhenClosed(s: State, p: Publication)
    requires Inv(s) && s.shared.life.Closed?
    ensures !Copied(s, p)
  {}

  lemma ClosedStarted(s: State, v: nat)
    requires Inv(s) && v < |s.shared.builders| && s.shared.life.Closed?
    requires s.shared.builders[v] < |s.threads| && !Passing(s.threads[s.shared.builders[v]])
    ensures exists d :: d in s.shared.started && d.value == v
  {
    if Published(s.shared, v) {
      var slot :| Publication(slot, v) in s.shared.published;
      NothingCopiedWhenClosed(s, Publication(slot, v));
    }
    assert Started(s.shared, v);
    var t :| Disposal(v, t) in s.shared.started;
  }

  lemma {:induction false} BuiltInRange(run: seq<State>, i: nat, v: nat)
    requires IsRun(run) && i < |run| && v < |run[i].shared.builders|
    ensures run[i].shared.builders[v] < |run[i].threads|
  {
    hide ThreadStep;
    if i > 0 {
      var t: nat :| StepBy(run[i - 1], run[i], t);
      StepMoves(run[i - 1].shared, run[i].shared, t, run[i - 1].threads[t], run[i].threads[t]);
      BuilderPasses(run[i - 1].shared, run[i].shared, t, run[i - 1].threads[t], run[i].threads[t]);
      if v < |run[i - 1].shared.builders| {
        BuiltInRange(run, i - 1, v);
      }
    }
  }

  // ----- no deadlock -----

  /** A held lock has a thread behind it that is between taking and releasing it. */
  ghost predicate SlotLocksOwned(s: State) {
    forall slot :: slot in s.shared.slotLocks ==>
      && s.shared.slotLocks[slot] < |s.threads|
      && HoldsSlotLock(s.threads[s.shared.slotLocks[slot]])
      && s.threads[s.shared.slotLocks[slot]].slot == slot
  }

  ghost predicate ShutdownLockOwned(s: State) {
    s.shared.shutdownLock.HeldBy? ==>
      s.shared.shutdownLock.thread < |s.threads| && HoldsShutdown(s.threads[s.shared.shutdownLock.thread])
  }

  ghost predicate WaitersSawClosing(s: State) {
    forall pc :: pc in s.threads && pc.WaitClosed? ==> !s.shared.life.Open?
  }

  lemma StepSlotLocksOwned(s: State, s': State, t: nat)
    requires StepBy(s, s', t) && SlotLocksOwned(s) && SlotLockInv(s.shared, t, s.threads[t])
    ensures SlotLocksOwned(s')
  {
    hide ThreadStep, ShutdownLockMove, LifeMove, SlotsMove, StartedMove, BuildersMove;
    StepMoves(s.shared, s'.shared, t, s.threads[t], s'.threads[t]);
  }

  lemma StepShutdownLockOwned(s: State, s': State, t: nat)
    requires StepBy(s, s', t) && ShutdownLockOwned(s) && ShutdownLockInv(s.shared, t, s.threads[t])
    ensures ShutdownLockOwned(s')
  {
    hide ThreadStep, SlotLockMove, LifeMove, SlotsMove, StartedMove, BuildersMove;
    StepMoves(s.shared, s'.shared, t, s.threads[t], s'.threads[t]);
  }

  lemma StepWaiters(s: State, s': State, t: nat)
    requires StepBy(s, s', t) && WaitersSawClosing(s)
    ensures WaitersSawClosing(s')
  {
    hide ThreadStep, SlotLockMove, ShutdownLockMove, SlotsMove, StartedMove, BuildersMove;
    StepMoves(s.shared, s'.shared, t, s.threads[t], s'.threads[t]);
  }

  lemma {:induction false} RunLocksOwned(run: seq<State>, i: nat)
    requires IsRun(run) && i < |run|
    ensures SlotLocksOwned(run[i]) && ShutdownLockOwned(run[i]) && WaitersSawClosing(run[i])
  {
    hide ThreadStep, StepBy, SlotLocksOwned, ShutdownLockOwned, WaitersSawClosing, SharedInv, CloserInv, BuilderInv;
    if i == 0 {
      InitLocksOwned(run[0]);
    } else {
      RunLocksOwned(run, i - 1);
      RunInv(run, i - 1);
      var s := run[i - 1];
      var t: nat :| StepBy(s, run[i], t);
      StepInRange(s, run[i], t);
      assert ThreadInv(s.shared, t, s.threads[t]);
      StepSlotLocksOwned(s, run[i], t);
      StepShutdownLockOwned(s, run[i], t);
      StepWaiters(s, run[i], t);
    }
  }

  lemma StepInRange(s: State, s': State, t: nat)
    requires StepBy(s, s', t)
    ensures t < |s.threads|
  {}

  lemma InitLocksOwned(s: State)
    requires Init(s)
    ensures SlotLocksOwned(s) && ShutdownLockOwned(s) && WaitersSawClosing(s)
  {}

  predicate Returned(pc: Pc) {
    pc.Acquired? || pc.ClosedReturn?
  }

  /** What thread `pc` is waiting for, if anything, has happened. */
  ghost predicate Ready(g: Shared, pc: Pc) {
    && !Returned(pc)
    && (pc.WantSlotLock? ==> pc.slot !in g.slotLocks)
    && (pc.WantPublish? || pc.WantClose? || pc.WantFinish? ==> g.shutdownLock.Free?)
    && (pc.WaitClosed? ==> g.closedEvent)
  }

  lemma ReadyCanStep(s: State, t: nat)
    requires t < |s.threads| && Ready(s.shared, s.threads[t])
    ensures exists s' :: StepBy(s, s', t)
  {
    var g', pc' := ReadyStep(s.shared, t, s.threads[t]);
    var s' := State(g', s.threads[t := pc']);
    assert StepBy(s, s', t);
  }

  lemma ReadyStep(g: Shared, t: nat, pc: Pc) returns (g': Shared, pc': Pc)
    requires Ready(g, pc)
    ensures ThreadStep(g, g', t, pc, pc')
  {
    g' := g;
    match pc
    case Check(slot) => pc' := if g.life.Open? then Peek(slot) else Acquired(slot, Refused);
    case Peek(slot) => pc' := if slot in g.slots then Acquired(slot, Got(g.slots[slot])) else WantSlotLock(slot);
    case WantSlotLock(slot) => g', pc' := g.(slotLocks := g.slotLocks[slot := t]), Recheck(slot);
    case Recheck(slot) =>
      if g.life.Open? { pc' := Reread(slot); } else { g', pc' := FreeSlot(g, slot), Acquired(slot, Refused); }
    case Reread(slot) =>
      if slot in g.slots { g', pc' := FreeSlot(g, slot), Acquired(slot, Got(g.slots[slot])); } else { pc' := Build(slot); }
    case Build(slot) => g', pc' := FreeSlot(g, slot), Acquired(slot, BuildFailed);
    case WantPublish(slot, v) => g', pc' := g.(shutdownLock := HeldBy(t)), Publish(slot, v);
    case Publish(slot, v) =>
      if g.life.Open? {
        g' := FreeSlot(g, slot).(slots := g.slots[slot := v], shutdownLock := Free, published := g.published + [Publication(slot, v)]);
        pc' := Acquired(slot, Got(v));
      } else {
        pc' := Orphan(slot, v);
      }
    case Orphan(slot, v) =>
      g', pc' := FreeSlot(g, slot).(shutdownLock := Free, started := g.started + [Disposal(v, t)]), Acquired(slot, Refused);
    case WantClose => g', pc' := g.(shutdownLock := HeldBy(t)), CloseCheck;
    case CloseCheck =>
      if g.life.Open? {
        g', pc' := g.(life := Closing, closers := g.closers + [t]), Snapshot;
      } else {
        g', pc' := g.(shutdownLock := Free), if g.life.Closed? then ClosedReturn else WaitClosed;
      }
    case Snapshot => pc' := Clear(g.slots);
    case Clear(built) => g', pc' := g.(slots := map[], shutdownLock := Free), Dispose(built);
    case Dispose(rest) =>
      if rest == map[] {
        pc' := WantFinish;
      } else {
        var slot :| slot in rest;
        g', pc' := g.(started := g.started + [Disposal(rest[slot], t)]), Dispose(rest - {slot});
        assert DisposeOne(g, g', t, rest, slot, pc');
      }
    case WantFinish => g', pc' := g.(shutdownLock := HeldBy(t)), Finish;
    case Finish => g', pc' := g.(life := Closed), SetEvent;
    case SetEvent => g', pc' := g.(closedEvent := true, shutdownLock := Free), ClosedReturn;
    case WaitClosed => pc' := ClosedReturn;
  }

  /** In every reachable state in which some thread has not returned, some thread can step. */
  lemma NoDeadlock(run: seq<State>, i: nat, t: nat)
    requires IsRun(run) && i < |run| && t < |run[i].threads| && !Returned(run[i].threads[t])
    ensures exists s' :: Next(run[i], s')
  {
    hide IsRun, StepBy;
    RunInv(run, i);
    RunLocksOwned(run, i);
    var s := run[i];
    var u := ReadyThread(s, t);
    ReadyCanStep(s, u);
    var s' :| StepBy(s, s', u);
    assert Next(s, s');
  }

  lemma ReadyThread(s: State, t: nat) returns (u: nat)
    requires SlotLocksOwned(s) && ShutdownLockOwned(s) && WaitersSawClosing(s) && OwnerAtWork(s)
    requires forall v :: 0 <= v < |s.threads| ==> ThreadInv(s.shared, v, s.threads[v])
    requires t < |s.threads| && !Returned(s.threads[t])
    ensures u < |s.threads| && Ready(s.shared, s.threads[u])
  {
    var g := s.shared;
    if g.shutdownLock.HeldBy? {
      u := g.shutdownLock.thread;
    } else if s.threads[t].WantSlotLock? && s.threads[t].slot in g.slotLocks {
      u := g.slotLocks[s.threads[t].slot];
    } else if s.threads[t].WaitClosed? && !g.closedEvent {
      assert s.threads[t] in s.threads;
      u := g.closers[0];
    } else {
      u := t;
    }
  }
}

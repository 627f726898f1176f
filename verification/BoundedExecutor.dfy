/** The bounded executor: any number of submitting and shutting-down threads, with the pool starting,
  * finishing and cancelling work, stepping in any order. Permits are conserved.
  */
module BoundedExecutor {

  /** The done callback: not yet added, registered for whoever finishes the future to run, or added
    * to a future already done, and so run by the thread that added it.
    */
  datatype Callback = NotAdded | Registered | Immediate

  /** An accepted future. Running its callback releases its permit. */
  datatype Future = Future(done: bool, callback: Callback, released: bool)

  /** Where a submitting thread is. */
  datatype Pc =
    | Waiting                 // before taking the shutdown lock
    | Admitted                // holds a permit, not yet in the pool
    | Failing                 // the pool refused: about to release the permit
    | Submitted(future: nat)  // in the pool, callback not yet added
    | Calling(future: nat)    // the future was done: running the callback itself
    | Accepted(future: nat)
    | RefusedShutdown
    | RefusedCapacity
    | RefusedByPool

  /** `admissions` counts permits taken, `releases` permits given back. */
  datatype State = State(
    capacity: nat, available: nat, shutdown: bool, poolShutdown: bool,
    threads: seq<Pc>, futures: seq<Future>, admissions: nat, releases: nat)

  ghost predicate Init(s: State, maxWorkers: nat, maxQueue: nat) {
    && maxWorkers >= 1
    && s == State(maxWorkers + maxQueue, maxWorkers + maxQueue, false, false, s.threads, [], 0, 0)
    && forall t :: 0 <= t < |s.threads| ==> s.threads[t].Waiting?
  }

  /** Releasing a permit; a `BoundedSemaphore` refuses to go over its initial value. */
  function Released(s: State): State {
    s.(available := s.available + 1, releases := s.releases + 1)
  }

  function At(s: State, t: nat, pc: Pc): State
    requires t < |s.threads|
  {
    s.(threads := s.threads[t := pc])
  }

  function WithFuture(s: State, f: nat, future: Future): State
    requires f < |s.futures|
  {
    s.(futures := s.futures[f := future])
  }

  /** `submit`, one action at a time. */
  ghost predicate SubmitStep(s: State, s': State, t: nat) {
    && t < |s.threads|
    && match s.threads[t]
       case Waiting =>
         s' == if s.shutdown then At(s, t, RefusedShutdown)
               else if s.available == 0 then At(s, t, RefusedCapacity)
               else At(s, t, Admitted).(available := s.available - 1, admissions := s.admissions + 1)
       case Admitted =>
         || s' == At(s, t, Failing)
         || (!s.poolShutdown && s' == At(s, t, Submitted(|s.futures|)).(futures := s.futures + [Future(false, NotAdded, false)]))
       case Failing => s' == Released(At(s, t, RefusedByPool))
       case Submitted(f) =>
         && f < |s.futures|
         && var future := s.futures[f];
            s' == if future.done then WithFuture(At(s, t, Calling(f)), f, future.(callback := Immediate))
                  else WithFuture(At(s, t, Accepted(f)), f, future.(callback := Registered))
       case Calling(f) =>
         f < |s.futures| && s' == Released(WithFuture(At(s, t, Accepted(f)), f, s.futures[f].(released := true)))
       case _ => false
  }

  /** A future becomes done: its work ended, or it was cancelled before starting. */
  ghost predicate DoneStep(s: State, s': State, f: nat) {
    && f < |s.futures| && !s.futures[f].done
    && s' == WithFuture(s, f, s.futures[f].(done := true))
  }

  /** Whoever finished the future runs the callback registered on it. */
  ghost predicate NotifyStep(s: State, s': State, f: nat) {
    && f < |s.futures| && s.futures[f].done && s.futures[f].callback.Registered? && !s.futures[f].released
    && s' == Released(WithFuture(s, f, s.futures[f].(released := true)))
  }

  /** `shutdown`: the flag, then the pool. */
  ghost predicate ShutdownStep(s: State, s': State) {
    s' == s.(shutdown := true) || (s.shutdown && s' == s.(poolShutdown := true))
  }

  ghost predicate Next(s: State, s': State) {
    (exists t :: SubmitStep(s, s', t)) || (exists f :: DoneStep(s, s', f)) || (exists f :: NotifyStep(s, s', f)) || ShutdownStep(s, s')
  }

  ghost predicate IsRun(run: seq<State>, maxWorkers: nat, maxQueue: nat) {
    && |run| > 0 && Init(run[0], maxWorkers, maxQueue)
    && forall i, j :: 0 <= i < j < |run| && j == i + 1 ==> Next(run[i], run[j])
  }

  // ----- who holds permits -----

  /** Between taking a permit and having a future that owns it. */
  predicate Between(pc: Pc) { pc.Admitted? || pc.Failing? }

  function HeldByThreads(threads: seq<Pc>): (n: nat)
    ensures n <= |threads|
  {
    if threads == [] then 0 else HeldByThreads(threads[..|threads| - 1]) + (if Between(threads[|threads| - 1]) then 1 else 0)
  }

  /** Futures whose permit has not been released. */
  function HeldByFutures(futures: seq<Future>): (n: nat)
    ensures n <= |futures|
  {
    if futures == [] then 0 else HeldByFutures(futures[..|futures| - 1]) + (if futures[|futures| - 1].released then 0 else 1)
  }

  /** Futures that are not done: work queued or running. */
  function Outstanding(futures: seq<Future>): nat {
    if futures == [] then 0 else Outstanding(futures[..|futures| - 1]) + (if futures[|futures| - 1].done then 0 else 1)
  }

  ghost predicate Conserved(s: State) {
    && s.available + HeldByThreads(s.threads) + HeldByFutures(s.futures) == s.capacity
    && s.admissions == s.releases + HeldByThreads(s.threads) + HeldByFutures(s.futures)
  }

  /** A released future is done and has its callback. */
  ghost predicate ReleasedDone(s: State) {
    forall f :: 0 <= f < |s.futures| && s.futures[f].released ==> s.futures[f].done && !s.futures[f].callback.NotAdded?
  }

  /** The thread is still to add the future's callback, or to run it. */
  predicate Owes(pc: Pc, future: Future) {
    (pc.Submitted? ==> future.callback.NotAdded?) && (pc.Calling? ==> future.callback.Immediate? && future.done) && !future.released
  }

  predicate Busy(pc: Pc) { pc.Submitted? || pc.Calling? }

  ghost predicate ThreadsOwe(s: State) {
    forall t :: 0 <= t < |s.threads| && Busy(s.threads[t]) ==>
      s.threads[t].future < |s.futures| && Owes(s.threads[t], s.futures[s.threads[t].future])
  }

  /** A future not registered and not released has its own thread still at work on it. */
  ghost predicate FuturesOwned(s: State) {
    forall f :: 0 <= f < |s.futures| && !s.futures[f].callback.Registered? && !s.futures[f].released ==> Awaited(s, f)
  }

  ghost predicate Awaited(s: State, f: nat) {
    exists t :: 0 <= t < |s.threads| && Busy(s.threads[t]) && s.threads[t].future == f
  }

  ghost predicate OwnFutures(s: State) {
    forall t, u :: 0 <= t < u < |s.threads| && Busy(s.threads[t]) && Busy(s.threads[u]) ==> s.threads[t].future != s.threads[u].future
  }

  ghost predicate Inv(s: State) {
    Conserved(s) && ReleasedDone(s) && ThreadsOwe(s) && OwnFutures(s) && FuturesOwned(s)
  }

  // ----- counting across updates -----

  lemma {:induction false} ThreadsUpdate(threads: seq<Pc>, t: nat, pc: Pc)
    requires t < |threads|
    ensures HeldByThreads(threads[t := pc]) + (if Between(threads[t]) then 1 else 0) == HeldByThreads(threads) + (if Between(pc) then 1 else 0)
  {
    var front, after := threads[..|threads| - 1], threads[t := pc];
    if t < |front| {
      ThreadsUpdate(front, t, pc);
      assert after[..|after| - 1] == front[t := pc];
    } else {
      assert after[..|after| - 1] == front;
    }
  }

  lemma {:induction false} FuturesUpdate(futures: seq<Future>, f: nat, future: Future)
    requires f < |futures|
    ensures HeldByFutures(futures[f := future]) + (if futures[f].released then 0 else 1) == HeldByFutures(futures) + (if future.released then 0 else 1)
  {
    var front, after := futures[..|futures| - 1], futures[f := future];
    if f < |front| {
      FuturesUpdate(front, f, future);
      assert after[..|after| - 1] == front[f := future];
    } else {
      assert after[..|after| - 1] == front;
    }
  }

  lemma FuturesAppend(futures: seq<Future>, future: Future)
    ensures HeldByFutures(futures + [future]) == HeldByFutures(futures) + (if future.released then 0 else 1)
  {}

  lemma {:induction false} OutstandingHeld(futures: seq<Future>)
    requires forall f :: 0 <= f < |futures| && futures[f].released ==> futures[f].done
    ensures Outstanding(futures) <= HeldByFutures(futures)
  {
    if futures != [] {
      OutstandingHeld(futures[..|futures| - 1]);
    }
  }

  lemma {:induction false} NoneHeld(futures: seq<Future>)
    requires forall f :: 0 <= f < |futures| ==> futures[f].released
    ensures HeldByFutures(futures) == 0
  {
    if futures != [] {
      NoneHeld(futures[..|futures| - 1]);
    }
  }

  lemma {:induction false} NoneBetween(threads: seq<Pc>)
    requires forall t :: 0 <= t < |threads| ==> !Between(threads[t])
    ensures HeldByThreads(threads) == 0
  {
    if threads != [] {
      NoneBetween(threads[..|threads| - 1]);
    }
  }

  // ----- every step -----

  lemma SubmitConserves(s: State, s': State, t: nat)
    requires Conserved(s) && ThreadsOwe(s) && SubmitStep(s, s', t)
    ensures Conserved(s')
  {
    hide HeldByThreads, HeldByFutures, ReleasedDone;
    ThreadsUpdate(s.threads, t, s'.threads[t]);
    match s.threads[t]
    case Admitted => FuturesAppend(s.futures, Future(false, NotAdded, false));
    case Submitted(f) => FuturesUpdate(s.futures, f, s'.futures[f]);
    case Calling(f) => FuturesUpdate(s.futures, f, s'.futures[f]);
    case _ =>
  }

  lemma SubmitKeepsReleased(s: State, s': State, t: nat)
    requires ReleasedDone(s) && ThreadsOwe(s) && SubmitStep(s, s', t)
    ensures ReleasedDone(s')
  {}

  lemma SubmitKeepsOwn(s: State, s': State, t: nat)
    requires ThreadsOwe(s) && OwnFutures(s) && SubmitStep(s, s', t)
    ensures OwnFutures(s')
  {}

  lemma SubmitKeepsOwing(s: State, s': State, t: nat)
    requires ReleasedDone(s) && ThreadsOwe(s) && OwnFutures(s) && SubmitStep(s, s', t)
    ensures ThreadsOwe(s')
  {}

  lemma SubmitKeepsOwned(s: State, s': State, t: nat)
    requires ThreadsOwe(s) && FuturesOwned(s) && SubmitStep(s, s', t)
    ensures FuturesOwned(s')
  {
    forall f | 0 <= f < |s'.futures| && !s'.futures[f].callback.Registered? && !s'.futures[f].released ensures Awaited(s', f) {
      if f < |s.futures| {
        assert Awaited(s, f);
        var u :| 0 <= u < |s.threads| && Busy(s.threads[u]) && s.threads[u].future == f;
        assert Busy(s'.threads[u]) && s'.threads[u].future == f;
      } else {
        assert s'.threads[t] == Submitted(f);
      }
    }
  }

  lemma SameThreadsOwn(s: State, s': State)
    requires FuturesOwned(s) && s'.threads == s.threads && |s'.futures| == |s.futures|
    requires forall f :: 0 <= f < |s.futures| ==>
      s'.futures[f].callback == s.futures[f].callback && (s.futures[f].released ==> s'.futures[f].released)
    ensures FuturesOwned(s')
  {}

  lemma DoneKeeps(s: State, s': State, f: nat)
    requires Inv(s) && (DoneStep(s, s', f) || NotifyStep(s, s', f))
    ensures Inv(s')
  {
    FuturesUpdate(s.futures, f, s'.futures[f]);
    SameThreadsOwn(s, s');
  }

  lemma StepInv(s: State, s': State)
    requires Inv(s) && Next(s, s')
    ensures Inv(s') && s'.capacity == s.capacity
  {
    if t: nat :| SubmitStep(s, s', t) {
      hide SubmitStep, Conserved, ReleasedDone, ThreadsOwe, OwnFutures, FuturesOwned;
      SubmitConserves(s, s', t);
      SubmitKeepsReleased(s, s', t);
      SubmitKeepsOwn(s, s', t);
      SubmitKeepsOwing(s, s', t);
      SubmitKeepsOwned(s, s', t);
      SubmitKeepsCapacity(s, s', t);
    } else if f: nat :| DoneStep(s, s', f) || NotifyStep(s, s', f) {
      DoneKeeps(s, s', f);
    } else {
      SameThreadsOwn(s, s');
    }
  }

  lemma SubmitKeepsCapacity(s: State, s': State, t: nat)
    requires SubmitStep(s, s', t)
    ensures s'.capacity == s.capacity
  {}

  lemma {:induction false} RunInv(run: seq<State>, maxWorkers: nat, maxQueue: nat, i: nat)
    requires IsRun(run, maxWorkers, maxQueue) && i < |run|
    ensures Inv(run[i]) && run[i].capacity == maxWorkers + maxQueue
  {
    hide Inv, Next;
    if i == 0 {
      InitInv(run[0], maxWorkers, maxQueue);
    } else {
      RunInv(run, maxWorkers, maxQueue, i - 1);
      StepInv(run[i - 1], run[i]);
    }
  }

  lemma InitInv(s: State, maxWorkers: nat, maxQueue: nat)
    requires Init(s, maxWorkers, maxQueue)
    ensures Inv(s)
  {
    NoneBetween(s.threads);
  }

  // ----- over every run -----

  /** Permits are conserved: those available and those held make the capacity; never more were
    * released than taken; and work that is not done never exceeds the capacity.
    */
  lemma PermitsConserved(run: seq<State>, maxWorkers: nat, maxQueue: nat, i: nat)
    requires IsRun(run, maxWorkers, maxQueue) && i < |run|
    ensures run[i].available + HeldByThreads(run[i].threads) + HeldByFutures(run[i].futures) == maxWorkers + maxQueue
    ensures run[i].available <= maxWorkers + maxQueue
    ensures run[i].admissions == run[i].releases + (maxWorkers + maxQueue - run[i].available)
    ensures Outstanding(run[i].futures) <= maxWorkers + maxQueue
  {
    RunInv(run, maxWorkers, maxQueue, i);
    OutstandingHeld(run[i].futures);
  }

  /** No permit is released twice: a release never finds all permits available, so the bounded
    * semaphore's own check never fails.
    */
  lemma NoDoubleRelease(run: seq<State>, maxWorkers: nat, maxQueue: nat, i: nat)
    requires IsRun(run, maxWorkers, maxQueue) && i + 1 < |run| && run[i + 1].releases > run[i].releases
    ensures run[i].available < maxWorkers + maxQueue && run[i + 1].available == run[i].available + 1
  {
    hide Inv;
    RunInv(run, maxWorkers, maxQueue, i);
    RunInv(run, maxWorkers, maxQueue, i + 1);
    var s, s' := run[i], run[i + 1];
    assert Next(s, s');
    if t: nat :| SubmitStep(s, s', t) {
      assert s'.available == s.available + 1;
    } else if f: nat :| NotifyStep(s, s', f) {
      assert s'.available == s.available + 1;
    }
    AvailableAtMost(s');
  }

  lemma AvailableAtMost(s: State)
    requires Inv(s)
    ensures s.available <= s.capacity
  {}

  ghost predicate OnlyForward(before: seq<Future>, after: seq<Future>) {
    && |before| <= |after|
    && forall f :: 0 <= f < |before| ==> (before[f].done ==> after[f].done) && (before[f].released ==> after[f].released)
  }

  lemma SubmitKeepsFutures(s: State, s': State, t: nat)
    requires SubmitStep(s, s', t)
    ensures OnlyForward(s.futures, s'.futures)
  {}

  lemma StepKeepsFutures(s: State, s': State)
    requires Next(s, s')
    ensures OnlyForward(s.futures, s'.futures)
  {
    hide SubmitStep;
    if t: nat :| SubmitStep(s, s', t) {
      SubmitKeepsFutures(s, s', t);
    }
  }

  /** Once done, or once its permit is back, a future stays so. */
  lemma {:induction false} DoneAndReleasedStay(run: seq<State>, maxWorkers: nat, maxQueue: nat, i: nat, k: nat, f: nat)
    requires IsRun(run, maxWorkers, maxQueue) && i <= k < |run| && f < |run[i].futures|
    ensures f < |run[k].futures|
    ensures (run[i].futures[f].done ==> run[k].futures[f].done) && (run[i].futures[f].released ==> run[k].futures[f].released)
  {
    hide Next;
    if i < k {
      DoneAndReleasedStay(run, maxWorkers, maxQueue, i, k - 1, f);
      StepKeepsFutures(run[k - 1], run[k]);
    }
  }

  /** All permits are back once every `submit` has returned, every accepted future is done, and the
    * callbacks registered on them have run. Done alone is not enough: a future is done before its
    * callbacks run.
    */
  lemma AllPermitsReturn(run: seq<State>, maxWorkers: nat, maxQueue: nat, i: nat)
    requires IsRun(run, maxWorkers, maxQueue) && i < |run|
    requires forall t :: 0 <= t < |run[i].threads| ==> !Between(run[i].threads[t]) && !Busy(run[i].threads[t])
    requires forall f :: 0 <= f < |run[i].futures| ==> run[i].futures[f].done
    ensures (forall f :: 0 <= f < |run[i].futures| && run[i].futures[f].callback.Registered? ==> run[i].futures[f].released) <==>
      run[i].available == maxWorkers + maxQueue
  {
    RunInv(run, maxWorkers, maxQueue, i);
    var s := run[i];
    NoneBetween(s.threads);
    forall f | 0 <= f < |s.futures| ensures s.futures[f].callback.Registered? || s.futures[f].released {
      assert !Awaited(s, f);
    }
    if forall f :: 0 <= f < |s.futures| && s.futures[f].callback.Registered? ==> s.futures[f].released {
      NoneHeld(s.futures);
    } else {
      var f :| 0 <= f < |s.futures| && !s.futures[f].released;
      SomeHeld(s.futures, f);
    }
  }

  lemma {:induction false} SomeHeld(futures: seq<Future>, f: nat)
    requires f < |futures| && !futures[f].released
    ensures HeldByFutures(futures) > 0
  {
    if f < |futures| - 1 {
      SomeHeld(futures[..|futures| - 1], f);
    }
  }

  /** Once shut down, nothing more is admitted. */
  lemma {:induction false} NothingAdmittedAfterShutdown(run: seq<State>, maxWorkers: nat, maxQueue: nat, i: nat, k: nat)
    requires IsRun(run, maxWorkers, maxQueue) && i <= k < |run| && run[i].shutdown
    ensures run[k].shutdown && run[k].admissions == run[i].admissions
  {
    if i < k {
      NothingAdmittedAfterShutdown(run, maxWorkers, maxQueue, i, k - 1);
      assert Next(run[k - 1], run[k]);
    }
  }

  /** A submission past the lock is admitted exactly when the executor is not shut down and some permit
    * is not held; refused as shut down exactly when it is; refused for capacity exactly when it is not
    * and every permit is held: no check is early.
    */
  lemma AdmittedIff(run: seq<State>, maxWorkers: nat, maxQueue: nat, i: nat, t: nat)
    requires IsRun(run, maxWorkers, maxQueue) && i + 1 < |run| && SubmitStep(run[i], run[i + 1], t) && run[i].threads[t].Waiting?
    ensures var held, pc := HeldByThreads(run[i].threads) + HeldByFutures(run[i].futures), run[i + 1].threads[t];
      && (pc.RefusedShutdown? <==> run[i].shutdown)
      && (pc.Admitted? <==> !run[i].shutdown && held < maxWorkers + maxQueue)
      && (pc.RefusedCapacity? <==> !run[i].shutdown && held == maxWorkers + maxQueue)
  {
    RunInv(run, maxWorkers, maxQueue, i);
  }
}

/** The append-only journal primitive: start once per idempotency key, one terminal per entry,
  * every change fenced by the lease epoch.
  */
module Journaling {
  import opened Basics

  datatype Reason = DigestMismatch | EntryExists | IdentityExists | NotFound | StaleEpoch | AlreadyCommitted | LeaseActive

  datatype Result<+T> = Done(value: T) | Refused(reason: Reason)

  datatype Terminal<T> = Terminal(payload: T, digest: string)

  datatype JournalState<S, T> = JournalState(
    start: S, startDigest: string, epoch: nat, owner: string, expires: int, terminal: Option<Terminal<T>>)

  function StartEntry<S, T>(
    candidate: JournalState<S, T>, byKey: Option<JournalState<S, T>>, byId: Option<JournalState<S, T>>): Result<JournalState<S, T>>
  {
    if byKey.Some? then
      if byKey.value.startDigest != candidate.startDigest then Refused(DigestMismatch) else Done(byKey.value)
    else if byId.Some? then Refused(EntryExists)
    else Done(candidate)
  }

  function CommitTerminal<S, T>(state: JournalState<S, T>, expected: nat, terminal: Terminal<T>): Result<JournalState<S, T>> {
    if state.epoch != expected then Refused(StaleEpoch)
    else if state.terminal.Some? then
      if state.terminal.value.digest != terminal.digest then Refused(AlreadyCommitted) else Done(state)
    else Done(state.(terminal := Some(terminal)))
  }

  function ReclaimLease<S, T>(state: JournalState<S, T>, now: int, owner: string, expires: int): Result<JournalState<S, T>> {
    if state.terminal.Some? then Refused(AlreadyCommitted)
    else if now < state.expires then Refused(LeaseActive)
    else Done(state.(epoch := state.epoch + 1, owner := owner, expires := expires))
  }

  /** How an entry may change: its start never; its lease only forwards; nothing after a terminal. */
  predicate Advances<S(==), T(==)>(a: JournalState<S, T>, b: JournalState<S, T>) {
    && b.start == a.start && b.startDigest == a.startDigest
    && a.epoch <= b.epoch
    && (a.terminal.Some? ==> b == a)
  }
}

/** The two case-repeat sinks as they hold their state: maps under one lock, and event and lease
  * rows under unique constraints. Both are proved against the journal's operations.
  */
module CaseRepeatSinks {
  import opened Basics
  import opened Journaling
  import opened CaseRepeats

  /** What `get` reads back. */
  datatype Recorded = Recorded(start: Start, startDigest: string, terminal: Option<Terminal<TerminalPayload>>)

  ghost function RecordedIn(j: Journal, id: string): Result<Recorded> {
    if id !in j.entries then Refused(NotFound)
    else Done(Recorded(j.entries[id].start, j.entries[id].startDigest, j.entries[id].terminal))
  }

  class InMemoryCaseRepeatSink {
    const startDigest: Start -> string
    const terminalDigest: TerminalPayload -> string
    var repeats: map<string, Entry>
    var idempotency: map<string, string>

    constructor (startDigest: Start -> string, terminalDigest: TerminalPayload -> string)
      ensures this.startDigest == startDigest && this.terminalDigest == terminalDigest
      ensures Contents() == Journal(map[], map[])
    {
      this.startDigest, this.terminalDigest := startDigest, terminalDigest;
      repeats, idempotency := map[], map[];
    }

    ghost function Contents(): Journal
      reads this
    {
      Journal(repeats, idempotency)
    }

    method Start(start: Start) returns (reply: Reply)
      modifies this`repeats, this`idempotency
      ensures (Contents(), reply) == MemoryStart(old(Contents()), start, startDigest(start))
    {
      var candidate := Candidate(start, startDigest(start));
      var prior := At(idempotency, start.key);
      var byKey := if prior.Some? && prior.value != "" then At(repeats, prior.value) else None;
      var outcome := StartEntry(candidate, byKey, At(repeats, start.id));
      if outcome.Refused? {
        return Failed(outcome.reason);
      }
      if prior.Some? {
        return Started(prior.value);
      }
      repeats := repeats[start.id := candidate];
      idempotency := idempotency[start.key := start.id];
      return Started(start.id);
    }

    method Finish(id: string, expected: nat, payload: TerminalPayload) returns (reply: Reply)
      modifies this`repeats
      ensures (Contents(), reply) == CaseRepeats.Finish(Memory, old(Contents()), id, expected, Terminal(payload, terminalDigest(payload)))
    {
      if id !in repeats {
        return Failed(NotFound);
      }
      var outcome := CommitTerminal(repeats[id], expected, Terminal(payload, terminalDigest(payload)));
      if outcome.Refused? {
        return Failed(outcome.reason);
      }
      repeats := repeats[id := outcome.value];
      return Finished;
    }

    method ClaimRecovery(id: string, owner: string, now: int, expires: int) returns (reply: Reply)
      modifies this`repeats
      ensures (Contents(), reply) == Claim(old(Contents()), id, owner, now, expires)
    {
      if id !in repeats {
        return Failed(NotFound);
      }
      var outcome := ReclaimLease(repeats[id], now, owner, expires);
      if outcome.Refused? {
        return Failed(outcome.reason);
      }
      repeats := repeats[id := outcome.value];
      return Claimed(outcome.value.epoch);
    }

    method Get(id: string) returns (recorded: Result<Recorded>)
      ensures recorded == RecordedIn(Contents(), id)
    {
      if id !in repeats {
        return Refused(NotFound);
      }
      return Done(Recorded(repeats[id].start, repeats[id].startDigest, repeats[id].terminal));
    }
  }

  datatype Event = StartedEvent(start: Start) | TerminalEvent(payload: TerminalPayload)

  /** A row of `business_query_case_repeat_events`; the event is its `event_kind` and `event_json`. */
  datatype EventRow = EventRow(
    id: string, key: string, project: string, runEpoch: string, caseId: string, repeatIndex: nat,
    event: Event, digest: string, epoch: nat)

  datatype LeaseRow = LeaseRow(owner: string, epoch: nat, expires: int)

  /** The unique constraints on event rows, each together with the event kind. */
  datatype Constraint = ById | ByKey | ByIdentity

  datatype InsertOutcome = Inserted | NothingDone | Violated(constraint: Constraint)

  predicate SameKind(a: EventRow, b: EventRow) {
    a.event.StartedEvent? == b.event.StartedEvent?
  }

  predicate Clash(c: Constraint, a: EventRow, b: EventRow) {
    && SameKind(a, b)
    && match c
       case ById => a.id == b.id
       case ByKey => a.key == b.key
       case ByIdentity => a.project == b.project && a.runEpoch == b.runEpoch && a.caseId == b.caseId && a.repeatIndex == b.repeatIndex
  }

  predicate ClashIn(c: Constraint, rows: seq<EventRow>, row: EventRow) {
    exists r :: r in rows && Clash(c, r, row)
  }

  /** The row repeats the start's key and identity. */
  predicate ColumnsOf(r: EventRow, s: Start) {
    && r.key == s.key && r.project == s.project && r.runEpoch == s.runEpoch
    && r.caseId == s.caseId && r.repeatIndex == s.repeatIndex
  }

  /** A row says of its entry what the journal says. */
  ghost predicate RowMatches(j: Journal, r: EventRow) {
    && r.id in j.entries
    && var entry := j.entries[r.id];
       && ColumnsOf(r, entry.start)
       && match r.event
          case StartedEvent(start) => start == entry.start && r.digest == entry.startDigest
          case TerminalEvent(payload) => entry.terminal == Some(Terminal(payload, r.digest)) && r.epoch == entry.epoch
  }

  ghost predicate HasStarted(rows: seq<EventRow>, id: string) {
    exists r :: r in rows && r.id == id && r.event.StartedEvent?
  }

  ghost predicate HasTerminal(rows: seq<EventRow>, id: string) {
    exists r :: r in rows && r.id == id && r.event.TerminalEvent?
  }

  ghost predicate RowsHold(rows: seq<EventRow>, j: Journal) {
    && (forall r :: r in rows ==> RowMatches(j, r))
    && (forall id :: id in j.entries ==> HasStarted(rows, id))
    && (forall id :: id in j.entries && j.entries[id].terminal.Some? ==> HasTerminal(rows, id))
  }

  ghost predicate LeasesHold(leases: map<string, LeaseRow>, j: Journal) {
    && leases.Keys == j.entries.Keys
    && forall id :: id in leases ==> leases[id] == LeaseRow(j.entries[id].owner, j.entries[id].epoch, j.entries[id].expires)
  }

  ghost predicate IdentitiesUnique(j: Journal) {
    forall a, b :: a in j.entries && b in j.entries && SameIdentity(j.entries[a].start, j.entries[b].start) ==> a == b
  }

  function StartedRow(s: Start, digest: string): EventRow {
    EventRow(s.id, s.key, s.project, s.runEpoch, s.caseId, s.repeatIndex, StartedEvent(s), digest, s.epoch)
  }

  /** Between transactions the rows are the journal; a terminal row carries the lease's epoch. */
  ghost predicate TablesHold(rows: seq<EventRow>, leases: map<string, LeaseRow>, j: Journal) {
    RowsHold(rows, j) && LeasesHold(leases, j) && KeysAgree(j) && IdentitiesUnique(j)
  }

  lemma StartedRowOf(rows: seq<EventRow>, leases: map<string, LeaseRow>, j: Journal, id: string) returns (r: EventRow)
    requires TablesHold(rows, leases, j) && id in j.entries
    ensures r in rows && r.id == id && r.event == StartedEvent(j.entries[id].start) && ColumnsOf(r, j.entries[id].start)
  {
    assert HasStarted(rows, id);
    r :| r in rows && r.id == id && r.event.StartedEvent?;
    assert RowMatches(j, r);
  }

  lemma RowsOfEntries(rows: seq<EventRow>, leases: map<string, LeaseRow>, j: Journal)
    requires TablesHold(rows, leases, j)
    ensures forall r :: r in rows ==>
      r.id in j.entries && ColumnsOf(r, j.entries[r.id].start) && r.key in j.keys && j.keys[r.key] == r.id
    ensures forall key :: key in j.keys ==> j.keys[key] in j.entries && j.entries[j.keys[key]].start.key == key
  {}

  /** A started row clashes exactly where the journal already has the key, the id or the identity. */
  lemma StartedClashes(rows: seq<EventRow>, leases: map<string, LeaseRow>, j: Journal, s: Start, digest: string)
    requires TablesHold(rows, leases, j)
    ensures ClashIn(ByKey, rows, StartedRow(s, digest)) <==> s.key in j.keys
    ensures ClashIn(ById, rows, StartedRow(s, digest)) <==> s.id in j.entries
    ensures ClashIn(ByIdentity, rows, StartedRow(s, digest)) <==> IdentityTaken(j, s)
  {
    hide TablesHold;
    var row := StartedRow(s, digest);
    RowsOfEntries(rows, leases, j);
    if s.key in j.keys {
      var r := StartedRowOf(rows, leases, j, j.keys[s.key]);
      assert Clash(ByKey, r, row);
    }
    if s.id in j.entries {
      var r := StartedRowOf(rows, leases, j, s.id);
      assert Clash(ById, r, row);
    }
    if IdentityTaken(j, s) {
      var id :| id in j.entries && SameIdentity(j.entries[id].start, s);
      var r := StartedRowOf(rows, leases, j, id);
      assert Clash(ByIdentity, r, row);
    }
  }

  /** A terminal row of a stored entry can only clash with that entry's own terminal row. */
  lemma TerminalClashes(rows: seq<EventRow>, leases: map<string, LeaseRow>, j: Journal, row: EventRow)
    requires TablesHold(rows, leases, j)
    requires row.event.TerminalEvent? && row.id in j.entries && ColumnsOf(row, j.entries[row.id].start)
    ensures ClashIn(ById, rows, row) <==> j.entries[row.id].terminal.Some?
    ensures ClashIn(ByKey, rows, row) || ClashIn(ByIdentity, rows, row) ==> ClashIn(ById, rows, row)
  {
    if j.entries[row.id].terminal.Some? {
      var r :| r in rows && r.id == row.id && r.event.TerminalEvent?;
      assert Clash(ById, r, row);
    }
    forall r | r in rows && (Clash(ByKey, r, row) || Clash(ByIdentity, r, row)) ensures Clash(ById, r, row) {
      assert RowMatches(j, r);
    }
  }

  lemma StartRows(rows: seq<EventRow>, j: Journal, s: Start, digest: string)
    requires RowsHold(rows, j) && KeysAgree(j) && s.key !in j.keys && s.id !in j.entries
    ensures RowsHold(rows + [StartedRow(s, digest)], Add(j, s, digest))
  {
    var rows', j' := rows + [StartedRow(s, digest)], Add(j, s, digest);
    forall id | id in j'.entries
      ensures HasStarted(rows', id) && (j'.entries[id].terminal.Some? ==> HasTerminal(rows', id))
    {
      if id == s.id {
        assert StartedRow(s, digest) in rows';
      } else {
        assert HasStarted(rows, id);
      }
    }
    forall r | r in rows' ensures RowMatches(j', r) {
      if r in rows { assert RowMatches(j, r); }
    }
  }

  lemma FinishRows(rows: seq<EventRow>, j: Journal, row: EventRow)
    requires RowsHold(rows, j) && row.event.TerminalEvent? && row.id in j.entries && j.entries[row.id].terminal.None?
    requires RowMatches(WithTerminal(j, row), row)
    ensures RowsHold(rows + [row], WithTerminal(j, row))
  {
    var rows' := rows + [row];
    var j' := WithTerminal(j, row);
    forall id | id in j'.entries
      ensures HasStarted(rows', id) && (j'.entries[id].terminal.Some? ==> HasTerminal(rows', id))
    {
      assert HasStarted(rows, id);
      if id == row.id {
        assert row in rows';
      } else if j'.entries[id].terminal.Some? {
        assert HasTerminal(rows, id);
      }
    }
    forall r | r in rows' ensures RowMatches(j', r) {
      if r in rows { assert RowMatches(j, r); }
    }
  }

  /** A takeover touches no event row: the entry has no terminal one. */
  lemma ClaimRows(rows: seq<EventRow>, j: Journal, id: string, owner: string, now: int, expires: int)
    requires RowsHold(rows, j)
    ensures RowsHold(rows, Claim(j, id, owner, now, expires).0)
  {
    var j' := Claim(j, id, owner, now, expires).0;
    forall r | r in rows ensures RowMatches(j', r) {
      assert RowMatches(j, r);
    }
    forall other | other in j'.entries
      ensures HasStarted(rows, other) && (j'.entries[other].terminal.Some? ==> HasTerminal(rows, other))
    {
      assert HasStarted(rows, other);
    }
  }

  /** The started row read back by key, after the insert. */
  lemma StartCommitted(rows: seq<EventRow>, leases: map<string, LeaseRow>, j: Journal, key: string)
    requires TablesHold(rows, leases, j) && key in j.keys
    ensures exists r :: r in rows && r.key == key && r.event.StartedEvent?
    ensures forall r :: r in rows && r.key == key && r.event.StartedEvent? ==>
      r.id == j.keys[key] && r.id in leases && r.id in j.entries && r.digest == j.entries[r.id].startDigest
  {}

  lemma StartKeeps(rows: seq<EventRow>, leases: map<string, LeaseRow>, j: Journal, s: Start, digest: string)
    requires TablesHold(rows, leases, j) && s.key !in j.keys && s.id !in j.entries && !IdentityTaken(j, s)
    ensures s.id !in leases
    ensures TablesHold(rows + [StartedRow(s, digest)], leases[s.id := LeaseRow(s.owner, s.epoch, s.expires)], Add(j, s, digest))
    ensures forall r :: r in rows + [StartedRow(s, digest)] && r.key == s.key && r.event.StartedEvent? ==> r == StartedRow(s, digest)
  {
    hide RowsHold, KeysAgree, IdentitiesUnique, IdentityTaken;
    StartRows(rows, j, s, digest);
    KeyUnused(rows, j, s.key);
    AddIdentity(j, s, digest);
  }

  lemma KeyUnused(rows: seq<EventRow>, j: Journal, key: string)
    requires RowsHold(rows, j) && KeysAgree(j) && key !in j.keys
    ensures forall r :: r in rows && r.event.StartedEvent? ==> r.key != key
  {}

  lemma AddIdentity(j: Journal, s: Start, digest: string)
    requires IdentitiesUnique(j) && KeysAgree(j) && !IdentityTaken(j, s) && s.key !in j.keys && s.id !in j.entries
    ensures IdentitiesUnique(Add(j, s, digest)) && KeysAgree(Add(j, s, digest))
  {}

  /** What a commit or takeover finds: the lease, the start row, and perhaps a terminal row. */
  lemma FinishFinds(rows: seq<EventRow>, leases: map<string, LeaseRow>, j: Journal, id: string)
    requires TablesHold(rows, leases, j)
    ensures id in leases <==> id in j.entries
    ensures id in leases ==>
      && leases[id].epoch == j.entries[id].epoch
      && leases[id].expires == j.entries[id].expires
      && (exists r :: r in rows && r.id == id && r.event.StartedEvent?)
      && (forall r :: r in rows && r.id == id && r.event.StartedEvent? ==> r.event.start == j.entries[id].start && r.digest == j.entries[id].startDigest)
      && (j.entries[id].terminal.Some? <==> exists r :: r in rows && r.id == id && r.event.TerminalEvent?)
      && (forall r :: r in rows && r.id == id && r.event.TerminalEvent? ==> j.entries[id].terminal == Some(Terminal(r.event.payload, r.digest)))
    ensures id !in leases ==> forall r :: r in rows ==> r.id != id
  {}

  lemma FinishKeeps(rows: seq<EventRow>, leases: map<string, LeaseRow>, j: Journal, row: EventRow)
    requires TablesHold(rows, leases, j) && row.event.TerminalEvent? && row.id in j.entries && j.entries[row.id].terminal.None?
    requires RowMatches(WithTerminal(j, row), row)
    ensures TablesHold(rows + [row], leases, WithTerminal(j, row))
  {
    hide RowsHold, RowMatches, LeasesHold, KeysAgree, IdentitiesUnique;
    FinishRows(rows, j, row);
    TerminalKeepsKeys(j, row);
    TerminalKeepsIdentities(j, row);
    TerminalKeepsLeases(leases, j, row);
  }

  lemma TerminalKeepsKeys(j: Journal, row: EventRow)
    requires KeysAgree(j) && row.event.TerminalEvent? && row.id in j.entries
    ensures KeysAgree(WithTerminal(j, row))
  {}

  lemma TerminalKeepsIdentities(j: Journal, row: EventRow)
    requires IdentitiesUnique(j) && row.event.TerminalEvent? && row.id in j.entries
    ensures IdentitiesUnique(WithTerminal(j, row))
  {}

  lemma TerminalKeepsLeases(leases: map<string, LeaseRow>, j: Journal, row: EventRow)
    requires LeasesHold(leases, j) && row.event.TerminalEvent? && row.id in j.entries
    ensures LeasesHold(leases, WithTerminal(j, row))
  {}

  ghost function WithTerminal(j: Journal, row: EventRow): Journal
    requires row.event.TerminalEvent? && row.id in j.entries
  {
    j.(entries := j.entries[row.id := j.entries[row.id].(terminal := Some(Terminal(row.event.payload, row.digest)))])
  }

  lemma ClaimKeeps(rows: seq<EventRow>, leases: map<string, LeaseRow>, j: Journal, id: string, owner: string, now: int, expires: int)
    requires TablesHold(rows, leases, j) && Claim(j, id, owner, now, expires).1.Claimed?
    ensures TablesHold(rows, leases[id := LeaseRow(owner, j.entries[id].epoch + 1, expires)], Claim(j, id, owner, now, expires).0)
  {
    ClaimRows(rows, j, id, owner, now, expires);
  }

  class PostgresCaseRepeatSink {
    const startDigest: Start -> string
    const terminalDigest: TerminalPayload -> string
    var events: seq<EventRow>
    var leases: map<string, LeaseRow>
    ghost var journal: Journal

    constructor (startDigest: Start -> string, terminalDigest: TerminalPayload -> string)
      ensures this.startDigest == startDigest && this.terminalDigest == terminalDigest
      ensures Valid() && journal == Journal(map[], map[])
    {
      this.startDigest, this.terminalDigest := startDigest, terminalDigest;
      events, leases := [], map[];
      journal := Journal(map[], map[]);
    }

    ghost predicate Valid()
      reads this
    {
      TablesHold(events, leases, journal)
    }

    /** INSERT ... ON CONFLICT (target) DO NOTHING. */
    method InsertEvent(row: EventRow, target: Constraint) returns (outcome: InsertOutcome)
      modifies this`events
      ensures ClashIn(target, old(events), row) ==> outcome == NothingDone && events == old(events)
      ensures !ClashIn(target, old(events), row) ==>
        if ClashIn(ById, old(events), row) then outcome == Violated(ById) && events == old(events)
        else if ClashIn(ByKey, old(events), row) then outcome == Violated(ByKey) && events == old(events)
        else if ClashIn(ByIdentity, old(events), row) then outcome == Violated(ByIdentity) && events == old(events)
        else outcome == Inserted && events == old(events) + [row]
    {
      if ClashIn(target, events, row) {
        return NothingDone;
      }
      if ClashIn(ById, events, row) {
        return Violated(ById);
      }
      if ClashIn(ByKey, events, row) {
        return Violated(ByKey);
      }
      if ClashIn(ByIdentity, events, row) {
        return Violated(ByIdentity);
      }
      events := events + [row];
      return Inserted;
    }

    method Start(start: Start) returns (reply: Reply)
      requires Valid()
      modifies this
      ensures Valid()
      ensures (journal, reply) == SqlStart(old(journal), start, startDigest(start))
    {
      hide TablesHold, ClashIn, IdentityTaken;
      var digest := startDigest(start);
      StartedClashes(events, leases, journal, start, digest);
      var outcome := InsertEvent(StartedRow(start, digest), ByKey);
      if outcome.Violated? {
        return Failed(if outcome.constraint.ById? then EntryExists else IdentityExists);
      }
      if outcome.NothingDone? {
        StartCommitted(events, leases, journal, start.key);
      } else {
        StartKeeps(old(events), leases, journal, start, digest);
        assert StartedRow(start, digest) in events;
      }
      var committed :| committed in events && committed.key == start.key && committed.event.StartedEvent?;
      if committed.digest != digest {
        return Failed(DigestMismatch);
      }
      if committed.id !in leases {
        leases := leases[committed.id := LeaseRow(start.owner, start.epoch, start.expires)];
      }
      journal := SqlStart(journal, start, digest).0;
      return Started(committed.id);
    }

    method Finish(id: string, expected: nat, payload: TerminalPayload) returns (reply: Reply)
      requires Valid()
      modifies this
      ensures Valid()
      ensures (journal, reply) == CaseRepeats.Finish(Sql, old(journal), id, expected, Terminal(payload, terminalDigest(payload)))
    {
      hide TablesHold, ClashIn;
      FinishFinds(events, leases, journal, id);
      if id !in leases || leases[id].epoch != expected {
        return Failed(StaleEpoch);
      }
      var started :| started in events && started.id == id && started.event.StartedEvent?;
      var s, digest := started.event.start, terminalDigest(payload);
      var row := EventRow(id, s.key, s.project, s.runEpoch, s.caseId, s.repeatIndex, TerminalEvent(payload), digest, expected);
      TerminalClashes(events, leases, journal, row);
      var outcome := InsertEvent(row, ById);
      if outcome.NothingDone? {
        var existing :| existing in events && existing.id == id && existing.event.TerminalEvent?;
        assert journal.entries[id := journal.entries[id]] == journal.entries;
        return if existing.digest != digest then Failed(AlreadyCommitted) else Finished;
      }
      FinishKeeps(old(events), leases, journal, row);
      journal := WithTerminal(journal, row);
      return Finished;
    }

    method ClaimRecovery(id: string, owner: string, now: int, expires: int) returns (reply: Reply)
      requires Valid()
      modifies this
      ensures Valid()
      ensures (journal, reply) == Claim(old(journal), id, owner, now, expires)
    {
      hide TablesHold;
      FinishFinds(events, leases, journal, id);
      if id !in leases {
        return Failed(NotFound);
      }
      var recorded := Get(id);
      if recorded.value.terminal.Some? {
        return Failed(AlreadyCommitted);
      }
      var lease := leases[id];
      if now < lease.expires {
        return Failed(LeaseActive);
      }
      ClaimKeeps(events, leases, journal, id, owner, now, expires);
      leases := leases[id := LeaseRow(owner, lease.epoch + 1, expires)];
      journal := Claim(journal, id, owner, now, expires).0;
      return Claimed(lease.epoch + 1);
    }

    method Get(id: string) returns (recorded: Result<Recorded>)
      requires Valid()
      ensures recorded == RecordedIn(journal, id)
    {
      hide TablesHold;
      FinishFinds(events, leases, journal, id);
      if forall r :: r in events ==> r.id != id {
        return Refused(NotFound);
      }
      var started :| started in events && started.id == id && started.event.StartedEvent?;
      var terminal := None;
      if exists r :: r in events && r.id == id && r.event.TerminalEvent? {
        var r :| r in events && r.id == id && r.event.TerminalEvent?;
        terminal := Some(Terminal(r.event.payload, r.digest));
      }
      return Done(Recorded(started.event.start, started.digest, terminal));
    }
  }
}

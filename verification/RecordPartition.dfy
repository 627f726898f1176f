/** Splitting an answer's rows into records, which a reference identifies, and aggregates. */
module RecordPartition {
  import opened Basics

  datatype Ref = Ref(resource: string, recordId: int, caption: string, rowIndex: Option<nat>)

  /** `owner_id` is an int or a string; the two are different keys even when they print alike. */
  datatype OwnerId = Number(n: int) | Text(s: string)

  datatype Detail = Detail(ownerResource: Option<string>, ownerId: Option<OwnerId>, payload: string)

  datatype Record<Row> = Record(ref: Ref, fields: Option<Row>, details: seq<Detail>)

  /** Python's `str(int)` and `int(str)`, None where the latter raises. */
  datatype Numerals = Numerals(show: int -> string, parse: string -> Option<int>)

  datatype Answer<Row> = Answer(rows: seq<Row>, refs: seq<Ref>, details: seq<Detail>)

  // ----- which references belong to which row -----

  predicate Bound(ref: Ref, n: nat) {
    ref.rowIndex.Some? && ref.rowIndex.value < n
  }

  function BoundTo(refs: seq<Ref>, row: nat): seq<Ref> {
    if refs == [] then []
    else BoundTo(refs[..|refs| - 1], row) + (if refs[|refs| - 1].rowIndex == Some(row) then [refs[|refs| - 1]] else [])
  }

  function Unbound(refs: seq<Ref>, n: nat): (unbound: seq<Ref>)
    ensures |unbound| <= |refs|
  {
    if refs == [] then []
    else Unbound(refs[..|refs| - 1], n) + (if Bound(refs[|refs| - 1], n) then [] else [refs[|refs| - 1]])
  }

  predicate NoneBound(refs: seq<Ref>, n: nat) {
    forall i :: 0 <= i < |refs| ==> !Bound(refs[i], n)
  }

  /** The references predate row indices: one for each row, in order. */
  predicate OnePerRow<Row>(a: Answer<Row>) {
    NoneBound(a.refs, |a.rows|) && |a.refs| == |a.rows|
  }

  type Owner = (string, OwnerId)

  function Owners(details: seq<Detail>): set<Owner> {
    set d | d in details && d.ownerResource.Some? && d.ownerId.Some? :: (d.ownerResource.value, d.ownerId.value)
  }

  function Numeric(text: Numerals, id: OwnerId): Option<int> {
    match id case Number(n) => Some(n) case Text(s) => text.parse(s)
  }

  /** The reference to the one owner that the details agree on, when its id is a number. */
  function Recovered(text: Numerals, details: seq<Detail>): (refs: seq<Ref>)
    ensures |refs| <= 1
  {
    if |Owners(details)| != 1 then []
    else
      var owner := TheOwner(Owners(details));
      var id := Numeric(text, owner.1);
      if id.None? then [] else [Ref(owner.0, id.value, "", Some(0))]
  }

  /** The reference recovered for a single row that none is bound to: at most one. */
  function Synthesised<Row>(text: Numerals, a: Answer<Row>): (refs: seq<Ref>)
    ensures |refs| <= 1
  {
    if |a.rows| == 1 && NoneBound(a.refs, 1) && |a.refs| != 1 then Recovered(text, a.details) else []
  }

  function TheOwner(owners: set<Owner>): (owner: Owner)
    requires |owners| == 1
    ensures owners == {owner}
  {
    OneOwner(owners);
    var owner :| owner in owners;
    owner
  }

  lemma OneOwner(owners: set<Owner>)
    requires |owners| == 1
    ensures exists owner :: owner in owners
    ensures forall x, y :: x in owners && y in owners ==> x == y
    ensures forall x :: x in owners ==> owners == {x}
  {
    var owner :| owner in owners;
    assert |owners - {owner}| == 0;
    assert owners == {owner};
  }

  /** The references of one row. */
  function RefsOfRow<Row>(text: Numerals, a: Answer<Row>, row: nat): seq<Ref>
    requires row < |a.rows|
  {
    if OnePerRow(a) then [a.refs[row]]
    else if NoneBound(a.refs, |a.rows|) then Synthesised(text, a)
    else BoundTo(a.refs, row)
  }

  /** The references left without a row. */
  function Rowless<Row>(a: Answer<Row>): seq<Ref> {
    if OnePerRow(a) then [] else Unbound(a.refs, |a.rows|)
  }

  function PrintId(text: Numerals, id: OwnerId): string {
    match id case Number(n) => text.show(n) case Text(s) => s
  }

  predicate Owns(text: Numerals, ref: Ref, d: Detail) {
    && d.ownerId.Some? && PrintId(text, d.ownerId.value) == text.show(ref.recordId)
    && (d.ownerResource.None? || d.ownerResource.value == ref.resource)
  }

  function DetailsOf(text: Numerals, ref: Ref, details: seq<Detail>): (owned: seq<Detail>)
    ensures forall d :: d in owned <==> d in details && Owns(text, ref, d)
  {
    if details == [] then []
    else
      var front, last := details[..|details| - 1], details[|details| - 1];
      assert details == front + [last];
      DetailsOf(text, ref, front) + (if Owns(text, ref, last) then [last] else [])
  }

  function RecordsFor<Row>(text: Numerals, row: Row, refs: seq<Ref>, details: seq<Detail>): (records: seq<Record<Row>>)
    ensures |records| == |refs|
    ensures forall i :: 0 <= i < |refs| ==> records[i] == Record(refs[i], Some(row), DetailsOf(text, refs[i], details))
  {
    if refs == [] then []
    else
      var last := refs[|refs| - 1];
      RecordsFor(text, row, refs[..|refs| - 1], details) + [Record(last, Some(row), DetailsOf(text, last, details))]
  }

  function RowRecords<Row>(text: Numerals, a: Answer<Row>, n: nat): seq<Record<Row>>
    requires n <= |a.rows|
  {
    if n == 0 then []
    else RowRecords(text, a, n - 1) + RecordsFor(text, a.rows[n - 1], RefsOfRow(text, a, n - 1), a.details)
  }

  function Aggregates<Row>(text: Numerals, a: Answer<Row>, n: nat): seq<Row>
    requires n <= |a.rows|
  {
    if n == 0 then []
    else Aggregates(text, a, n - 1) + (if RefsOfRow(text, a, n - 1) == [] then [a.rows[n - 1]] else [])
  }

  function RowlessRecords<Row>(refs: seq<Ref>): (records: seq<Record<Row>>)
    ensures |records| == |refs|
    ensures forall i :: 0 <= i < |refs| ==> records[i] == Record(refs[i], None, [])
  {
    if refs == [] then [] else RowlessRecords(refs[..|refs| - 1]) + [Record(refs[|refs| - 1], None, [])]
  }

  // ----- the loops -----

  lemma UnboundAll(refs: seq<Ref>, n: nat)
    ensures NoneBound(refs, n) ==> Unbound(refs, n) == refs
    ensures |Unbound(refs, n)| == |refs| ==> NoneBound(refs, n)
  {
    if refs != [] {
      UnboundAll(refs[..|refs| - 1], n);
      assert refs == refs[..|refs| - 1] + [refs[|refs| - 1]];
    }
  }

  lemma {:induction false} BoundToIff(refs: seq<Ref>, row: nat)
    ensures BoundTo(refs, row) != [] <==> exists i :: 0 <= i < |refs| && refs[i].rowIndex == Some(row)
  {
    if refs != [] {
      BoundToIff(refs[..|refs| - 1], row);
    }
  }

  /** First loop: references by row, and those without one. */
  method BindRefs(refs: seq<Ref>, n: nat) returns (byRow: map<nat, seq<Ref>>, unbound: seq<Ref>)
    ensures unbound == Unbound(refs, n)
    ensures forall row: nat :: row in byRow <==> row < n && BoundTo(refs, row) != []
    ensures forall row :: row in byRow ==> byRow[row] == BoundTo(refs, row)
  {
    byRow, unbound := map[], [];
    for i := 0 to |refs|
      invariant unbound == Unbound(refs[..i], n)
      invariant forall row: nat :: row in byRow <==> row < n && BoundTo(refs[..i], row) != []
      invariant forall row :: row in byRow ==> byRow[row] == BoundTo(refs[..i], row)
    {
      var ref := refs[i];
      assert refs[..i + 1][..i] == refs[..i];
      if ref.rowIndex.Some? && ref.rowIndex.value < n {
        var row := ref.rowIndex.value;
        byRow := byRow[row := (if row in byRow then byRow[row] else []) + [ref]];
      } else {
        unbound := unbound + [ref];
      }
    }
    assert refs[..|refs|] == refs;
  }

  /** The three ways a row comes by its references. */
  ghost predicate RowCases<Row>(text: Numerals, a: Answer<Row>, row: nat)
    requires row < |a.rows|
  {
    && (OnePerRow(a) ==> RefsOfRow(text, a, row) == [a.refs[row]])
    && (!OnePerRow(a) && NoneBound(a.refs, |a.rows|) ==> RefsOfRow(text, a, row) == if |a.rows| == 1 then Recovered(text, a.details) else [])
    && (!NoneBound(a.refs, |a.rows|) ==> RefsOfRow(text, a, row) == BoundTo(a.refs, row))
  }

  lemma RefsOfRowCases<Row>(text: Numerals, a: Answer<Row>, row: nat)
    requires row < |a.rows|
    ensures RowCases(text, a, row)
  {}

  /** Binding, the legacy binding by position, and recovery of a single owner. */
  method AssignRefs<Row>(text: Numerals, a: Answer<Row>) returns (byRow: map<nat, seq<Ref>>, unbound: seq<Ref>)
    ensures unbound == Rowless(a)
    ensures forall row: nat :: row < |a.rows| ==> RefsOfRow(text, a, row) == if row in byRow then byRow[row] else []
  {
    hide RefsOfRow, Recovered, BoundTo, NoneBound, Unbound;
    var n := |a.rows|;
    byRow, unbound := BindRefs(a.refs, n);
    UnboundAll(a.refs, n);
    NothingBoundIff(a.refs, n, byRow);
    forall row: nat | row < n ensures RowCases(text, a, row) {
      RefsOfRowCases(text, a, row);
    }
    if byRow == map[] && |unbound| == n {
      byRow := map i: nat | 0 <= i < n :: [unbound[i]];
      unbound := [];
    }
    if n == 1 && byRow == map[] {
      var recovered := Recovered(text, a.details);
      if recovered != [] {
        byRow := map[0 := recovered];
      }
    }
    forall row: nat | row < n ensures RefsOfRow(text, a, row) == if row in byRow then byRow[row] else [] {
      assert RowCases(text, a, row);
    }
  }

  method PartitionRecordResults<Row>(text: Numerals, a: Answer<Row>) returns (records: seq<Record<Row>>, aggregates: seq<Row>)
    ensures records == RowRecords(text, a, |a.rows|) + RowlessRecords(Rowless(a))
    ensures aggregates == Aggregates(text, a, |a.rows|)
  {
    hide RefsOfRow, Rowless, DetailsOf;
    var byRow, unbound := AssignRefs(text, a);
    records, aggregates := [], [];
    for i := 0 to |a.rows|
      invariant records == RowRecords(text, a, i) && aggregates == Aggregates(text, a, i)
    {
      var refs := if i in byRow then byRow[i] else [];
      assert refs == RefsOfRow(text, a, i);
      if refs == [] {
        assert RowRecords(text, a, i) + [] == RowRecords(text, a, i);
        aggregates := aggregates + [a.rows[i]];
      } else {
        records := AppendRecords(text, a.rows[i], refs, a.details, records);
        assert Aggregates(text, a, i) + [] == Aggregates(text, a, i);
      }
    }
    records := records + RowlessRecords(unbound);
  }

  /** One record per reference of the row, each with the details it owns. */
  method AppendRecords<Row>(text: Numerals, row: Row, refs: seq<Ref>, details: seq<Detail>, before: seq<Record<Row>>)
    returns (records: seq<Record<Row>>)
    ensures records == before + RecordsFor(text, row, refs, details)
  {
    records := before;
    for j := 0 to |refs|
      invariant records == before + RecordsFor(text, row, refs[..j], details)
    {
      assert refs[..j + 1][..j] == refs[..j];
      records := records + [Record(refs[j], Some(row), DetailsOf(text, refs[j], details))];
    }
    assert refs[..|refs|] == refs;
  }

  lemma NothingBoundIff(refs: seq<Ref>, n: nat, byRow: map<nat, seq<Ref>>)
    requires forall row: nat :: row in byRow <==> row < n && BoundTo(refs, row) != []
    ensures byRow == map[] <==> NoneBound(refs, n)
  {
    forall i | 0 <= i < |refs| && Bound(refs[i], n) ensures byRow != map[] {
      BoundToIff(refs, refs[i].rowIndex.value);
      assert refs[i].rowIndex.value in byRow;
    }
    forall row | row in byRow ensures !NoneBound(refs, n) {
      BoundToIff(refs, row);
      var i :| 0 <= i < |refs| && refs[i].rowIndex == Some(row);
      assert Bound(refs[i], n);
    }
    if byRow != map[] {
      var row :| row in byRow;
    }
  }

  // ----- conservation of references -----

  function RefsOf<Row>(records: seq<Record<Row>>): (refs: seq<Ref>)
    ensures |refs| == |records|
    ensures forall i :: 0 <= i < |records| ==> refs[i] == records[i].ref
  {
    if records == [] then [] else RefsOf(records[..|records| - 1]) + [records[|records| - 1].ref]
  }

  lemma RefsOfConcat<Row>(a: seq<Record<Row>>, b: seq<Record<Row>>)
    ensures RefsOf(a + b) == RefsOf(a) + RefsOf(b)
  {}

  /** The references of the first `n` rows, one after another. */
  function RowRefs<Row>(text: Numerals, a: Answer<Row>, n: nat): seq<Ref>
    requires n <= |a.rows|
  {
    if n == 0 then [] else RowRefs(text, a, n - 1) + RefsOfRow(text, a, n - 1)
  }

  lemma RecordsForHoldRefs<Row>(text: Numerals, row: Row, refs: seq<Ref>, details: seq<Detail>)
    ensures RefsOf(RecordsFor(text, row, refs, details)) == refs
  {}

  lemma {:induction false} RecordsHoldRefs<Row>(text: Numerals, a: Answer<Row>, n: nat)
    requires n <= |a.rows|
    ensures RefsOf(RowRecords(text, a, n)) == RowRefs(text, a, n)
  {
    hide RefsOfRow, RecordsFor;
    if n > 0 {
      RecordsHoldRefs(text, a, n - 1);
      RefsOfConcat(RowRecords(text, a, n - 1), RecordsFor(text, a.rows[n - 1], RefsOfRow(text, a, n - 1), a.details));
      RecordsForHoldRefs(text, a.rows[n - 1], RefsOfRow(text, a, n - 1), a.details);
    }
  }

  /** The references bound below row `m`. */
  function Below(refs: seq<Ref>, m: nat): seq<Ref> {
    if refs == [] then []
    else Below(refs[..|refs| - 1], m) + (if Bound(refs[|refs| - 1], m) then [refs[|refs| - 1]] else [])
  }

  lemma {:induction false} NoneBelowZero(refs: seq<Ref>)
    ensures Below(refs, 0) == []
  {
    if refs != [] {
      NoneBelowZero(refs[..|refs| - 1]);
    }
  }

  lemma {:induction false} BelowNext(refs: seq<Ref>, m: nat)
    ensures multiset(Below(refs, m + 1)) == multiset(Below(refs, m)) + multiset(BoundTo(refs, m))
  {
    if refs != [] {
      var front, last := refs[..|refs| - 1], refs[|refs| - 1];
      BelowNext(front, m);
      var next, below, here := Below(front, m + 1), Below(front, m), BoundTo(front, m);
      OnBothSides(next, below, here, last);
      if last.rowIndex == Some(m) {
        assert Below(refs, m + 1) == next + [last] && Below(refs, m) == below + [] && BoundTo(refs, m) == here + [last];
      } else if Bound(last, m) {
        assert Below(refs, m + 1) == next + [last] && Below(refs, m) == below + [last] && BoundTo(refs, m) == here + [];
      } else {
        assert Below(refs, m + 1) == next + [] && Below(refs, m) == below + [] && BoundTo(refs, m) == here + [];
      }
    }
  }

  lemma OnBothSides<T>(next: seq<T>, below: seq<T>, here: seq<T>, last: T)
    requires multiset(next) == multiset(below) + multiset(here)
    ensures multiset(next + [last]) == multiset(below + []) + multiset(here + [last])
    ensures multiset(next + [last]) == multiset(below + [last]) + multiset(here + [])
    ensures multiset(next + []) == multiset(below + []) + multiset(here + [])
  {}

  lemma {:induction false} BelowAndUnbound(refs: seq<Ref>, m: nat)
    ensures multiset(Below(refs, m)) + multiset(Unbound(refs, m)) == multiset(refs)
  {
    if refs != [] {
      var front, last := refs[..|refs| - 1], refs[|refs| - 1];
      BelowAndUnbound(front, m);
      assert refs == front + [last];
      var below, unbound := Below(front, m), Unbound(front, m);
      OnBothSides(front, below, unbound, last);
      OnBothSides(front, unbound, below, last);
      assert below + [] == below && unbound + [] == unbound;
    }
  }

  lemma JoinMultisets<T>(a: seq<T>, b: seq<T>)
    ensures multiset(a + b) == multiset(a) + multiset(b)
  {}

  lemma {:induction false} BoundRowRefs<Row>(text: Numerals, a: Answer<Row>, n: nat)
    requires n <= |a.rows| && !NoneBound(a.refs, |a.rows|)
    ensures multiset(RowRefs(text, a, n)) == multiset(Below(a.refs, n))
  {
    hide Below, BoundTo, Synthesised, NoneBound;
    if n == 0 {
      NoneBelowZero(a.refs);
    } else {
      BoundRowRefs(text, a, n - 1);
      BelowNext(a.refs, n - 1);
      JoinMultisets(RowRefs(text, a, n - 1), BoundTo(a.refs, n - 1));
    }
  }

  lemma {:induction false} LegacyRowRefs<Row>(text: Numerals, a: Answer<Row>, n: nat)
    requires n <= |a.rows| && OnePerRow(a)
    ensures RowRefs(text, a, n) == a.refs[..n]
  {
    if n > 0 {
      LegacyRowRefs(text, a, n - 1);
    }
  }

  lemma {:induction false} EmptyRowRefs<Row>(text: Numerals, a: Answer<Row>, n: nat)
    requires n <= |a.rows| && |a.rows| != 1 && NoneBound(a.refs, |a.rows|) && !OnePerRow(a)
    ensures RowRefs(text, a, n) == []
  {
    if n > 0 {
      EmptyRowRefs(text, a, n - 1);
    }
  }

  /** Every reference of the answer is in exactly one record, and beside them there is at most one,
    * recovered for a single row that no reference is bound to.
    */
  lemma RefsConserved<Row>(text: Numerals, a: Answer<Row>)
    ensures multiset(RefsOf(RowRecords(text, a, |a.rows|) + RowlessRecords<Row>(Rowless(a)))) ==
      multiset(a.refs) + multiset(Synthesised(text, a))
    ensures Synthesised(text, a) != [] ==> |a.rows| == 1 && NoneBound(a.refs, 1)
  {
    hide RefsOf, RowRecords, RowRefs, Synthesised, Unbound, Below, RowlessRecords;
    var n := |a.rows|;
    SynthesisedOnlyForOneRow(text, a);
    RefsOfConcat(RowRecords(text, a, n), RowlessRecords<Row>(Rowless(a)));
    RecordsHoldRefs(text, a, n);
    RowlessHoldRefs<Row>(Rowless(a));
    UnboundAll(a.refs, n);
    if OnePerRow(a) {
      LegacyRowRefs(text, a, n);
      assert a.refs[..n] == a.refs;
    } else if !NoneBound(a.refs, n) {
      BoundRowRefs(text, a, n);
      BelowAndUnbound(a.refs, n);
    } else if n == 1 {
      SingleRowRefs(text, a);
    } else {
      EmptyRowRefs(text, a, n);
    }
    JoinMultisets(RowRefs(text, a, n), Rowless(a));
  }

  lemma SynthesisedOnlyForOneRow<Row>(text: Numerals, a: Answer<Row>)
    ensures Synthesised(text, a) != [] ==> |a.rows| == 1 && NoneBound(a.refs, 1) && !OnePerRow(a)
  {}

  lemma SingleRowRefs<Row>(text: Numerals, a: Answer<Row>)
    requires |a.rows| == 1 && NoneBound(a.refs, 1) && !OnePerRow(a)
    ensures RowRefs(text, a, 1) == Synthesised(text, a)
  {}

  lemma RowlessHoldRefs<Row>(refs: seq<Ref>)
    ensures RefsOf(RowlessRecords<Row>(refs)) == refs
  {}

  // ----- rows -----

  /** The row of each record that has one, and the rows of the aggregates. */
  function RecordRows<Row>(text: Numerals, a: Answer<Row>, n: nat): seq<nat>
    requires n <= |a.rows|
  {
    if n == 0 then [] else RecordRows(text, a, n - 1) + seq(|RefsOfRow(text, a, n - 1)|, _ => n - 1)
  }

  function AggregateRows<Row>(text: Numerals, a: Answer<Row>, n: nat): seq<nat>
    requires n <= |a.rows|
  {
    if n == 0 then [] else AggregateRows(text, a, n - 1) + (if RefsOfRow(text, a, n - 1) == [] then [n - 1] else [])
  }

  function Count(rows: seq<nat>, row: nat): nat {
    if rows == [] then 0 else Count(rows[..|rows| - 1], row) + (if rows[|rows| - 1] == row then 1 else 0)
  }

  lemma {:induction false} CountConcat(a: seq<nat>, b: seq<nat>, row: nat)
    ensures Count(a + b, row) == Count(a, row) + Count(b, row)
  {
    if b == [] {
      assert a + b == a;
    } else {
      CountConcat(a, b[..|b| - 1], row);
      assert (a + b)[..|a + b| - 1] == a + b[..|b| - 1];
    }
  }

  lemma {:induction false} CountRepeated(row: nat, count: nat, other: nat)
    ensures Count(seq(count, _ => row), other) == if other == row then count else 0
  {
    if count > 0 {
      CountRepeated(row, count - 1, other);
      assert seq(count, _ => row)[..count - 1] == seq(count - 1, _ => row);
    }
  }

  ghost predicate InOrder(rows: seq<nat>, n: nat) {
    (forall i, j :: 0 <= i < j < |rows| ==> rows[i] <= rows[j]) && forall i :: 0 <= i < |rows| ==> rows[i] < n
  }

  /** Records come in the order of their rows, each holding its row. */
  lemma {:induction false} RecordsFollowRows<Row>(text: Numerals, a: Answer<Row>, n: nat)
    requires n <= |a.rows|
    ensures |RowRecords(text, a, n)| == |RecordRows(text, a, n)| && InOrder(RecordRows(text, a, n), n)
    ensures forall k :: 0 <= k < |RecordRows(text, a, n)| ==>
      RowRecords(text, a, n)[k].fields == Some(a.rows[RecordRows(text, a, n)[k]])
  {
    hide RefsOfRow, RecordsFor;
    if n > 0 {
      RecordsFollowRows(text, a, n - 1);
    }
  }

  /** A row has as many records as it has references. */
  lemma {:induction false} RecordsPerRow<Row>(text: Numerals, a: Answer<Row>, n: nat, row: nat)
    requires n <= |a.rows| && row < |a.rows|
    ensures Count(RecordRows(text, a, n), row) == if row < n then |RefsOfRow(text, a, row)| else 0
  {
    hide RefsOfRow, Count;
    if n > 0 {
      RecordsPerRow(text, a, n - 1, row);
      var here := seq(|RefsOfRow(text, a, n - 1)|, _ => n - 1);
      CountConcat(RecordRows(text, a, n - 1), here, row);
      CountRepeated(n - 1, |RefsOfRow(text, a, n - 1)|, row);
    } else {
      CountRepeated(0, 0, row);
      assert RecordRows(text, a, 0) == seq(0, _ => 0);
    }
  }

  /** Aggregates come in the order of their rows, each being its row. */
  lemma {:induction false} AggregatesFollowRows<Row>(text: Numerals, a: Answer<Row>, n: nat)
    requires n <= |a.rows|
    ensures |Aggregates(text, a, n)| == |AggregateRows(text, a, n)| && InOrder(AggregateRows(text, a, n), n)
    ensures forall k :: 0 <= k < |AggregateRows(text, a, n)| ==> Aggregates(text, a, n)[k] == a.rows[AggregateRows(text, a, n)[k]]
  {
    hide RefsOfRow;
    if n > 0 {
      AggregatesFollowRows(text, a, n - 1);
    }
  }

  /** Exactly the rows without a reference are aggregates. */
  lemma {:induction false} AggregatesPerRow<Row>(text: Numerals, a: Answer<Row>, n: nat, row: nat)
    requires n <= |a.rows| && row < |a.rows|
    ensures Count(AggregateRows(text, a, n), row) == if row < n && RefsOfRow(text, a, row) == [] then 1 else 0
  {
    hide RefsOfRow;
    if n > 0 {
      AggregatesPerRow(text, a, n - 1, row);
      var before := AggregateRows(text, a, n - 1);
      assert (before + [n - 1])[..|before|] == before;
      assert before + [] == before;
    }
  }

  /** Each row becomes one aggregate, or one record per reference, and never both. */
  lemma EachRowOnce<Row>(text: Numerals, a: Answer<Row>, row: nat)
    requires row < |a.rows|
    ensures var n := |a.rows|;
      var records, aggregates := Count(RecordRows(text, a, n), row), Count(AggregateRows(text, a, n), row);
      (records == 0 && aggregates == 1) || (records == |RefsOfRow(text, a, row)| > 0 && aggregates == 0)
  {
    RecordsPerRow(text, a, |a.rows|, row);
    AggregatesPerRow(text, a, |a.rows|, row);
  }

  /** The details that named the owner of a recovered reference go to its record exactly when the
    * owner id prints back as itself: always for a number, for text only in canonical form.
    */
  lemma RecoveredOwnerKeepsDetails<Row>(text: Numerals, a: Answer<Row>, d: Detail)
    requires Synthesised(text, a) != [] && d in a.details && d.ownerResource.Some? && d.ownerId.Some?
    ensures var ref := Synthesised(text, a)[0];
      d in DetailsOf(text, ref, a.details) <==>
      (d.ownerId.value.Text? ==> text.parse(d.ownerId.value.s).Some? && text.show(text.parse(d.ownerId.value.s).value) == d.ownerId.value.s)
  {
    assert (d.ownerResource.value, d.ownerId.value) in Owners(a.details);
  }

  /** The references recovered name the one owner that all details naming one agree on, its id a
    * number; and one is recovered exactly when there is such an owner for a single row that no
    * reference is bound to, not having exactly one reference.
    */
  lemma RecoveredIff<Row>(text: Numerals, a: Answer<Row>)
    ensures Synthesised(text, a) != [] <==>
      && |a.rows| == 1 && |a.refs| != 1 && (forall i :: 0 <= i < |a.refs| ==> a.refs[i].rowIndex != Some(0))
      && exists resource, id :: AllName(a.details, resource, id) && NumberOf(text, id).Some?
    ensures Synthesised(text, a) != [] ==> forall resource, id :: AllName(a.details, resource, id) && NumberOf(text, id).Some? ==>
      Synthesised(text, a)[0].resource == resource && Synthesised(text, a)[0].recordId == NumberOf(text, id).value
  {
    var owners := Owners(a.details);
    forall resource, id ensures AllName(a.details, resource, id) <==> owners == {(resource, id)} {
      OwnersAre(a.details, resource, id);
    }
    if |owners| == 1 {
      var owner := TheOwner(owners);
      assert AllName(a.details, owner.0, owner.1);
    }
  }

  function NumberOf(text: Numerals, id: OwnerId): Option<int> {
    if id.Number? then Some(id.n) else text.parse(id.s)
  }

  /** Some detail names an owner, and each that does names this one. */
  ghost predicate AllName(details: seq<Detail>, resource: string, id: OwnerId) {
    && (exists d :: d in details && d.ownerResource == Some(resource) && d.ownerId == Some(id))
    && forall d :: d in details && d.ownerResource.Some? && d.ownerId.Some? ==> d.ownerResource.value == resource && d.ownerId.value == id
  }

  lemma OwnersAre(details: seq<Detail>, resource: string, id: OwnerId)
    ensures AllName(details, resource, id) <==> Owners(details) == {(resource, id)}
  {
    var owners := Owners(details);
    assert forall d :: d in details && d.ownerResource.Some? && d.ownerId.Some? ==> (d.ownerResource.value, d.ownerId.value) in owners;
    if owners == {(resource, id)} {
      assert (resource, id) in owners;
    }
  }

  // ----- what a record holds -----

  /** With any reference bound to a row, a record with a row holds the row its reference names. */
  lemma {:induction false} BoundRecords<Row>(text: Numerals, a: Answer<Row>, n: nat, k: nat)
    requires n <= |a.rows| && !NoneBound(a.refs, |a.rows|) && k < |RowRecords(text, a, n)|
    ensures var r := RowRecords(text, a, n)[k];
      r.ref.rowIndex.Some? && r.ref.rowIndex.value < n && r.fields == Some(a.rows[r.ref.rowIndex.value])
  {
    hide RefsOfRow, BoundTo, NoneBound, Synthesised;
    if k < |RowRecords(text, a, n - 1)| {
      BoundRecords(text, a, n - 1, k);
    } else {
      RefsOfRowCases(text, a, n - 1);
      BoundToRow(a.refs, n - 1, k - |RowRecords(text, a, n - 1)|);
    }
  }

  lemma {:induction false} BoundToRow(refs: seq<Ref>, row: nat, i: nat)
    requires i < |BoundTo(refs, row)|
    ensures BoundTo(refs, row)[i].rowIndex == Some(row)
  {
    if i < |BoundTo(refs[..|refs| - 1], row)| {
      BoundToRow(refs[..|refs| - 1], row, i);
    }
  }

  /** With none bound and as many references as rows, record, reference and row go by position. */
  lemma {:induction false} PositionalRecords<Row>(text: Numerals, a: Answer<Row>, n: nat)
    requires n <= |a.rows| == |a.refs|
    requires forall i :: 0 <= i < |a.refs| ==> a.refs[i].rowIndex.None? || a.refs[i].rowIndex.value >= |a.rows|
    ensures |RowRecords(text, a, n)| == n
    ensures forall k :: 0 <= k < n ==> RowRecords(text, a, n)[k].ref == a.refs[k] && RowRecords(text, a, n)[k].fields == Some(a.rows[k])
  {
    hide RefsOfRow, BoundTo, Synthesised, DetailsOf;
    if n > 0 {
      PositionalRecords(text, a, n - 1);
      RefsOfRowCases(text, a, n - 1);
      assert OnePerRow(a);
      assert RefsOfRow(text, a, n - 1) == [a.refs[n - 1]];
    }
  }

  /** A record with a row holds exactly the details that name its id, as it prints, and no other
    * resource.
    */
  lemma {:induction false} RecordsOwnDetails<Row>(text: Numerals, a: Answer<Row>, n: nat, k: nat, d: Detail)
    requires n <= |a.rows| && k < |RowRecords(text, a, n)|
    ensures var r := RowRecords(text, a, n)[k];
      d in r.details <==>
        && d in a.details && d.ownerId.Some?
        && (if d.ownerId.value.Number? then text.show(d.ownerId.value.n) else d.ownerId.value.s) == text.show(r.ref.recordId)
        && (d.ownerResource.Some? ==> d.ownerResource.value == r.ref.resource)
  {
    hide RefsOfRow;
    if k < |RowRecords(text, a, n - 1)| {
      RecordsOwnDetails(text, a, n - 1, k, d);
    }
  }

  /** Where the references of a row, and the details of a reference, stand in the answer: in order,
    * none left out and none twice.
    */
  ghost predicate Picks<T>(picked: seq<T>, all: seq<T>, at: seq<nat>) {
    && |at| == |picked| && (forall i :: 0 <= i < |at| ==> at[i] < |all| && all[at[i]] == picked[i])
    && forall i, j :: 0 <= i < j < |at| ==> at[i] < at[j]
  }

  lemma PicksMore<T>(picked: seq<T>, all: seq<T>, at: seq<nat>, next: T)
    requires Picks(picked, all, at)
    ensures Picks(picked, all + [next], at) && Picks(picked + [next], all + [next], at + [|all|])
  {}

  lemma {:induction false} BoundInOrder(refs: seq<Ref>, row: nat) returns (at: seq<nat>)
    ensures Picks(BoundTo(refs, row), refs, at)
    ensures forall k :: 0 <= k < |refs| ==> (k in at <==> refs[k].rowIndex == Some(row))
  {
    at := [];
    if refs != [] {
      var front, last := refs[..|refs| - 1], refs[|refs| - 1];
      at := BoundInOrder(front, row);
      PicksMore(BoundTo(front, row), front, at, last);
      assert refs == front + [last];
      if last.rowIndex == Some(row) {
        at := at + [|front|];
      }
    }
  }

  lemma {:induction false} DetailsInOrder(text: Numerals, ref: Ref, details: seq<Detail>) returns (at: seq<nat>)
    ensures Picks(DetailsOf(text, ref, details), details, at)
    ensures forall k :: 0 <= k < |details| ==> (k in at <==> Owns(text, ref, details[k]))
  {
    hide Owns;
    at := [];
    if details != [] {
      var front, last := details[..|details| - 1], details[|details| - 1];
      at := DetailsInOrder(text, ref, front);
      PicksMore(DetailsOf(text, ref, front), front, at, last);
      assert details == front + [last];
      if Owns(text, ref, last) {
        at := at + [|front|];
      }
    }
  }

  // ----- the envelope -----

  datatype Completeness = Complete | Partial

  datatype Envelope<Row> = Envelope(records: seq<Record<Row>>, aggregates: seq<Row>, completeness: Completeness, returned: nat, total: nat)

  function EnvelopeOf<Row>(text: Numerals, a: Answer<Row>, stated: Completeness, total: nat): Envelope<Row> {
    Envelope(RowRecords(text, a, |a.rows|) + RowlessRecords(Rowless(a)), Aggregates(text, a, |a.rows|),
             if total > |a.rows| && stated.Complete? then Partial else stated, |a.rows|, total)
  }

  /** The row has an aggregate or a record of its own in the envelope. */
  ghost predicate Shown<Row>(e: Envelope<Row>, text: Numerals, a: Answer<Row>, row: nat) {
    && row < |a.rows|
    && (|| (exists k :: 0 <= k < |AggregateRows(text, a, |a.rows|)| && AggregateRows(text, a, |a.rows|)[k] == row
              && k < |e.aggregates| && e.aggregates[k] == a.rows[row])
        || (exists k :: 0 <= k < |RecordRows(text, a, |a.rows|)| && RecordRows(text, a, |a.rows|)[k] == row
              && k < |e.records| && e.records[k].fields == Some(a.rows[row])))
  }

  lemma {:induction false} CountedAt(rows: seq<nat>, row: nat) returns (k: nat)
    requires Count(rows, row) > 0
    ensures k < |rows| && rows[k] == row
  {
    if rows[|rows| - 1] == row {
      k := |rows| - 1;
    } else {
      k := CountedAt(rows[..|rows| - 1], row);
    }
  }

  lemma EveryRowShown<Row>(text: Numerals, a: Answer<Row>, stated: Completeness, total: nat, row: nat)
    requires row < |a.rows|
    ensures Shown(EnvelopeOf(text, a, stated, total), text, a, row)
  {
    hide RowRecords, Aggregates, RecordRows, AggregateRows, Count, RefsOfRow, Rowless;
    var n := |a.rows|;
    EachRowOnce(text, a, row);
    RecordsFollowRows(text, a, n);
    AggregatesFollowRows(text, a, n);
    if Count(AggregateRows(text, a, n), row) > 0 {
      var k := CountedAt(AggregateRows(text, a, n), row);
    } else {
      var k := CountedAt(RecordRows(text, a, n), row);
    }
  }

  /** An envelope called complete shows every row there is in total; and one is called complete
    * unless the answer was not, or rows are missing.
    */
  lemma CompleteEnvelopeShowsTotal<Row>(text: Numerals, a: Answer<Row>, stated: Completeness, total: nat)
    ensures var e := EnvelopeOf(text, a, stated, total);
      && (e.completeness.Complete? ==> forall row: nat :: row < total ==> Shown(e, text, a, row))
      && (stated.Complete? && (forall row: nat :: row < total ==> Shown(e, text, a, row)) ==> e.completeness.Complete?)
  {
    hide Shown;
    var e := EnvelopeOf(text, a, stated, total);
    if total <= |a.rows| {
      forall row: nat | row < total ensures Shown(e, text, a, row) {
        EveryRowShown(text, a, stated, total, row);
      }
    } else {
      NotShown(e, text, a, |a.rows|);
    }
  }

  lemma NotShown<Row>(e: Envelope<Row>, text: Numerals, a: Answer<Row>, row: nat)
    requires row >= |a.rows|
    ensures !Shown(e, text, a, row)
  {}
}

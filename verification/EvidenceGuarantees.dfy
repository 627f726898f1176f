/** What a passing verdict guarantees about the evidence, and the agreement of the early stop with
  * the final verdict.
  */
module EvidenceGuarantees {
  import opened AnswerFailures
  import opened Basics
  import opened EvidenceView
  import opened EvidenceGates

  // ----- the matrix -----

  ghost function ArmCells(caseId: string, arm: string, repeats: nat): (cells: seq<Cell>)
    ensures |cells| == repeats
    ensures forall cell :: cell in cells <==> cell.0 == caseId && cell.1 == arm && 0 <= cell.2 < repeats
  {
    if repeats == 0 then [] else ArmCells(caseId, arm, repeats - 1) + [(caseId, arm, repeats - 1)]
  }

  ghost function CaseArmCells(caseId: string, arms: seq<string>, repeats: nat): (cells: seq<Cell>)
    ensures forall cell :: cell in cells <==> cell.0 == caseId && cell.1 in arms && 0 <= cell.2 < repeats
  {
    if arms == [] then []
    else
      assert arms == arms[..|arms| - 1] + [arms[|arms| - 1]];
      CaseArmCells(caseId, arms[..|arms| - 1], repeats) + ArmCells(caseId, arms[|arms| - 1], repeats)
  }

  /** Every case, arm and repeat, once per way of choosing them from the policy's lists. */
  ghost function CellList(cases: seq<string>, arms: seq<string>, repeats: nat): (cells: seq<Cell>)
    ensures forall cell :: cell in cells <==> cell.0 in cases && cell.1 in arms && 0 <= cell.2 < repeats
  {
    if cases == [] then []
    else
      assert cases == cases[..|cases| - 1] + [cases[|cases| - 1]];
      CellList(cases[..|cases| - 1], arms, repeats) + CaseArmCells(cases[|cases| - 1], arms, repeats)
  }

  lemma MatrixCells(p: Policy)
    ensures Elements(CellList(p.caseIds, p.arms, p.repeats)) == ExpectedCells(p)
    ensures |CellList(p.caseIds, p.arms, p.repeats)| == ExpectedRows(p)
  {
    hide CellList;
    var cells := CellList(p.caseIds, p.arms, p.repeats);
    forall cell: Cell ensures cell in cells <==> cell in ExpectedCells(p) {
      assert cell == (cell.0, cell.1, cell.2);
    }
    CellListLength(p.caseIds, p.arms, p.repeats);
    Product(|p.caseIds|, |p.arms|, p.repeats);
  }

  lemma {:induction false} ArmsLength(caseId: string, arms: seq<string>, repeats: nat)
    ensures |CaseArmCells(caseId, arms, repeats)| == |arms| * repeats
  {
    if arms != [] {
      ArmsLength(caseId, arms[..|arms| - 1], repeats);
      OneMore(|arms|, repeats);
    }
  }

  lemma {:induction false} CellListLength(cases: seq<string>, arms: seq<string>, repeats: nat)
    ensures |CellList(cases, arms, repeats)| == |cases| * (|arms| * repeats)
  {
    if cases != [] {
      CellListLength(cases[..|cases| - 1], arms, repeats);
      ArmsLength(cases[|cases| - 1], arms, repeats);
      OneMore(|cases|, |arms| * repeats);
    }
  }

  lemma OneMore(a: nat, b: nat)
    requires a > 0
    ensures a * b == (a - 1) * b + b
  {}

  lemma Product(a: nat, b: nat, c: nat)
    ensures a * (b * c) == a * b * c
  {}

  lemma DistinctParts<T>(a: seq<T>, b: seq<T>)
    requires Distinct(a + b)
    ensures Distinct(a) && Distinct(b) && forall x :: x in a ==> x !in b
  {
    var s := a + b;
    forall i, j | 0 <= i < j < |a| ensures a[i] != a[j] { assert s[i] != s[j]; }
    forall i, j | 0 <= i < j < |b| ensures b[i] != b[j] { assert s[|a| + i] != s[|a| + j]; }
    forall i, j | 0 <= i < |a| && 0 <= j < |b| ensures a[i] != b[j] { assert s[i] != s[|a| + j]; }
  }

  lemma DistinctSmall<T>(x: T)
    ensures Distinct<T>([]) && Distinct([x])
  {}

  lemma LastCaseNew(front: seq<string>, last: string, arms: seq<string>, repeats: nat)
    requires Distinct(CellList(front, arms, repeats) + CaseArmCells(last, arms, repeats)) && arms != [] && repeats > 0
    ensures Distinct(CellList(front, arms, repeats)) && Distinct(CaseArmCells(last, arms, repeats)) && last !in front
  {
    hide Distinct, CellList, CaseArmCells;
    assert last in front ==> (last, arms[0], 0) in CellList(front, arms, repeats);
    assert (last, arms[0], 0) in CaseArmCells(last, arms, repeats);
    DistinctParts(CellList(front, arms, repeats), CaseArmCells(last, arms, repeats));
  }

  lemma {:induction false} DistinctCases(cases: seq<string>, arms: seq<string>, repeats: nat)
    requires Distinct(CellList(cases, arms, repeats)) && arms != [] && repeats > 0
    ensures cases != [] ==> Distinct(cases) && Distinct(arms)
  {
    hide Distinct, CaseArmCells;
    if cases != [] {
      var front, last := cases[..|cases| - 1], cases[|cases| - 1];
      assert cases == front + [last];
      LastCaseNew(front, last, arms, repeats);
      DistinctCases(front, arms, repeats);
      DistinctArms(last, arms, repeats);
      DistinctSmall(last);
      if front == [] {
        assert front + [last] == [last];
      } else {
        DistinctTogether(front, [last]);
      }
    }
  }

  lemma LastArmNew(caseId: string, front: seq<string>, last: string, repeats: nat)
    requires Distinct(CaseArmCells(caseId, front, repeats) + ArmCells(caseId, last, repeats)) && repeats > 0
    ensures Distinct(CaseArmCells(caseId, front, repeats)) && last !in front
  {
    hide Distinct, CaseArmCells, ArmCells;
    assert last in front ==> (caseId, last, 0) in CaseArmCells(caseId, front, repeats);
    assert (caseId, last, 0) in ArmCells(caseId, last, repeats);
    DistinctParts(CaseArmCells(caseId, front, repeats), ArmCells(caseId, last, repeats));
  }

  lemma {:induction false} DistinctArms(caseId: string, arms: seq<string>, repeats: nat)
    requires Distinct(CaseArmCells(caseId, arms, repeats)) && repeats > 0
    ensures Distinct(arms)
  {
    hide ArmCells;
    if arms != [] {
      var front, last := arms[..|arms| - 1], arms[|arms| - 1];
      assert arms == front + [last];
      LastArmNew(caseId, front, last, repeats);
      DistinctArms(caseId, front, repeats);
    }
  }

  ghost function RowCells(rows: seq<Row>): (cells: seq<Cell>)
    ensures |cells| == |rows|
    ensures forall i :: 0 <= i < |rows| ==> cells[i] == CellOf(rows[i])
  {
    seq(|rows|, i requires 0 <= i < |rows| => CellOf(rows[i]))
  }

  lemma RowCellsObserved(rows: seq<Row>)
    ensures Elements(RowCells(rows)) == ObservedCells(rows)
    ensures Distinct(RowCells(rows)) <==> !DuplicateCell(rows)
  {
    var cells := RowCells(rows);
    forall cell | cell in cells ensures cell in ObservedCells(rows) {
      var i :| 0 <= i < |cells| && cells[i] == cell;
      assert rows[i] in rows;
    }
    forall row | row in rows ensures CellOf(row) in cells {
      var i :| 0 <= i < |rows| && rows[i] == row;
      assert cells[i] == CellOf(row);
    }
  }

  lemma SubsetCount<T>(a: set<T>, b: set<T>)
    requires a <= b
    ensures |a| <= |b|
    ensures |a| == |b| ==> a == b
  {
    assert b == a + (b - a);
    assert |b| == |a| + |b - a|;
  }

  /** With the row count right, missing cells come with duplicate or unexpected ones: it is enough
    * that no cell repeats and none is foreign for the rows to be exactly the matrix.
    */
  lemma RowsAreTheMatrix(rows: seq<Row>, p: Policy)
    requires |rows| == ExpectedRows(p) && !DuplicateCell(rows) && ObservedCells(rows) <= ExpectedCells(p)
    ensures ObservedCells(rows) == ExpectedCells(p) && |ExpectedCells(p)| == ExpectedRows(p)
  {
    RowCellsObserved(rows);
    ElementsCount(RowCells(rows));
    MatrixCells(p);
    ElementsCount(CellList(p.caseIds, p.arms, p.repeats));
    SubsetCount(ObservedCells(rows), ExpectedCells(p));
  }

  /** Each expected cell is that of exactly one row, and each row's cell is expected. */
  ghost predicate RowsMatchCells(rows: seq<Row>, p: Policy) {
    && (forall row :: row in rows ==> CellOf(row) in ExpectedCells(p))
    && (forall cell :: cell in ExpectedCells(p) ==> exists i :: 0 <= i < |rows| && CellOf(rows[i]) == cell)
    && (forall i, j :: 0 <= i < j < |rows| ==> CellOf(rows[i]) != CellOf(rows[j]))
  }

  lemma BijectionIff(rows: seq<Row>, p: Policy)
    ensures RowsMatchCells(rows, p) <==> !DuplicateCell(rows) && ObservedCells(rows) == ExpectedCells(p)
  {
    RowCellsObserved(rows);
    var cells := RowCells(rows);
    if ObservedCells(rows) == ExpectedCells(p) {
      forall row | row in rows ensures CellOf(row) in ExpectedCells(p) {
        assert CellOf(row) in ObservedCells(rows);
      }
      forall cell | cell in ExpectedCells(p) ensures exists i :: 0 <= i < |rows| && CellOf(rows[i]) == cell {
        assert cell in Elements(cells);
        var i :| 0 <= i < |cells| && cells[i] == cell;
        assert CellOf(rows[i]) == cell;
      }
    }
    if RowsMatchCells(rows, p) {
      forall cell | cell in ExpectedCells(p) ensures cell in ObservedCells(rows) {
        var i :| 0 <= i < |rows| && CellOf(rows[i]) == cell;
        assert rows[i] in rows;
      }
    }
  }

  // ----- the paired count -----

  lemma {:induction false} CaseCellsAre(caseId: string, repeats: nat)
    ensures |CaseCells(caseId, repeats)| == repeats && Distinct(CaseCells(caseId, repeats))
    ensures forall cell :: cell in CaseCells(caseId, repeats) <==> cell.0 == caseId && 0 <= cell.1 < repeats
  {
    if repeats > 0 {
      CaseCellsAre(caseId, repeats - 1);
    }
  }

  lemma {:induction false} GridHas(cases: seq<string>, repeats: nat)
    ensures forall cell :: cell in Grid(cases, repeats) <==> cell.0 in cases && 0 <= cell.1 < repeats
  {
    if cases != [] {
      var front, last := cases[..|cases| - 1], cases[|cases| - 1];
      assert cases == front + [last];
      GridHas(front, repeats);
      CaseCellsAre(last, repeats);
    }
  }

  lemma {:induction false} GridLength(cases: seq<string>, repeats: nat)
    ensures |Grid(cases, repeats)| == |cases| * repeats
  {
    if cases != [] {
      GridLength(cases[..|cases| - 1], repeats);
      CaseCellsAre(cases[|cases| - 1], repeats);
      OneMore(|cases|, repeats);
    }
  }

  lemma {:induction false} GridDistinct(cases: seq<string>, repeats: nat)
    requires Distinct(cases)
    ensures Distinct(Grid(cases, repeats))
  {
    if cases != [] {
      var front, last := cases[..|cases| - 1], cases[|cases| - 1];
      assert cases == front + [last];
      DistinctParts(front, [last]);
      GridHas(front, repeats);
      GridDistinct(front, repeats);
      CaseCellsAre(last, repeats);
      DistinctTogether(Grid(front, repeats), CaseCells(last, repeats));
    }
  }

  lemma DistinctTogether<T>(a: seq<T>, b: seq<T>)
    requires Distinct(a) && Distinct(b) && forall x :: x in a ==> x !in b
    ensures Distinct(a + b)
  {
    forall i, j | 0 <= i < j < |a + b| ensures (a + b)[i] != (a + b)[j] {
      if i < |a| <= j {
        assert a[i] in a;
      }
    }
  }

  /** Of distinct cells, each failed one is left out once. */
  lemma {:induction false} PairedCount(cells: seq<(string, int)>, failed: set<(string, int)>)
    requires Distinct(cells)
    ensures |Paired(cells, failed)| + |Elements(cells) * failed| == |cells|
  {
    if cells == [] {
      assert Elements(cells) * failed == {};
    } else {
      var front, last := cells[..|cells| - 1], cells[|cells| - 1];
      assert cells == front + [last];
      DistinctParts(front, [last]);
      PairedCount(front, failed);
      if last in failed {
        assert Elements(cells) * failed == Elements(front) * failed + {last};
      } else {
        assert Elements(cells) * failed == Elements(front) * failed;
      }
    }
  }

  lemma {:induction false} FailedCellsCount(rows: seq<Row>)
    ensures |FailedCells(rows)| <= Operational(rows)
  {
    if rows == [] {
      assert FailedCells(rows) == {};
    } else {
      var front, last := rows[..|rows| - 1], rows[|rows| - 1];
      assert rows == front + [last];
      FailedCellsCount(front);
      if Failed(last) {
        assert FailedCells(rows) == FailedCells(front) + {(last.caseId, last.repeat)};
      } else {
        assert FailedCells(rows) == FailedCells(front);
      }
    }
  }

  lemma PairedAtLeast(rows: seq<Row>, p: Policy)
    requires Distinct(p.caseIds)
    ensures |Paired(Grid(p.caseIds, p.repeats), FailedCells(rows))| >= |p.caseIds| * p.repeats - Operational(rows)
  {
    var grid, failed := Grid(p.caseIds, p.repeats), FailedCells(rows);
    GridLength(p.caseIds, p.repeats);
    GridDistinct(p.caseIds, p.repeats);
    PairedCount(grid, failed);
    FailedCellsCount(rows);
    SubsetCount(Elements(grid) * failed, failed);
  }

  /** A failure rate within the limit bounds the number of failures. */
  lemma FailuresWithinRate(operational: nat, cells: nat, arms: nat, expected: nat, maxRate: real)
    requires expected == cells * arms && expected > 0 && Rate(operational, expected) <= maxRate
    ensures operational as real <= cells as real * (arms as real * maxRate)
  {}

  // ----- a pass -----

  lemma NotFired(v: View, gate: Gate)
    requires FirstFrom(v, 0).status.CandidateDev? && gate != Pass
    ensures Check(v, gate).None?
  {
    hide FirstFrom, Check;
    PassIffNoneFires(v);
  }

  lemma MatrixPassed(v: View)
    requires FirstFrom(v, 0).status.CandidateDev?
    ensures v.rows != [] && |v.rows| == v.expectedRows
    ensures !DuplicateCell(v.rows) && ObservedCells(v.rows) == ExpectedCells(v.policy)
  {
    hide FirstFrom, DuplicateCell, ObservedCells, ExpectedCells;
    NotFired(v, NoEvidence);
    NotFired(v, IncompleteMatrix);
    NotFired(v, MatrixIntegrity);
    assert MatrixReasons(v) == [];
    assert ExpectedCells(v.policy) - ObservedCells(v.rows) == {} && ObservedCells(v.rows) - ExpectedCells(v.policy) == {};
  }

  lemma RatePassed(v: View)
    requires FirstFrom(v, 0).status.CandidateDev?
    ensures Rate(v.operational, v.expectedRows) <= v.policy.maxRate
  {
    hide FirstFrom, Rate;
    NotFired(v, OpportunityFailureRates);
  }

  // ----- what a pass guarantees -----

  /** On a pass the rows are a bijection onto case, arm and repeat, and the policy lists no case and
    * no arm twice.
    */
  lemma PassMeansMatrix(rows: seq<Row>, p: Policy, judge: Judge, bootstrap: seq<real> -> Bounds)
    requires FirstFrom(ViewOf(rows, p, judge, bootstrap), 0).status.CandidateDev?
    ensures rows != [] && |rows| == |p.caseIds| * |p.arms| * p.repeats && RowsMatchCells(rows, p)
    ensures Distinct(p.caseIds) && Distinct(p.arms)
  {
    hide FirstFrom;
    MatrixPassed(ViewOf(rows, p, judge, bootstrap));
    RowsAreTheMatrix(rows, p);
    BijectionIff(rows, p);
    MatrixCells(p);
    ElementsCount(CellList(p.caseIds, p.arms, p.repeats));
    NonEmptyProduct(|p.caseIds|, |p.arms|, p.repeats);
    DistinctCases(p.caseIds, p.arms, p.repeats);
  }

  lemma NonEmptyProduct(a: nat, b: nat, c: nat)
    requires a * b * c > 0
    ensures a > 0 && b > 0 && c > 0
  {}

  /** On a pass the paired cells are at least cases * repeats * (1 - arms * maxRate). */
  lemma PassMeansEnoughPairs(rows: seq<Row>, p: Policy, judge: Judge, bootstrap: seq<real> -> Bounds)
    requires FirstFrom(ViewOf(rows, p, judge, bootstrap), 0).status.CandidateDev?
    ensures ViewOf(rows, p, judge, bootstrap).pairedN as real >=
      (|p.caseIds| * p.repeats) as real * (1.0 - |p.arms| as real * p.maxRate)
  {
    hide FirstFrom, Grid, Paired, FailedCells, Decisions, Missing, Invalid, Rate, RowsMatchCells, Operational;
    PassMeansMatrix(rows, p, judge, bootstrap);
    RatePassed(ViewOf(rows, p, judge, bootstrap));
    PairedAtLeast(rows, p);
    EnoughPairs(|p.caseIds|, |p.arms|, p.repeats, Operational(rows), p.maxRate, ViewOf(rows, p, judge, bootstrap).pairedN);
  }

  lemma EnoughPairs(cases: nat, arms: nat, repeats: nat, operational: nat, maxRate: real, pairedN: nat)
    requires cases * arms * repeats > 0 && Rate(operational, cases * arms * repeats) <= maxRate
    requires pairedN >= cases * repeats - operational
    ensures pairedN as real >= (cases * repeats) as real * (1.0 - arms as real * maxRate)
  {
    var cells := cases * repeats;
    assert cases * arms * repeats == cells * arms;
    FailuresWithinRate(operational, cells, arms, cases * arms * repeats, maxRate);
    assert cells as real * (1.0 - arms as real * maxRate) == cells as real - cells as real * (arms as real * maxRate);
  }

  lemma OneElement<T>(s: set<T>, x: T, y: T)
    requires |s| == 1 && x in s && y in s
    ensures x == y
  {
    if x != y {
      SubsetCount({x, y}, s);
    }
  }

  lemma {:induction false} NoneInvalid(rows: seq<Row>, metrics: seq<string>, row: Row, metric: string)
    requires Invalid(rows, metrics) == 0 && row in rows && !Failed(row) && metric in metrics
    ensures !InvalidScore(row, metric)
  {
    var front, last := rows[..|rows| - 1], rows[|rows| - 1];
    assert rows == front + [last];
    if row == last { NoneInvalidIn(row, metrics, metric); } else { NoneInvalid(front, metrics, row, metric); }
  }

  lemma {:induction false} NoneInvalidIn(row: Row, metrics: seq<string>, metric: string)
    requires RowInvalid(row, metrics) == 0 && metric in metrics
    ensures !InvalidScore(row, metric)
  {
    var front, last := metrics[..|metrics| - 1], metrics[|metrics| - 1];
    assert metrics == front + [last];
    if metric != last { NoneInvalidIn(row, front, metric); }
  }

  // ----- the early stop -----

  /** `enforce_operational_budget` raises. */
  predicate Stops(rows: seq<Row>, p: Policy) {
    var operational, expected := Operational(rows), ExpectedRows(p);
    operational > 0 && expected > 0 && operational as real / expected as real > p.maxRate
  }

  method EnforceOperationalBudget(rows: seq<Row>, p: Policy) returns (stop: bool)
    ensures stop <==> Stops(rows, p)
  {
    var operational := 0;
    for i := 0 to |rows|
      invariant operational == Operational(rows[..i])
    {
      assert rows[..i + 1][..i] == rows[..i];
      if Failed(rows[i]) {
        operational := operational + 1;
      }
    }
    assert rows[..|rows|] == rows;
    if operational == 0 {
      return false;
    }
    var expected := ExpectedRows(p);
    stop := expected > 0 && operational as real / expected as real > p.maxRate;
  }

  /** The rows with the labels the classifier gives them. */
  ghost function Relabelled(rows: seq<Row>): (relabelled: seq<Row>)
    ensures |relabelled| == |rows|
    ensures forall i :: 0 <= i < |rows| ==> relabelled[i] == rows[i].(failure := Classify(rows[i].answer))
  {
    seq(|rows|, i requires 0 <= i < |rows| => rows[i].(failure := Classify(rows[i].answer)))
  }

  /** The labels are written into the rows in place. */
  method RefreshOperationalFailureLabels(rows: array<Row>)
    modifies rows
    ensures rows[..] == Relabelled(old(rows[..]))
  {
    for i := 0 to rows.Length
      invariant forall k :: 0 <= k < i ==> rows[k] == old(rows[k]).(failure := Classify(old(rows[k]).answer))
      invariant forall k :: i <= k < rows.Length ==> rows[k] == old(rows[k])
    {
      rows[i] := rows[i].(failure := Classify(rows[i].answer));
    }
  }

  /** The later rows keep every failure of the earlier ones. */
  ghost predicate KeepsFailures(prefix: seq<Row>, rows: seq<Row>) {
    |prefix| <= |rows| && forall i :: 0 <= i < |prefix| && Failed(prefix[i]) ==> Failed(rows[i])
  }

  lemma {:induction false} FailuresOnlyGrow(prefix: seq<Row>, rows: seq<Row>)
    requires KeepsFailures(prefix, rows)
    ensures Operational(prefix) <= Operational(rows)
  {
    if rows != [] {
      var front := rows[..|rows| - 1];
      if |prefix| == |rows| {
        FailuresOnlyGrow(prefix[..|prefix| - 1], front);
      } else {
        FailuresOnlyGrow(prefix, front);
      }
    }
  }

  lemma {:induction false} OperationalWithout(rows: seq<Row>, i: nat)
    requires i < |rows|
    ensures Operational(rows) == Operational(rows[..i] + rows[i + 1..]) + (if Failed(rows[i]) then 1 else 0)
  {
    if i < |rows| - 1 {
      var front := rows[..|rows| - 1];
      OperationalWithout(front, i);
      var rest := rows[..i] + rows[i + 1..];
      assert rest[..|rest| - 1] == front[..i] + front[i + 1..];
    } else {
      assert rows[..i] + rows[i + 1..] == rows[..|rows| - 1];
    }
  }

  /** Sorting the rows does not change the number of failures. */
  lemma {:induction false} OperationalIgnoresOrder(a: seq<Row>, b: seq<Row>)
    requires multiset(a) == multiset(b)
    ensures Operational(a) == Operational(b)
  {
    SameLength(a, b);
    if a != [] {
      var i := TakeOut(a, b);
      OperationalIgnoresOrder(a[..|a| - 1], b[..i] + b[i + 1..]);
      OperationalWithout(b, i);
    }
  }

  lemma RateGrows(m: nat, n: nat, expected: nat)
    requires m <= n && expected > 0
    ensures m as real / expected as real <= n as real / expected as real
  {}

  lemma RateGateFires(v: View)
    requires Rate(v.operational, v.expectedRows) > v.policy.maxRate
    ensures Check(v, OpportunityFailureRates).Some? && Rank(OpportunityFailureRates) < 15
  {}

  /** A run stopped early was doomed: whatever the remaining rows are, every completed matrix that
    * keeps the failures seen so far is judged HOLD, however its rows are sorted and in every order
    * of the gates.
    */
  lemma StoppedRunsWouldHold(
    prefix: seq<Row>, collected: seq<Row>, rows: seq<Row>, p: Policy, judge: Judge, bootstrap: seq<real> -> Bounds, order: seq<Gate>)
    requires Stops(prefix, p) && KeepsFailures(prefix, collected) && multiset(rows) == multiset(collected)
    requires multiset(order) == multiset(DeclaredGates())
    ensures Evaluate(order, ViewOf(rows, p, judge, bootstrap)).Some? && Evaluate(order, ViewOf(rows, p, judge, bootstrap)).value.status.Hold?
  {
    hide Evaluate, FirstFrom, Check, RateReasons, Grid, Paired, FailedCells, Decisions, Missing, Invalid, Operational, Rank, KeepsFailures;
    var v := ViewOf(rows, p, judge, bootstrap);
    FailuresOnlyGrow(prefix, collected);
    OperationalIgnoresOrder(rows, collected);
    RateGrows(Operational(prefix), Operational(rows), ExpectedRows(p));
    RateGateFires(v);
    PassIffNoneFires(v);
    PermutationsAgree(order, v);
  }

  /** The rows went on from the prefix: each row of the prefix is there, with the old native count or
    * a new one.
    */
  ghost predicate Enriches(prefix: seq<Row>, rows: seq<Row>) {
    && |prefix| <= |rows|
    && forall i :: 0 <= i < |prefix| ==> rows[i].answer == Enriched(prefix[i].answer, rows[i].answer.native)
  }

  /** In particular when the rows of the prefix, labelled as they came in, are enriched with route
    * metadata, labelled again and sorted.
    */
  lemma StoppedRunsHoldAfterRefresh(
    prefix: seq<Row>, collected: seq<Row>, rows: seq<Row>, p: Policy, judge: Judge, bootstrap: seq<real> -> Bounds, order: seq<Gate>)
    requires Stops(prefix, p) && prefix == Relabelled(prefix)
    requires Enriches(prefix, collected) && multiset(rows) == multiset(Relabelled(collected))
    requires multiset(order) == multiset(DeclaredGates())
    ensures Evaluate(order, ViewOf(rows, p, judge, bootstrap)).Some? && Evaluate(order, ViewOf(rows, p, judge, bootstrap)).value.status.Hold?
  {
    hide Evaluate, Stops, Classify, ViewOf;
    var relabelled := Relabelled(collected);
    forall i | 0 <= i < |prefix| && Failed(prefix[i]) ensures Failed(relabelled[i]) {
      EvidenceOnlyRelabels(prefix[i].answer, collected[i].answer.native);
      assert prefix[i].failure == Classify(prefix[i].answer);
    }
    StoppedRunsWouldHold(prefix, relabelled, rows, p, judge, bootstrap, order);
  }

  /** On the completed rows themselves the stop and the rate gate say the same, except that the
    * gate can also fire with no failures at all, under a negative limit.
    */
  lemma StopIffRateGate(rows: seq<Row>, p: Policy, judge: Judge, bootstrap: seq<real> -> Bounds)
    requires ExpectedRows(p) > 0
    ensures Stops(rows, p) <==>
      Operational(rows) > 0 && "operational_failure_rate_exceeded" in RateReasons(ViewOf(rows, p, judge, bootstrap))
  {}
}

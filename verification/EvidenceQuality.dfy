/** What the paired comparison says about the rows themselves: which arm is judged against which, and
  * how the scores of the two arms settle the quality of a metric and the verdict.
  */
module EvidenceQuality {
  import opened Basics
  import opened EvidenceView
  import opened EvidenceGates
  import opened EvidenceGuarantees
  import R = RunStats

  /** An answered row of the arm, for that case and repeat, has the finite score `x`. */
  ghost predicate Scored(rows: seq<Row>, metric: string, arm: string, cell: (string, int), x: real) {
    exists row :: row in rows && !Failed(row) && CellOf(row) == (cell.0, arm, cell.1) && ScoreOf(row, metric) == Finite(x)
  }

  /** A case and repeat of the policy for which no row failed. */
  ghost predicate PairedCell(rows: seq<Row>, p: Policy, cell: (string, int)) {
    && cell.0 in p.caseIds && 0 <= cell.1 < p.repeats
    && forall row :: row in rows && row.caseId == cell.0 && row.repeat == cell.1 ==> !Failed(row)
  }

  /** There is something to compare, and each paired case and repeat is scored in both arms. */
  ghost predicate EveryPairScored(rows: seq<Row>, p: Policy, metric: string)
    requires |p.arms| == 2
  {
    && (exists cell :: PairedCell(rows, p, cell))
    && forall cell :: PairedCell(rows, p, cell) ==>
         (exists x :: Scored(rows, metric, p.arms[0], cell, x)) && exists y :: Scored(rows, metric, p.arms[1], cell, y)
  }

  /** The second arm scores below the first by more than the tolerance. */
  ghost predicate WorseAt(rows: seq<Row>, p: Policy, metric: string, cell: (string, int))
    requires |p.arms| == 2
  {
    forall x, y :: Scored(rows, metric, p.arms[0], cell, x) && Scored(rows, metric, p.arms[1], cell, y) ==> y < x - p.tolerance
  }

  /** It scores below by at most the tolerance. */
  ghost predicate AsGoodAt(rows: seq<Row>, p: Policy, metric: string, cell: (string, int))
    requires |p.arms| == 2
  {
    forall x, y :: Scored(rows, metric, p.arms[0], cell, x) && Scored(rows, metric, p.arms[1], cell, y) ==> y >= x - p.tolerance
  }

  // ----- the scores and the deltas are those of the rows -----

  lemma {:induction false} ScoresAreOfRows(rows: seq<Row>, metric: string, cell: (string, int), arm: string)
    ensures (cell.0, arm, cell.1) in Scores(rows, metric) ==> Scored(rows, metric, arm, cell, Scores(rows, metric)[(cell.0, arm, cell.1)])
    ensures forall x :: Scored(rows, metric, arm, cell, x) ==> (cell.0, arm, cell.1) in Scores(rows, metric)
  {
    if rows != [] {
      var front, last := rows[..|rows| - 1], rows[|rows| - 1];
      assert rows == front + [last];
      ScoresAreOfRows(front, metric, cell, arm);
      forall x | Scored(rows, metric, arm, cell, x) ensures (cell.0, arm, cell.1) in Scores(rows, metric) {
        var row :| row in rows && !Failed(row) && CellOf(row) == (cell.0, arm, cell.1) && ScoreOf(row, metric) == Finite(x);
        if row in front {
          assert Scored(front, metric, arm, cell, x);
        }
      }
    }
  }

  lemma {:induction false} PairedHas(cells: seq<(string, int)>, failed: set<(string, int)>, cell: (string, int))
    ensures cell in Paired(cells, failed) <==> cell in cells && cell !in failed
  {
    if cells != [] {
      var front, last := cells[..|cells| - 1], cells[|cells| - 1];
      assert cells == front + [last];
      PairedHas(front, failed, cell);
    }
  }

  lemma PairedIff(rows: seq<Row>, p: Policy, cell: (string, int))
    ensures cell in Paired(Grid(p.caseIds, p.repeats), FailedCells(rows)) <==> PairedCell(rows, p, cell)
  {
    GridHas(p.caseIds, p.repeats);
    PairedHas(Grid(p.caseIds, p.repeats), FailedCells(rows), cell);
    assert cell in FailedCells(rows) <==> exists row :: row in rows && Failed(row) && (row.caseId, row.repeat) == cell;
  }

  function DeltaAt(scores: map<(string, string, int), real>, base: string, candidate: string, cell: (string, int)): real
    requires BothScored(scores, base, candidate, cell)
  {
    scores[(cell.0, candidate, cell.1)] - scores[(cell.0, base, cell.1)]
  }

  /** A delta is that of one of the cells. */
  lemma {:induction false} DeltaOfCell(
    scores: map<(string, string, int), real>, base: string, candidate: string, cells: seq<(string, int)>, d: real) returns (cell: (string, int))
    requires d in Deltas(scores, base, candidate, cells)
    ensures cell in cells && BothScored(scores, base, candidate, cell) && d == DeltaAt(scores, base, candidate, cell)
  {
    var front, last := cells[..|cells| - 1], cells[|cells| - 1];
    assert cells == front + [last];
    if d in Deltas(scores, base, candidate, front) {
      cell := DeltaOfCell(scores, base, candidate, front, d);
    } else {
      cell := last;
    }
  }

  /** And each cell scored in both arms has its delta. */
  lemma {:induction false} CellHasDelta(
    scores: map<(string, string, int), real>, base: string, candidate: string, cells: seq<(string, int)>, cell: (string, int))
    requires cell in cells && BothScored(scores, base, candidate, cell)
    ensures DeltaAt(scores, base, candidate, cell) in Deltas(scores, base, candidate, cells)
  {
    var front, last := cells[..|cells| - 1], cells[|cells| - 1];
    assert cells == front + [last];
    if cell in front {
      CellHasDelta(scores, base, candidate, front, cell);
    }
  }

  function PolicyDeltas(rows: seq<Row>, p: Policy, metric: string): seq<real>
    requires |p.arms| == 2
  {
    Deltas(Scores(rows, metric), p.arms[0], p.arms[1], Paired(Grid(p.caseIds, p.repeats), FailedCells(rows)))
  }

  lemma DeltaIsOfRows(rows: seq<Row>, metric: string, base: string, candidate: string, cell: (string, int)) returns (x: real, y: real)
    requires BothScored(Scores(rows, metric), base, candidate, cell)
    ensures DeltaAt(Scores(rows, metric), base, candidate, cell) == y - x
    ensures Scored(rows, metric, base, cell, x) && Scored(rows, metric, candidate, cell, y)
  {
    hide Scores, Scored;
    ScoresAreOfRows(rows, metric, cell, base);
    ScoresAreOfRows(rows, metric, cell, candidate);
    x, y := Scores(rows, metric)[(cell.0, base, cell.1)], Scores(rows, metric)[(cell.0, candidate, cell.1)];
  }

  lemma BothArms(rows: seq<Row>, metric: string, base: string, candidate: string, cell: (string, int))
    requires (exists x :: Scored(rows, metric, base, cell, x)) && exists y :: Scored(rows, metric, candidate, cell, y)
    ensures BothScored(Scores(rows, metric), base, candidate, cell)
  {
    hide Scores, Scored;
    ScoresAreOfRows(rows, metric, cell, base);
    ScoresAreOfRows(rows, metric, cell, candidate);
  }

  /** Each delta is the second arm's score less the first's, for a paired case and repeat. */
  lemma DeltaOfRows(rows: seq<Row>, p: Policy, metric: string, d: real) returns (cell: (string, int), x: real, y: real)
    requires |p.arms| == 2 && d in PolicyDeltas(rows, p, metric)
    ensures PairedCell(rows, p, cell) && d == y - x
    ensures Scored(rows, metric, p.arms[0], cell, x) && Scored(rows, metric, p.arms[1], cell, y)
  {
    hide Deltas, Scores, Paired, Grid, FailedCells, Scored, PairedCell, BothScored, DeltaAt;
    cell := DeltaOfCell(Scores(rows, metric), p.arms[0], p.arms[1], Paired(Grid(p.caseIds, p.repeats), FailedCells(rows)), d);
    PairedIff(rows, p, cell);
    x, y := DeltaIsOfRows(rows, metric, p.arms[0], p.arms[1], cell);
  }

  /** And each paired case and repeat that is scored in both arms has one. */
  lemma RowsHaveDelta(rows: seq<Row>, p: Policy, metric: string, cell: (string, int)) returns (d: real, x: real, y: real)
    requires |p.arms| == 2 && PairedCell(rows, p, cell)
    requires (exists x :: Scored(rows, metric, p.arms[0], cell, x)) && exists y :: Scored(rows, metric, p.arms[1], cell, y)
    ensures d in PolicyDeltas(rows, p, metric) && d == y - x
    ensures Scored(rows, metric, p.arms[0], cell, x) && Scored(rows, metric, p.arms[1], cell, y)
  {
    hide Deltas, Scores, Paired, Grid, FailedCells, Scored, PairedCell, BothScored, DeltaAt;
    PairedIff(rows, p, cell);
    BothArms(rows, metric, p.arms[0], p.arms[1], cell);
    CellHasDelta(Scores(rows, metric), p.arms[0], p.arms[1], Paired(Grid(p.caseIds, p.repeats), FailedCells(rows)), cell);
    x, y := DeltaIsOfRows(rows, metric, p.arms[0], p.arms[1], cell);
    d := DeltaAt(Scores(rows, metric), p.arms[0], p.arms[1], cell);
  }

  // ----- quality -----

  /** The ends of the interval lie between the least and the greatest delta. */
  ghost predicate Sensible(bootstrap: seq<real> -> Bounds) {
    forall deltas: seq<real> :: deltas != [] ==> EndsWithin(deltas, bootstrap(deltas))
  }

  ghost predicate EndsWithin(deltas: seq<real>, b: Bounds) {
    (exists low :: low in deltas && low <= b.lo && low <= b.hi) && exists high :: high in deltas && b.lo <= high && b.hi <= high
  }

  /** The bounds are the ends of a percentile bootstrap of the deltas, for some resampling. */
  ghost predicate FromResamples(deltas: seq<real>, b: Bounds, alpha: real)
    requires deltas != []
  {
    exists picks :: R.Draws(picks, |deltas|) && R.Bootstrap(deltas, picks, alpha).Some?
      && R.Bootstrap(deltas, picks, alpha).value.lo == b.lo && R.Bootstrap(deltas, picks, alpha).value.hi == b.hi
  }

  /** Percentile bootstraps are sensible, whatever was drawn. */
  lemma PercentilesAreSensible(bootstrap: seq<real> -> Bounds, alpha: real)
    requires forall deltas: seq<real> :: deltas != [] ==> FromResamples(deltas, bootstrap(deltas), alpha)
    ensures Sensible(bootstrap)
  {
    hide R.Draws, R.Bootstrap, EndsWithin;
    forall deltas: seq<real> | deltas != [] ensures EndsWithin(deltas, bootstrap(deltas)) {
      assert FromResamples(deltas, bootstrap(deltas), alpha);
      var picks :| R.Draws(picks, |deltas|) && R.Bootstrap(deltas, picks, alpha).Some?
        && R.Bootstrap(deltas, picks, alpha).value.lo == bootstrap(deltas).lo && R.Bootstrap(deltas, picks, alpha).value.hi == bootstrap(deltas).hi;
      var low, high := R.Extremes(deltas);
      R.IntervalWithinValues(deltas, picks, alpha, low, high);
      EndsIn(deltas, bootstrap(deltas), low, high);
    }
  }

  lemma EndsIn(deltas: seq<real>, b: Bounds, low: real, high: real)
    requires low in deltas && high in deltas && low <= b.lo <= high && low <= b.hi <= high
    ensures EndsWithin(deltas, b)
  {}

  lemma EndsBelow(deltas: seq<real>, b: Bounds, bound: real)
    requires EndsWithin(deltas, b) && forall d :: d in deltas ==> d < bound
    ensures b.lo < bound && b.hi < bound
  {}

  lemma EndsAbove(deltas: seq<real>, b: Bounds, bound: real)
    requires EndsWithin(deltas, b) && forall d :: d in deltas ==> d >= bound
    ensures b.lo >= bound && b.hi >= bound
  {}

  lemma DecisionOf(rows: seq<Row>, p: Policy, judge: Judge, bootstrap: seq<real> -> Bounds, metric: string)
    requires |p.arms| == 2 && metric in p.metrics && rows != []
    ensures var v, deltas := ViewOf(rows, p, judge, bootstrap), PolicyDeltas(rows, p, metric);
      && metric in v.decisions && v.decisions[metric].n == |deltas| && v.decisions[metric].bounds == bootstrap(deltas)
      && v.decisions[metric].quality == QualityOf(bootstrap(deltas), p.tolerance)
  {}

  lemma SomeRow(rows: seq<Row>, p: Policy, metric: string)
    requires |p.arms| == 2 && EveryPairScored(rows, p, metric)
    ensures rows != [] && PolicyDeltas(rows, p, metric) != []
  {
    hide PolicyDeltas;
    var cell :| PairedCell(rows, p, cell);
    var d, x, y := RowsHaveDelta(rows, p, metric, cell);
  }

  /** When the candidate is the worse one by more than the tolerance for every paired case and repeat
    * the metric is inferior and the evidence does not pass; it fails, as a quality regression, unless
    * a gate that looks at the evidence itself holds it first.
    */
  lemma WorseCandidateFails(rows: seq<Row>, p: Policy, judge: Judge, bootstrap: seq<real> -> Bounds, metric: string)
    requires |p.arms| == 2 && metric in p.metrics && Sensible(bootstrap) && EveryPairScored(rows, p, metric)
    requires forall cell :: PairedCell(rows, p, cell) ==> WorseAt(rows, p, metric, cell)
    ensures var v := ViewOf(rows, p, judge, bootstrap);
      && metric in v.decisions && v.decisions[metric].quality.Inferior?
      && !FirstFrom(v, 0).status.CandidateDev?
      && ((forall g :: Rank(g) < 15 ==> Check(v, g).None?) ==> FirstFrom(v, 0) == Verdict(Fail, ["quality_regression"]))
  {
    hide ViewOf, PolicyDeltas, Scored, PairedCell, FirstFrom, Check, Sensible;
    var v, deltas := ViewOf(rows, p, judge, bootstrap), PolicyDeltas(rows, p, metric);
    SomeRow(rows, p, metric);
    DecisionOf(rows, p, judge, bootstrap, metric);
    forall d | d in deltas ensures d < -p.tolerance {
      var cell, x, y := DeltaOfRows(rows, p, metric, d);
    }
    SensibleAt(bootstrap, deltas);
    EndsBelow(deltas, bootstrap(deltas), -p.tolerance);
    InferiorFails(rows, p, judge, bootstrap, metric);
  }

  lemma SensibleAt(bootstrap: seq<real> -> Bounds, deltas: seq<real>)
    requires Sensible(bootstrap) && deltas != []
    ensures EndsWithin(deltas, bootstrap(deltas))
  {}

  lemma InferiorFails(rows: seq<Row>, p: Policy, judge: Judge, bootstrap: seq<real> -> Bounds, metric: string)
    requires var v := ViewOf(rows, p, judge, bootstrap); metric in v.decisions && v.decisions[metric].quality.Inferior?
    ensures var v := ViewOf(rows, p, judge, bootstrap);
      && !FirstFrom(v, 0).status.CandidateDev?
      && ((forall g :: Rank(g) < 15 ==> Check(v, g).None?) ==> FirstFrom(v, 0) == Verdict(Fail, ["quality_regression"]))
  {
    hide FirstFrom, Rank, RateReasons, MatrixReasons, Decisions, Operational, Missing, Invalid, FailedCells, Paired, Grid;
    var v := ViewOf(rows, p, judge, bootstrap);
    assert v.inferior;
    assert Check(v, QualityRegression) == Some(Verdict(Fail, ["quality_regression"]));
    PassIffNoneFires(v);
    if forall g :: Rank(g) < 15 ==> Check(v, g).None? {
      RankInverts(15);
      FirstIs(v, QualityRegression);
    }
  }

  /** The verdict is that of a gate that fires with none before it. */
  lemma FirstIs(v: View, gate: Gate)
    requires Check(v, gate).Some? && forall g :: Rank(g) < Rank(gate) ==> Check(v, g).None?
    ensures FirstFrom(v, 0) == Check(v, gate).value
  {
    hide Check, GateAt;
    var r := FirstRank(v, 0);
    RankInverts(r);
    assert GateAt(Rank(gate)) == gate;
  }

  /** When it is never the worse one by more than the tolerance the metric is noninferior. */
  lemma GoodCandidateNoninferior(rows: seq<Row>, p: Policy, judge: Judge, bootstrap: seq<real> -> Bounds, metric: string)
    requires |p.arms| == 2 && metric in p.metrics && Sensible(bootstrap) && EveryPairScored(rows, p, metric)
    requires forall cell :: PairedCell(rows, p, cell) ==> AsGoodAt(rows, p, metric, cell)
    ensures var v := ViewOf(rows, p, judge, bootstrap);
      metric in v.decisions && v.decisions[metric].quality.Noninferior? && v.decisions[metric].n == v.pairedN
  {
    hide ViewOf, PolicyDeltas, Scored, PairedCell, Sensible;
    var deltas := PolicyDeltas(rows, p, metric);
    SomeRow(rows, p, metric);
    DecisionOf(rows, p, judge, bootstrap, metric);
    forall d | d in deltas ensures d >= -p.tolerance {
      var cell, x, y := DeltaOfRows(rows, p, metric, d);
    }
    SensibleAt(bootstrap, deltas);
    EndsAbove(deltas, bootstrap(deltas), -p.tolerance);
    AllCompared(rows, p, judge, bootstrap, metric);
  }

  lemma {:induction false} DeltasOfAll(scores: map<(string, string, int), real>, base: string, candidate: string, cells: seq<(string, int)>)
    requires forall cell :: cell in cells ==> BothScored(scores, base, candidate, cell)
    ensures |Deltas(scores, base, candidate, cells)| == |cells|
  {
    if cells != [] {
      DeltasOfAll(scores, base, candidate, cells[..|cells| - 1]);
    }
  }

  /** With every pair scored nothing is missing from the comparison. */
  lemma AllCompared(rows: seq<Row>, p: Policy, judge: Judge, bootstrap: seq<real> -> Bounds, metric: string)
    requires |p.arms| == 2 && EveryPairScored(rows, p, metric)
    ensures |PolicyDeltas(rows, p, metric)| == ViewOf(rows, p, judge, bootstrap).pairedN
  {
    hide Deltas, Scores, Paired, Grid, FailedCells, Scored, PairedCell, Decisions, Operational, Missing, Invalid;
    var cells := Paired(Grid(p.caseIds, p.repeats), FailedCells(rows));
    forall cell | cell in cells ensures BothScored(Scores(rows, metric), p.arms[0], p.arms[1], cell) {
      PairedIff(rows, p, cell);
      BothArms(rows, metric, p.arms[0], p.arms[1], cell);
    }
    DeltasOfAll(Scores(rows, metric), p.arms[0], p.arms[1], cells);
  }

  /** The widest interval: from the least delta to the greatest. */
  ghost predicate Widest(bootstrap: seq<real> -> Bounds) {
    forall deltas: seq<real> :: deltas != [] ==> SpansAll(deltas, bootstrap(deltas))
  }

  ghost predicate SpansAll(deltas: seq<real>, b: Bounds) {
    b.lo in deltas && b.hi in deltas && forall d :: d in deltas ==> b.lo <= d <= b.hi
  }

  lemma WidestAt(bootstrap: seq<real> -> Bounds, deltas: seq<real>)
    requires Widest(bootstrap) && deltas != []
    ensures SpansAll(deltas, bootstrap(deltas))
  {}

  /** Under the widest interval, and one row for each cell, the three qualities are told apart by the
    * rows alone: inferior when the candidate is worse everywhere, noninferior when it is worse
    * nowhere, inconclusive in between, which holds the evidence.
    */
  lemma QualityByRows(rows: seq<Row>, p: Policy, judge: Judge, bootstrap: seq<real> -> Bounds, metric: string)
    requires |p.arms| == 2 && metric in p.metrics && Widest(bootstrap) && EveryPairScored(rows, p, metric) && !DuplicateCell(rows)
    ensures var v := ViewOf(rows, p, judge, bootstrap);
      && metric in v.decisions
      && (v.decisions[metric].quality.Inferior? <==> forall cell :: PairedCell(rows, p, cell) ==> WorseAt(rows, p, metric, cell))
      && (v.decisions[metric].quality.Noninferior? <==> forall cell :: PairedCell(rows, p, cell) ==> AsGoodAt(rows, p, metric, cell))
      && (v.decisions[metric].quality.Inconclusive? ==> !FirstFrom(v, 0).status.CandidateDev?)
  {
    hide ViewOf, PolicyDeltas, Scored, PairedCell, Widest, DuplicateCell, FirstFrom;
    var v, deltas := ViewOf(rows, p, judge, bootstrap), PolicyDeltas(rows, p, metric);
    SomeRow(rows, p, metric);
    DecisionOf(rows, p, judge, bootstrap, metric);
    WidestAt(bootstrap, deltas);
    var b := bootstrap(deltas);
    forall cell, x, y | PairedCell(rows, p, cell) && Scored(rows, metric, p.arms[0], cell, x) && Scored(rows, metric, p.arms[1], cell, y)
      ensures b.lo <= y - x <= b.hi
    {
      var d, x', y' := RowsHaveDelta(rows, p, metric, cell);
      OneScore(rows, metric, p.arms[0], cell, x, x');
      OneScore(rows, metric, p.arms[1], cell, y, y');
    }
    var cellLo, xLo, yLo := DeltaOfRows(rows, p, metric, b.lo);
    var cellHi, xHi, yHi := DeltaOfRows(rows, p, metric, b.hi);
    InconclusiveHolds(rows, p, judge, bootstrap, metric);
  }

  lemma OneScore(rows: seq<Row>, metric: string, arm: string, cell: (string, int), x: real, x': real)
    requires !DuplicateCell(rows) && Scored(rows, metric, arm, cell, x) && Scored(rows, metric, arm, cell, x')
    ensures x == x'
  {}

  lemma InconclusiveHolds(rows: seq<Row>, p: Policy, judge: Judge, bootstrap: seq<real> -> Bounds, metric: string)
    ensures var v := ViewOf(rows, p, judge, bootstrap);
      metric in v.decisions && v.decisions[metric].quality.Inconclusive? ==> !FirstFrom(v, 0).status.CandidateDev?
  {
    hide FirstFrom, Decisions, Operational, Missing, Invalid, FailedCells, Paired, Grid;
    var v := ViewOf(rows, p, judge, bootstrap);
    if metric in v.decisions && v.decisions[metric].quality.Inconclusive? {
      assert v.inconclusive;
      assert Check(v, QualityInconclusive).Some?;
      PassIffNoneFires(v);
    }
  }
}

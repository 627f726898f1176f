/** The facts the evidence gates decide from, computed once over all rows: matrix cells, operational
  * failures, missing and invalid scores, and the paired comparison of each metric.
  */
module EvidenceView {
  import opened AnswerFailures
  import opened Basics

  /** `float(row.get(metric))`: not a number at all, not finite, or a value. */
  datatype Score = Unparsed | NotFinite | Finite(value: real)

  /** An answer row. `failure` is the operational failure label, empty for none; `fields` holds the
    * response metadata, a key being absent where the row has None; `answer` is what the label is
    * decided from.
    */
  datatype Row = Row(
    caseId: string, arm: string, repeat: int, failure: string,
    fields: map<string, string>, scores: map<string, Score>, answer: Response)

  datatype Policy = Policy(
    caseIds: seq<string>, arms: seq<string>, repeats: nat, metrics: seq<string>,
    maxRate: real, tolerance: real,
    routes: seq<(string, string, string)>, candidateProviders: seq<string>,
    providersByArm: seq<(string, seq<string>)>, allowedModels: seq<(string, seq<string>)>)

  datatype Judge = Judge(canaries: bool, repeatability: bool, callEvidence: bool)

  datatype Bounds = Bounds(lo: real, hi: real)

  datatype Quality = Noninferior | Inferior | Inconclusive

  datatype Decision = Decision(n: nat, bounds: Bounds, quality: Quality)

  datatype View = View(
    rows: seq<Row>, policy: Policy, judge: Judge, expectedRows: nat,
    operational: nat, missing: nat, invalid: nat,
    failedCells: set<(string, int)>, pairedN: nat,
    decisions: map<string, Decision>, inferior: bool, inconclusive: bool, short: bool)

  predicate Failed(row: Row) { row.failure != "" }

  function ScoreOf(row: Row, metric: string): Score {
    if metric in row.scores then row.scores[metric] else Unparsed
  }

  // ----- what the loops compute -----

  function ExpectedRows(p: Policy): nat { |p.caseIds| * |p.arms| * p.repeats }

  function Operational(rows: seq<Row>): (n: nat)
    ensures n <= |rows|
  {
    if rows == [] then 0 else Operational(rows[..|rows| - 1]) + (if Failed(rows[|rows| - 1]) then 1 else 0)
  }

  predicate MissingScore(row: Row, metric: string) { !ScoreOf(row, metric).Finite? }

  predicate InvalidScore(row: Row, metric: string) {
    ScoreOf(row, metric).Finite? && !(0.0 <= ScoreOf(row, metric).value <= 1.0)
  }

  /** How many of the metrics the row lacks, and how many it has out of range. */
  function RowMissing(row: Row, metrics: seq<string>): nat {
    if metrics == [] then 0 else RowMissing(row, metrics[..|metrics| - 1]) + (if MissingScore(row, metrics[|metrics| - 1]) then 1 else 0)
  }

  function RowInvalid(row: Row, metrics: seq<string>): nat {
    if metrics == [] then 0 else RowInvalid(row, metrics[..|metrics| - 1]) + (if InvalidScore(row, metrics[|metrics| - 1]) then 1 else 0)
  }

  function Missing(rows: seq<Row>, metrics: seq<string>): nat {
    if rows == [] then 0
    else Missing(rows[..|rows| - 1], metrics) + (if Failed(rows[|rows| - 1]) then 0 else RowMissing(rows[|rows| - 1], metrics))
  }

  function Invalid(rows: seq<Row>, metrics: seq<string>): nat {
    if rows == [] then 0
    else Invalid(rows[..|rows| - 1], metrics) + (if Failed(rows[|rows| - 1]) then 0 else RowInvalid(rows[|rows| - 1], metrics))
  }

  function FailedCells(rows: seq<Row>): set<(string, int)> {
    set row | row in rows && Failed(row) :: (row.caseId, row.repeat)
  }

  /** The cells of one case, and of all cases in order. */
  function CaseCells(caseId: string, repeats: nat): seq<(string, int)> {
    if repeats == 0 then [] else CaseCells(caseId, repeats - 1) + [(caseId, repeats - 1)]
  }

  function Grid(caseIds: seq<string>, repeats: nat): seq<(string, int)> {
    if caseIds == [] then [] else Grid(caseIds[..|caseIds| - 1], repeats) + CaseCells(caseIds[|caseIds| - 1], repeats)
  }

  /** The cells that did not fail in either arm. */
  function Paired(cells: seq<(string, int)>, failed: set<(string, int)>): seq<(string, int)> {
    if cells == [] then []
    else Paired(cells[..|cells| - 1], failed) + (if cells[|cells| - 1] in failed then [] else [cells[|cells| - 1]])
  }

  /** The finite scores of answered rows; a later row for the same cell replaces an earlier. */
  function Scores(rows: seq<Row>, metric: string): map<(string, string, int), real> {
    if rows == [] then map[]
    else
      var before, row := Scores(rows[..|rows| - 1], metric), rows[|rows| - 1];
      if Failed(row) || !ScoreOf(row, metric).Finite? then before
      else before[(row.caseId, row.arm, row.repeat) := ScoreOf(row, metric).value]
  }

  predicate BothScored(scores: map<(string, string, int), real>, base: string, candidate: string, cell: (string, int)) {
    (cell.0, base, cell.1) in scores && (cell.0, candidate, cell.1) in scores
  }

  function Deltas(scores: map<(string, string, int), real>, base: string, candidate: string, cells: seq<(string, int)>): (deltas: seq<real>)
    ensures |deltas| <= |cells|
  {
    if cells == [] then []
    else
      var cell := cells[|cells| - 1];
      Deltas(scores, base, candidate, cells[..|cells| - 1]) +
      (if BothScored(scores, base, candidate, cell) then [scores[(cell.0, candidate, cell.1)] - scores[(cell.0, base, cell.1)]] else [])
  }

  function QualityOf(bounds: Bounds, tolerance: real): Quality {
    if bounds.lo >= -tolerance then Noninferior else if bounds.hi < -tolerance then Inferior else Inconclusive
  }

  function MetricDecision(rows: seq<Row>, p: Policy, bootstrap: seq<real> -> Bounds, metric: string): Decision
    requires |p.arms| == 2
  {
    var deltas := Deltas(Scores(rows, metric), p.arms[0], p.arms[1], Paired(Grid(p.caseIds, p.repeats), FailedCells(rows)));
    Decision(|deltas|, bootstrap(deltas), QualityOf(bootstrap(deltas), p.tolerance))
  }

  function Decisions(rows: seq<Row>, p: Policy, bootstrap: seq<real> -> Bounds, metrics: seq<string>): map<string, Decision> {
    if |p.arms| != 2 || rows == [] then map[]
    else map metric | metric in metrics :: MetricDecision(rows, p, bootstrap, metric)
  }

  predicate AnyQuality(decisions: map<string, Decision>, quality: Quality) {
    exists m :: m in decisions && decisions[m].quality == quality
  }

  predicate AnyBelow(decisions: map<string, Decision>, n: nat) {
    exists m :: m in decisions && decisions[m].n < n
  }

  function ViewOf(rows: seq<Row>, p: Policy, judge: Judge, bootstrap: seq<real> -> Bounds): View {
    var pairedN := |Paired(Grid(p.caseIds, p.repeats), FailedCells(rows))|;
    var decisions := Decisions(rows, p, bootstrap, p.metrics);
    View(rows, p, judge, ExpectedRows(p), Operational(rows), Missing(rows, p.metrics), Invalid(rows, p.metrics),
         FailedCells(rows), pairedN, decisions,
         AnyQuality(decisions, Inferior),
         AnyQuality(decisions, Inconclusive),
         AnyBelow(decisions, pairedN))
  }

  // ----- the loops -----

  method CountScores(rows: seq<Row>, metrics: seq<string>) returns (missing: nat, invalid: nat)
    ensures missing == Missing(rows, metrics) && invalid == Invalid(rows, metrics)
  {
    missing, invalid := 0, 0;
    for i := 0 to |rows|
      invariant missing == Missing(rows[..i], metrics) && invalid == Invalid(rows[..i], metrics)
    {
      assert rows[..i + 1][..i] == rows[..i];
      if !Failed(rows[i]) {
        for j := 0 to |metrics|
          invariant missing == Missing(rows[..i], metrics) + RowMissing(rows[i], metrics[..j])
          invariant invalid == Invalid(rows[..i], metrics) + RowInvalid(rows[i], metrics[..j])
        {
          assert metrics[..j + 1][..j] == metrics[..j];
          var score := ScoreOf(rows[i], metrics[j]);
          if !score.Finite? {
            missing := missing + 1;
          } else if !(0.0 <= score.value <= 1.0) {
            invalid := invalid + 1;
          }
        }
        assert metrics[..|metrics|] == metrics;
      }
    }
    assert rows[..|rows|] == rows;
  }

  lemma NonePaired(failed: set<(string, int)>)
    ensures Paired([], failed) == []
  {}

  lemma GridSteps(caseIds: seq<string>, repeats: nat, i: nat, r: nat)
    requires i < |caseIds| && r < repeats
    ensures Grid(caseIds[..i + 1], repeats) == Grid(caseIds[..i], repeats) + CaseCells(caseIds[i], repeats)
    ensures CaseCells(caseIds[i], r + 1) == CaseCells(caseIds[i], r) + [(caseIds[i], r)]
  {
    assert caseIds[..i + 1][..i] == caseIds[..i];
  }

  lemma PairedOneMore(cells: seq<(string, int)>, cell: (string, int), failed: set<(string, int)>)
    ensures Paired(cells + [cell], failed) == Paired(cells, failed) + if cell in failed then [] else [cell]
  {}

  /** The paired count: every case and repeat whose cell did not fail. */
  method CountPaired(p: Policy, failed: set<(string, int)>) returns (pairedN: nat)
    ensures pairedN == |Paired(Grid(p.caseIds, p.repeats), failed)|
  {
    hide Paired;
    pairedN := 0;
    NonePaired(failed);
    for i := 0 to |p.caseIds|
      invariant pairedN == |Paired(Grid(p.caseIds[..i], p.repeats), failed)|
    {
      ghost var grid := Grid(p.caseIds[..i], p.repeats);
      assert grid + [] == grid;
      for r := 0 to p.repeats
        invariant pairedN == |Paired(grid + CaseCells(p.caseIds[i], r), failed)|
      {
        GridSteps(p.caseIds, p.repeats, i, r);
        PairedOneMore(grid + CaseCells(p.caseIds[i], r), (p.caseIds[i], r), failed);
        assert grid + CaseCells(p.caseIds[i], r + 1) == grid + CaseCells(p.caseIds[i], r) + [(p.caseIds[i], r)];
        if (p.caseIds[i], r) !in failed {
          pairedN := pairedN + 1;
        }
      }
      assert p.caseIds[..i + 1][..i] == p.caseIds[..i];
    }
    assert p.caseIds[..|p.caseIds|] == p.caseIds;
  }

  method CollectScores(rows: seq<Row>, metric: string) returns (scores: map<(string, string, int), real>)
    ensures scores == Scores(rows, metric)
  {
    scores := map[];
    for i := 0 to |rows|
      invariant scores == Scores(rows[..i], metric)
    {
      assert rows[..i + 1][..i] == rows[..i];
      if !Failed(rows[i]) {
        var score := ScoreOf(rows[i], metric);
        if score.Finite? {
          scores := scores[(rows[i].caseId, rows[i].arm, rows[i].repeat) := score.value];
        }
      }
    }
    assert rows[..|rows|] == rows;
  }

  lemma DeltasOneMore(
    scores: map<(string, string, int), real>, base: string, candidate: string, cells: seq<(string, int)>, cell: (string, int))
    ensures Deltas(scores, base, candidate, cells + [cell]) ==
      Deltas(scores, base, candidate, cells) +
      (if BothScored(scores, base, candidate, cell) then [scores[(cell.0, candidate, cell.1)] - scores[(cell.0, base, cell.1)]] else [])
  {}

  method CollectDeltas(p: Policy, failed: set<(string, int)>, scores: map<(string, string, int), real>) returns (deltas: seq<real>)
    requires |p.arms| == 2
    ensures deltas == Deltas(scores, p.arms[0], p.arms[1], Paired(Grid(p.caseIds, p.repeats), failed))
  {
    hide Deltas, Paired;
    var base, candidate := p.arms[0], p.arms[1];
    deltas := [];
    NoDeltas(scores, base, candidate, failed);
    for i := 0 to |p.caseIds|
      invariant deltas == Deltas(scores, base, candidate, Paired(Grid(p.caseIds[..i], p.repeats), failed))
    {
      ghost var grid := Grid(p.caseIds[..i], p.repeats);
      assert grid + [] == grid;
      for r := 0 to p.repeats
        invariant deltas == Deltas(scores, base, candidate, Paired(grid + CaseCells(p.caseIds[i], r), failed))
      {
        var cell := (p.caseIds[i], r as int);
        ghost var before := grid + CaseCells(p.caseIds[i], r);
        GridSteps(p.caseIds, p.repeats, i, r);
        assert grid + CaseCells(p.caseIds[i], r + 1) == before + [cell];
        PairedOneMore(before, cell, failed);
        DeltasOneMore(scores, base, candidate, Paired(before, failed), cell);
        assert Paired(before, failed) + [] == Paired(before, failed);
        if cell !in failed && (cell.0, base, cell.1) in scores && (cell.0, candidate, cell.1) in scores {
          deltas := deltas + [scores[(cell.0, candidate, cell.1)] - scores[(cell.0, base, cell.1)]];
        }
      }
      assert p.caseIds[..i + 1][..i] == p.caseIds[..i];
    }
    assert p.caseIds[..|p.caseIds|] == p.caseIds;
  }

  lemma NoDeltas(scores: map<(string, string, int), real>, base: string, candidate: string, failed: set<(string, int)>)
    ensures Deltas(scores, base, candidate, Paired([], failed)) == []
  {}

  method FromEvidence(rows: seq<Row>, p: Policy, judge: Judge, bootstrap: seq<real> -> Bounds) returns (view: View)
    ensures view == ViewOf(rows, p, judge, bootstrap)
  {
    var operational := 0;
    for i := 0 to |rows|
      invariant operational == Operational(rows[..i])
    {
      assert rows[..i + 1][..i] == rows[..i];
      if Failed(rows[i]) {
        operational := operational + 1;
      }
    }
    assert rows[..|rows|] == rows;
    var missing, invalid := CountScores(rows, p.metrics);
    var failed := FailedCells(rows);
    var pairedN := CountPaired(p, failed);
    var decisions, inferior, inconclusive, short := DecideMetrics(rows, p, bootstrap, failed, pairedN);
    view := View(rows, p, judge, ExpectedRows(p), operational, missing, invalid, failed, pairedN, decisions, inferior, inconclusive, short);
  }

  lemma OneMoreDecision(before: map<string, Decision>, metric: string, d: Decision, n: nat)
    requires metric in before ==> before[metric] == d
    ensures forall q :: AnyQuality(before[metric := d], q) <==> AnyQuality(before, q) || d.quality == q
    ensures AnyBelow(before[metric := d], n) <==> AnyBelow(before, n) || d.n < n
  {
    var after := before[metric := d];
    assert metric in after;
    forall m | m in before ensures m in after && after[m] == before[m] {}
  }

  lemma NoDecisions(n: nat)
    ensures !AnyBelow(map[], n) && forall q :: !AnyQuality(map[], q)
  {}

  method DecideMetrics(rows: seq<Row>, p: Policy, bootstrap: seq<real> -> Bounds, failed: set<(string, int)>, pairedN: nat)
    returns (decisions: map<string, Decision>, inferior: bool, inconclusive: bool, short: bool)
    requires failed == FailedCells(rows)
    ensures decisions == Decisions(rows, p, bootstrap, p.metrics)
    ensures inferior <==> AnyQuality(decisions, Inferior)
    ensures inconclusive <==> AnyQuality(decisions, Inconclusive)
    ensures short <==> AnyBelow(decisions, pairedN)
  {
    hide AnyQuality, AnyBelow, Deltas, Paired, Scores, FailedCells;
    decisions, inferior, inconclusive, short := map[], false, false, false;
    NoDecisions(pairedN);
    if |p.arms| != 2 || rows == [] {
      return;
    }
    for i := 0 to |p.metrics|
      invariant decisions.Keys == set m | m in p.metrics[..i]
      invariant forall m :: m in decisions ==> decisions[m] == MetricDecision(rows, p, bootstrap, m)
      invariant inferior <==> AnyQuality(decisions, Inferior)
      invariant inconclusive <==> AnyQuality(decisions, Inconclusive)
      invariant short <==> AnyBelow(decisions, pairedN)
    {
      var metric := p.metrics[i];
      assert p.metrics[..i + 1] == p.metrics[..i] + [metric];
      var scores := CollectScores(rows, metric);
      var deltas := CollectDeltas(p, failed, scores);
      var bounds := bootstrap(deltas);
      ghost var before := decisions;
      if |deltas| < pairedN {
        short := true;
      }
      var quality;
      if bounds.lo >= -p.tolerance {
        quality := Noninferior;
      } else if bounds.hi < -p.tolerance {
        quality := Inferior;
        inferior := true;
      } else {
        quality := Inconclusive;
        inconclusive := true;
      }
      decisions := decisions[metric := Decision(|deltas|, bounds, quality)];
      assert decisions[metric] == MetricDecision(rows, p, bootstrap, metric);
      OneMoreDecision(before, metric, decisions[metric], pairedN);
    }
    assert p.metrics[..|p.metrics|] == p.metrics;
  }
}

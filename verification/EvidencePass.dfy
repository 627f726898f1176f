/** Exactly which evidence passes: the eighteen gates together, as one condition on the rows. */
module EvidencePass {
  import opened AnswerFailures
  import opened Basics
  import opened EvidenceView
  import opened EvidenceGates
  import opened EvidenceGuarantees
  import opened EvidenceQuality

  // ----- the condition -----

  /** The context hash of the row. Python prints a missing one as "None". */
  predicate HasContext(row: Row, hash: string) {
    if "context_hash" in row.fields then row.fields["context_hash"] == hash else hash == "None"
  }

  /** All rows of the case, and there are some, have one context. */
  ghost predicate OneContext(rows: seq<Row>, caseId: string) {
    exists hash :: hash != "" && hash != "None" && ContextIs(rows, caseId, hash)
  }

  ghost predicate ContextIs(rows: seq<Row>, caseId: string, hash: string) {
    && (exists row :: row in rows && row.caseId == caseId)
    && forall row :: row in rows && row.caseId == caseId ==> HasContext(row, hash)
  }

  /** All twelve metadata fields are there, and the provider gave the request id. */
  predicate Documented(row: Row) {
    && (forall name :: name in REQUIRED_METADATA ==> name in row.fields && row.fields[name] != "")
    && Field(row, "request_id_source") == Some("provider")
  }

  /** The row was asked of the frozen route of its arm, if it has one. */
  predicate Routed(p: Policy, row: Row) {
    Route(p, row.arm).Some? ==>
      Field(row, "requested_provider") == Some(Route(p, row.arm).value.0) && Field(row, "requested_model") == Some(Route(p, row.arm).value.1)
  }

  /** The providers the arm may be served by: its own, or else the candidates. */
  function Approved(p: Policy, arm: string): seq<string> {
    if OrEmpty(Lookup(p.providersByArm, arm)) != [] then OrEmpty(Lookup(p.providersByArm, arm)) else p.candidateProviders
  }

  predicate AllowedModel(p: Policy, row: Row) {
    Field(row, "actual_model").Some? && Field(row, "actual_model").value in OrEmpty(Lookup(p.allowedModels, row.arm))
  }

  /** By an allowed model; over OpenRouter the route metadata is verified, attests model and provider,
    * and the provider is approved when any are; elsewhere the response may attest them.
    */
  predicate Served(p: Policy, row: Row) {
    && AllowedModel(p, row)
    && if ExpectsProvider(p, row.arm, "openrouter") then
         && Field(row, "route_metadata_status") == Some("verified")
         && Field(row, "actual_model_source") == Field(row, "actual_provider_source") == Some("route_metadata")
         && ((p.candidateProviders == [] && p.providersByArm == []) ||
              (Field(row, "actual_provider").Some? && Field(row, "actual_provider").value in Approved(p, row.arm)))
       else
         && Field(row, "actual_model_source") in {Some("route_metadata"), Some("provider_response")}
         && (ExpectsProvider(p, row.arm, "azure") ==>
              Field(row, "actual_provider_source") in {Some("provider_response"), Some("azure_client_type_endpoint_and_deployment")})
  }

  /** Only answered rows have metadata to check. */
  ghost predicate RowsSound(rows: seq<Row>, p: Policy) {
    forall row :: row in rows ==> Routed(p, row) && (Failed(row) || (Documented(row) && Served(p, row)))
  }

  ghost predicate ScoresInRange(rows: seq<Row>, metrics: seq<string>) {
    forall row, metric :: row in rows && !Failed(row) && metric in metrics && ScoreOf(row, metric).Finite? ==>
      0.0 <= ScoreOf(row, metric).value <= 1.0
  }

  ghost function FailedRows(rows: seq<Row>): set<nat> {
    set i: nat | i < |rows| && Failed(rows[i])
  }

  /** The answered rows and metrics without a finite score. */
  ghost function Unscored(rows: seq<Row>, metrics: seq<string>): set<(nat, nat)> {
    set i: nat, j: nat | i < |rows| && j < |metrics| && !Failed(rows[i]) && !ScoreOf(rows[i], metrics[j]).Finite? :: (i, j)
  }

  /** Every metric was compared on all paired cases and repeats, and the interval of its deltas starts
    * within the tolerance.
    */
  ghost predicate Compared(rows: seq<Row>, p: Policy, bootstrap: seq<real> -> Bounds) {
    |p.arms| == 2 ==> forall metric :: metric in p.metrics ==> ComparedOn(rows, p, bootstrap, metric)
  }

  ghost predicate ComparedOn(rows: seq<Row>, p: Policy, bootstrap: seq<real> -> Bounds, metric: string)
    requires |p.arms| == 2
  {
    && (forall cell :: PairedCell(rows, p, cell) ==>
         (exists x :: Scored(rows, metric, p.arms[0], cell, x)) && exists y :: Scored(rows, metric, p.arms[1], cell, y))
    && bootstrap(PolicyDeltas(rows, p, metric)).lo >= -p.tolerance
  }

  /** The failed rows, and the scores missing among the rest, are within the rate of all there could be. */
  ghost predicate FewFailures(rows: seq<Row>, p: Policy) {
    && |FailedRows(rows)| as real <= p.maxRate * |rows| as real
    && |Unscored(rows, p.metrics)| as real <= p.maxRate * (|rows| * |p.metrics|) as real
  }

  ghost predicate Matrix(rows: seq<Row>, p: Policy) {
    rows != [] && |rows| == |p.caseIds| * |p.arms| * p.repeats && RowsMatchCells(rows, p)
  }

  ghost predicate Sound(rows: seq<Row>, p: Policy, judge: Judge, bootstrap: seq<real> -> Bounds) {
    && Matrix(rows, p)
    && (forall c :: c in p.caseIds ==> OneContext(rows, c))
    && RowsSound(rows, p) && judge == Judge(true, true, true) && ScoresInRange(rows, p.metrics)
    && FewFailures(rows, p) && Compared(rows, p, bootstrap)
  }

  // ----- gate by gate -----

  lemma MatrixIff(v: View)
    requires v.expectedRows == ExpectedRows(v.policy)
    ensures Check(v, NoEvidence).None? && Check(v, IncompleteMatrix).None? && Check(v, MatrixIntegrity).None? <==> Matrix(v.rows, v.policy)
  {
    hide RowsMatchCells, DuplicateCell, ObservedCells, ExpectedCells;
    BijectionIff(v.rows, v.policy);
    ReasonsIff(v);
  }

  lemma ReasonsIff(v: View)
    ensures MatrixReasons(v) == [] <==> !DuplicateCell(v.rows) && ObservedCells(v.rows) == ExpectedCells(v.policy)
  {
    hide DuplicateCell, ObservedCells, ExpectedCells;
    var observed, expected := ObservedCells(v.rows), ExpectedCells(v.policy);
    assert expected - observed == {} && observed - expected == {} <==> observed == expected;
  }

  lemma ContextIff(rows: seq<Row>, caseId: string)
    ensures ContextBroken(rows, caseId) <==> !OneContext(rows, caseId)
  {
    var hashes := Hashes(rows, caseId);
    if OneContext(rows, caseId) {
      var hash :| hash != "" && hash != "None" && ContextIs(rows, caseId, hash);
      var row :| row in rows && row.caseId == caseId;
      assert ContextHash(row) in hashes;
      assert hashes == {hash};
    }
    if !ContextBroken(rows, caseId) {
      var hash :| hash in hashes;
      forall row | row in rows && row.caseId == caseId ensures HasContext(row, hash) {
        OneElement(hashes, hash, ContextHash(row));
      }
      assert ContextIs(rows, caseId, hash);
    }
  }

  lemma ContextsIff(v: View)
    ensures Check(v, ContextMismatch).None? <==> forall c :: c in v.policy.caseIds ==> OneContext(v.rows, c)
  {
    hide ContextBroken, OneContext;
    forall c ensures ContextBroken(v.rows, c) <==> !OneContext(v.rows, c) {
      ContextIff(v.rows, c);
    }
  }

  lemma DocumentedIff(v: View)
    ensures Check(v, ResponseMetadataIncomplete).None? && Check(v, ProviderRequestIdUnverified).None? <==>
      forall row :: row in v.rows && !Failed(row) ==> Documented(row)
  {
    hide REQUIRED_METADATA;
    forall row ensures Documented(row) <==> !MetadataMissing(row) && Field(row, "request_id_source") == Some("provider") {}
  }

  lemma RoutedIff(v: View)
    ensures Check(v, RequestedRouteMismatch).None? <==> forall row :: row in v.rows ==> Routed(v.policy, row)
  {
    hide Route, Field;
    forall row ensures Routed(v.policy, row) <==> !RouteMismatch(v.policy, row) {}
  }

  /** The four things the gates about the serving side look for in a row. */
  lemma ServedIff(p: Policy, row: Row)
    ensures Served(p, row) <==>
      && !ModelMismatch(p, row) && !ProviderUnattested(p, row)
      && !(ExpectsProvider(p, row.arm, "openrouter") && Field(row, "route_metadata_status") != Some("verified"))
      && !((p.candidateProviders != [] || p.providersByArm != []) && OutsideFreeze(p, row))
  {
    hide Field, Lookup, Route;
  }

  lemma ServingIff(v: View)
    ensures (&& Check(v, RouteMetadataUnverified).None? && Check(v, ProviderRouteOutsideFreeze).None?
             && Check(v, ActualModelMismatch).None? && Check(v, ActualProviderUnattested).None?) <==>
      forall row :: row in v.rows && !Failed(row) ==> Served(v.policy, row)
  {
    hide Served, ModelMismatch, ProviderUnattested, OutsideFreeze, ExpectsProvider, Field;
    forall row ensures Served(v.policy, row) <==>
      && !ModelMismatch(v.policy, row) && !ProviderUnattested(v.policy, row)
      && !(ExpectsProvider(v.policy, row.arm, "openrouter") && Field(row, "route_metadata_status") != Some("verified"))
      && !((v.policy.candidateProviders != [] || v.policy.providersByArm != []) && OutsideFreeze(v.policy, row))
    {
      ServedIff(v.policy, row);
    }
  }

  predicate RowGatesQuiet(v: View) {
    && Check(v, ResponseMetadataIncomplete).None? && Check(v, ProviderRequestIdUnverified).None? && Check(v, RequestedRouteMismatch).None?
    && Check(v, RouteMetadataUnverified).None? && Check(v, ProviderRouteOutsideFreeze).None? && Check(v, ActualModelMismatch).None?
    && Check(v, ActualProviderUnattested).None?
  }

  lemma RowGatesIff(v: View)
    ensures RowGatesQuiet(v) <==> RowsSound(v.rows, v.policy)
  {
    hide Check, Routed, Documented, Served, Failed;
    DocumentedIff(v);
    RoutedIff(v);
    ServingIff(v);
  }

  lemma JudgeIff(v: View)
    ensures Check(v, JudgeValidation).None? <==> v.judge == Judge(true, true, true)
  {}

  // ----- counting -----

  lemma {:induction false} FailedRowsCount(rows: seq<Row>)
    ensures |FailedRows(rows)| == Operational(rows)
  {
    if rows == [] {
      assert FailedRows(rows) == {};
    } else {
      var front, last := rows[..|rows| - 1], |rows| - 1;
      FailedRowsCount(front);
      assert FailedRows(rows) == FailedRows(front) + if Failed(rows[last]) then {last} else {};
    }
  }

  /** The metrics one row lacks. */
  ghost function UnscoredIn(rows: seq<Row>, i: nat, metrics: seq<string>): set<(nat, nat)>
    requires i < |rows|
  {
    set j: nat | j < |metrics| && !ScoreOf(rows[i], metrics[j]).Finite? :: (i, j)
  }

  lemma {:induction false} UnscoredInCount(rows: seq<Row>, i: nat, metrics: seq<string>)
    requires i < |rows|
    ensures |UnscoredIn(rows, i, metrics)| == RowMissing(rows[i], metrics)
  {
    hide UnscoredIn, ScoreOf;
    if metrics == [] {
      NoMetricsUnscored(rows, i);
    } else {
      UnscoredInCount(rows, i, metrics[..|metrics| - 1]);
      UnscoredInOneMore(rows, i, metrics);
    }
  }

  lemma NoMetricsUnscored(rows: seq<Row>, i: nat)
    requires i < |rows|
    ensures UnscoredIn(rows, i, []) == {}
  {}

  lemma UnscoredInOneMore(rows: seq<Row>, i: nat, metrics: seq<string>)
    requires i < |rows| && metrics != []
    ensures var front, last := metrics[..|metrics| - 1], |metrics| - 1;
      && UnscoredIn(rows, i, metrics) == UnscoredIn(rows, i, front) + (if ScoreOf(rows[i], metrics[last]).Finite? then {} else {(i, last)})
      && (i, last) !in UnscoredIn(rows, i, front)
  {
    hide ScoreOf;
  }

  lemma {:induction false} UnscoredCount(rows: seq<Row>, metrics: seq<string>)
    ensures |Unscored(rows, metrics)| == Missing(rows, metrics)
  {
    hide Unscored, UnscoredIn, RowMissing, ScoreOf;
    if rows == [] {
      NoRowsUnscored(metrics);
    } else {
      UnscoredCount(rows[..|rows| - 1], metrics);
      UnscoredInCount(rows, |rows| - 1, metrics);
      UnscoredOneMore(rows, metrics);
    }
  }

  lemma NoRowsUnscored(metrics: seq<string>)
    ensures Unscored([], metrics) == {}
  {}

  lemma UnscoredOneMore(rows: seq<Row>, metrics: seq<string>)
    requires rows != []
    ensures var front, last := rows[..|rows| - 1], |rows| - 1;
      && Unscored(rows, metrics) == Unscored(front, metrics) + (if Failed(rows[last]) then {} else UnscoredIn(rows, last, metrics))
      && Unscored(front, metrics) !! UnscoredIn(rows, last, metrics)
  {
    hide ScoreOf;
  }

  lemma {:induction false} NoInvalidIn(row: Row, metrics: seq<string>)
    requires forall metric :: metric in metrics ==> !InvalidScore(row, metric)
    ensures RowInvalid(row, metrics) == 0
  {
    if metrics != [] {
      NoInvalidIn(row, metrics[..|metrics| - 1]);
    }
  }

  lemma {:induction false} NoInvalid(rows: seq<Row>, metrics: seq<string>)
    requires forall row, metric :: row in rows && !Failed(row) && metric in metrics ==> !InvalidScore(row, metric)
    ensures Invalid(rows, metrics) == 0
  {
    if rows != [] {
      NoInvalid(rows[..|rows| - 1], metrics);
      if !Failed(rows[|rows| - 1]) {
        NoInvalidIn(rows[|rows| - 1], metrics);
      }
    }
  }

  lemma InRangeIff(rows: seq<Row>, metrics: seq<string>)
    ensures Invalid(rows, metrics) == 0 <==> ScoresInRange(rows, metrics)
  {
    if Invalid(rows, metrics) == 0 {
      forall row, metric | row in rows && !Failed(row) && metric in metrics ensures !InvalidScore(row, metric) {
        NoneInvalid(rows, metrics, row, metric);
      }
    }
    if ScoresInRange(rows, metrics) {
      NoInvalid(rows, metrics);
    }
  }

  lemma RateWithin(count: nat, opportunities: nat, maxRate: real)
    requires opportunities == 0 ==> count == 0 && maxRate >= 0.0
    ensures Rate(count, opportunities) <= maxRate <==> count as real <= maxRate * opportunities as real
  {
    if opportunities > 0 {
      QuotientAtMost(count as real, opportunities as real, maxRate);
    }
  }

  lemma QuotientAtMost(x: real, n: real, limit: real)
    requires n > 0.0
    ensures x / n <= limit <==> x <= limit * n
  {
    var q := x / n;
    assert x == q * n;
    assert limit * n - x == (limit - q) * n;
  }

  lemma RatesIff(v: View)
    requires v.rows != [] && v.expectedRows == |v.rows| && v.operational == Operational(v.rows) && v.missing == Missing(v.rows, v.policy.metrics)
    ensures Check(v, OpportunityFailureRates).None? <==> FewFailures(v.rows, v.policy)
  {
    hide Rate, Operational, Missing, FailedRows, Unscored;
    var n, m := |v.rows|, |v.policy.metrics|;
    FailedRowsCount(v.rows);
    UnscoredCount(v.rows, v.policy.metrics);
    NothingUnscored(v.rows, v.policy.metrics);
    RateWithin(v.operational, n, v.policy.maxRate);
    assert RateReasons(v) == [] <==> Rate(v.operational, n) <= v.policy.maxRate && Rate(v.missing, n * m) <= v.policy.maxRate;
    if v.operational as real <= v.policy.maxRate * n as real {
      RateNotNegative(v.policy.maxRate, v.operational, n);
      NoProduct(n, m);
      RateWithin(v.missing, n * m, v.policy.maxRate);
    }
  }

  lemma NothingUnscored(rows: seq<Row>, metrics: seq<string>)
    ensures metrics == [] ==> Unscored(rows, metrics) == {}
  {}

  lemma RateNotNegative(rate: real, count: nat, n: nat)
    requires n > 0 && count as real <= rate * n as real
    ensures rate >= 0.0
  {}

  lemma NoProduct(n: nat, m: nat)
    requires n > 0
    ensures n * m == 0 <==> m == 0
  {}

  // ----- the comparison -----

  lemma {:induction false} DeltasOfSome(scores: map<(string, string, int), real>, base: string, candidate: string, cells: seq<(string, int)>, cell: (string, int))
    requires cell in cells && !BothScored(scores, base, candidate, cell)
    ensures |Deltas(scores, base, candidate, cells)| < |cells|
  {
    var front, last := cells[..|cells| - 1], cells[|cells| - 1];
    assert cells == front + [last];
    if cell in front {
      DeltasOfSome(scores, base, candidate, front, cell);
    }
  }

  lemma CompleteIff(rows: seq<Row>, p: Policy, metric: string)
    requires |p.arms| == 2
    ensures |PolicyDeltas(rows, p, metric)| == |Paired(Grid(p.caseIds, p.repeats), FailedCells(rows))| <==>
      forall cell :: PairedCell(rows, p, cell) ==>
        (exists x :: Scored(rows, metric, p.arms[0], cell, x)) && exists y :: Scored(rows, metric, p.arms[1], cell, y)
  {
    hide Deltas, Scores, Paired, Grid, FailedCells, Scored, PairedCell, BothScored;
    var scores, cells := Scores(rows, metric), Paired(Grid(p.caseIds, p.repeats), FailedCells(rows));
    forall cell ensures PairedCell(rows, p, cell) <==> cell in cells {
      PairedIff(rows, p, cell);
    }
    forall cell ensures BothScored(scores, p.arms[0], p.arms[1], cell) <==>
      (exists x :: Scored(rows, metric, p.arms[0], cell, x)) && exists y :: Scored(rows, metric, p.arms[1], cell, y)
    {
      BothIff(rows, metric, p.arms[0], p.arms[1], cell);
    }
    if forall cell :: cell in cells ==> BothScored(scores, p.arms[0], p.arms[1], cell) {
      DeltasOfAll(scores, p.arms[0], p.arms[1], cells);
    } else {
      var cell :| cell in cells && !BothScored(scores, p.arms[0], p.arms[1], cell);
      DeltasOfSome(scores, p.arms[0], p.arms[1], cells, cell);
    }
  }

  lemma BothIff(rows: seq<Row>, metric: string, base: string, candidate: string, cell: (string, int))
    ensures BothScored(Scores(rows, metric), base, candidate, cell) <==>
      (exists x :: Scored(rows, metric, base, cell, x)) && exists y :: Scored(rows, metric, candidate, cell, y)
  {
    hide Scores, Scored;
    ScoresAreOfRows(rows, metric, cell, base);
    ScoresAreOfRows(rows, metric, cell, candidate);
  }

  lemma ComparedIff(rows: seq<Row>, p: Policy, judge: Judge, bootstrap: seq<real> -> Bounds)
    requires rows != []
    ensures var v := ViewOf(rows, p, judge, bootstrap);
      !v.short && !v.inferior && !v.inconclusive <==> Compared(rows, p, bootstrap)
  {
    hide PolicyDeltas, Paired, Grid, FailedCells, Operational, Missing, Invalid, PairedCell, Scored;
    var v := ViewOf(rows, p, judge, bootstrap);
    if |p.arms| == 2 {
      forall metric | metric in p.metrics
        ensures metric in v.decisions
        ensures v.decisions[metric].n == v.pairedN && v.decisions[metric].quality.Noninferior? <==> ComparedOn(rows, p, bootstrap, metric)
        ensures v.decisions[metric].n <= v.pairedN
      {
        DecisionOf(rows, p, judge, bootstrap, metric);
        CompleteIff(rows, p, metric);
        AtMostPaired(rows, p, metric);
      }
      FlagsIff(v);
    }
  }

  lemma AtMostPaired(rows: seq<Row>, p: Policy, metric: string)
    requires |p.arms| == 2
    ensures |PolicyDeltas(rows, p, metric)| <= |Paired(Grid(p.caseIds, p.repeats), FailedCells(rows))|
  {}

  lemma FlagsIff(v: View)
    requires v.inferior == AnyQuality(v.decisions, Inferior) && v.inconclusive == AnyQuality(v.decisions, Inconclusive)
    requires v.short == AnyBelow(v.decisions, v.pairedN)
    ensures !v.short && !v.inferior && !v.inconclusive <==>
      forall m :: m in v.decisions ==> v.decisions[m].n >= v.pairedN && v.decisions[m].quality.Noninferior?
  {}

  // ----- all together -----

  /** The evidence passes exactly when it is sound: the rows are the whole matrix, of one context for
    * each case, on their routes, and where answered documented and served as frozen; judge validated;
    * scores in range; failures and missing scores within the rate; every metric compared on all paired
    * cells and within tolerance.
    */
  lemma PassIff(rows: seq<Row>, p: Policy, judge: Judge, bootstrap: seq<real> -> Bounds)
    ensures FirstFrom(ViewOf(rows, p, judge, bootstrap), 0).status.CandidateDev? <==> Sound(rows, p, judge, bootstrap)
  {
    hide ViewOf, FirstFrom, Check, Matrix, OneContext, RowGatesQuiet, RowsSound, ScoresInRange, FewFailures, Compared;
    var v := ViewOf(rows, p, judge, bootstrap);
    ViewIs(rows, p, judge, bootstrap);
    PassIffNoneFires(v);
    MatrixIff(v);
    ContextsIff(v);
    RowGatesIff(v);
    JudgeIff(v);
    InRangeIff(rows, p.metrics);
    LastGates(v);
    if Matrix(rows, p) {
      MatrixCounts(rows, p);
      RatesIff(v);
      ComparedIff(rows, p, judge, bootstrap);
    }
    GatesAreAll(v);
  }

  lemma MatrixCounts(rows: seq<Row>, p: Policy)
    requires Matrix(rows, p)
    ensures rows != [] && |rows| == ExpectedRows(p)
  {}

  lemma ViewIs(rows: seq<Row>, p: Policy, judge: Judge, bootstrap: seq<real> -> Bounds)
    ensures var v := ViewOf(rows, p, judge, bootstrap);
      && v.rows == rows && v.policy == p && v.judge == judge && v.expectedRows == ExpectedRows(p)
      && v.operational == Operational(rows) && v.missing == Missing(rows, p.metrics) && v.invalid == Invalid(rows, p.metrics)
  {}

  lemma LastGates(v: View)
    ensures Check(v, InvalidScoreValue).None? <==> v.invalid == 0
    ensures Check(v, InsufficientPairedCases).None? && Check(v, QualityRegression).None? && Check(v, QualityInconclusive).None? <==>
      !v.short && !v.inferior && !v.inconclusive
  {}

  /** No gate but the last fires: the seventeen named one by one. */
  lemma GatesAreAll(v: View)
    ensures (forall g :: g != Pass ==> Check(v, g).None?) <==>
      && Check(v, NoEvidence).None? && Check(v, IncompleteMatrix).None? && Check(v, MatrixIntegrity).None? && Check(v, ContextMismatch).None?
      && RowGatesQuiet(v) && Check(v, JudgeValidation).None? && Check(v, InvalidScoreValue).None? && Check(v, OpportunityFailureRates).None?
      && Check(v, InsufficientPairedCases).None? && Check(v, QualityRegression).None? && Check(v, QualityInconclusive).None?
  {
    hide Check;
  }

  // ----- a pass can happen -----

  function SampleRow(arm: string): Row {
    Row("c", arm, 0, "",
        map["context_hash" := "h", "requested_provider" := "azure", "requested_model" := "gpt", "actual_provider" := "azure",
            "actual_provider_source" := "provider_response", "actual_model" := "gpt", "actual_model_source" := "provider_response",
            "request_id" := "r", "request_id_source" := "provider", "finish_reason" := "stop", "latency_ms" := "1",
            "input_tokens" := "1", "output_tokens" := "1"],
        map["m" := Finite(1.0)], Response(false, "stop", false, 1, 8, None, None, None, None, None))
  }

  function SamplePolicy(): Policy {
    Policy(["c"], ["a", "b"], 1, ["m"], 0.02, 0.05, [], [], [], [("a", ["gpt"]), ("b", ["gpt"])])
  }

  function SampleRows(): seq<Row> { [SampleRow("a"), SampleRow("b")] }

  lemma SampleRowSound(arm: string)
    requires arm in ["a", "b"]
    ensures Routed(SamplePolicy(), SampleRow(arm)) && Documented(SampleRow(arm)) && Served(SamplePolicy(), SampleRow(arm))
  {
    var models := SamplePolicy().allowedModels;
    assert models[..1] == [("a", ["gpt"])];
    assert Lookup(models, arm) == Some(["gpt"]);
  }

  lemma SampleRowAnswered(arm: string)
    ensures !Failed(SampleRow(arm)) && HasContext(SampleRow(arm), "h") && CellOf(SampleRow(arm)) == ("c", arm, 0)
    ensures ScoreOf(SampleRow(arm), "m") == Finite(1.0)
  {}

  lemma SampleMatrix()
    ensures Matrix(SampleRows(), SamplePolicy())
  {
    assert CellOf(SampleRow("a")) == ("c", "a", 0) && CellOf(SampleRow("b")) == ("c", "b", 0);
    assert ExpectedCells(SamplePolicy()) == {("c", "a", 0), ("c", "b", 0)};
    assert CellOf(SampleRows()[0]) == ("c", "a", 0) && CellOf(SampleRows()[1]) == ("c", "b", 0);
  }

  lemma SampleCompared(bootstrap: seq<real> -> Bounds)
    requires forall deltas :: bootstrap(deltas).lo == 0.0
    ensures Compared(SampleRows(), SamplePolicy(), bootstrap)
  {
    hide PolicyDeltas, SampleRow, Failed, ScoreOf;
    var rows, p := SampleRows(), SamplePolicy();
    SampleRowAnswered("a");
    SampleRowAnswered("b");
    assert rows[0] == SampleRow("a") && rows[1] == SampleRow("b");
    forall cell | PairedCell(rows, p, cell) ensures Scored(rows, "m", "a", cell, 1.0) && Scored(rows, "m", "b", cell, 1.0) {
      assert cell == ("c", 0);
      assert SampleRow("a") in rows && SampleRow("b") in rows;
    }
    assert p.arms[0] == "a" && p.arms[1] == "b";
    forall metric | metric in p.metrics ensures ComparedOn(rows, p, bootstrap, metric) {
      assert metric == "m";
    }
  }

  lemma SampleFew()
    ensures FewFailures(SampleRows(), SamplePolicy()) && ScoresInRange(SampleRows(), SamplePolicy().metrics)
  {
    hide SampleRow, Failed, ScoreOf;
    var rows := SampleRows();
    SampleRowAnswered("a");
    SampleRowAnswered("b");
    assert rows[0] == SampleRow("a") && rows[1] == SampleRow("b");
    assert FailedRows(rows) == {};
    assert Unscored(rows, ["m"]) == {};
  }

  lemma SampleContext()
    ensures OneContext(SampleRows(), "c")
  {
    hide SampleRow, HasContext;
    SampleRowAnswered("a");
    SampleRowAnswered("b");
    assert SampleRows()[0].caseId == "c" && SampleRows()[0] in SampleRows();
    assert ContextIs(SampleRows(), "c", "h");
  }

  /** The theorem is about something: this evidence of two rows passes. */
  lemma SamplePasses()
    ensures FirstFrom(ViewOf(SampleRows(), SamplePolicy(), Judge(true, true, true), (_: seq<real>) => Bounds(0.0, 0.0)), 0).status.CandidateDev?
  {
    hide FirstFrom, ViewOf, Matrix, Routed, Documented, Served, OneContext, FewFailures, ScoresInRange, Compared, SampleRow;
    var bootstrap := (_: seq<real>) => Bounds(0.0, 0.0);
    SampleRowSound("a");
    SampleRowSound("b");
    SampleMatrix();
    SampleCompared(bootstrap);
    SampleFew();
    SampleContext();
    PassIff(SampleRows(), SamplePolicy(), Judge(true, true, true), bootstrap);
  }
}

/** The eighteen evidence gates, the verdict by lowest rank, what a pass guarantees, and the
  * operational budget that stops a run early.
  */
module EvidenceGates {
  import opened Basics
  import opened EvidenceView
  import O = Ordering

  datatype Status = Hold | Fail | CandidateDev

  datatype Verdict = Verdict(status: Status, reasons: seq<string>)

  datatype Gate =
    | NoEvidence | IncompleteMatrix | MatrixIntegrity | ContextMismatch | ResponseMetadataIncomplete
    | ProviderRequestIdUnverified | RequestedRouteMismatch | RouteMetadataUnverified | ProviderRouteOutsideFreeze
    | ActualModelMismatch | JudgeValidation | ActualProviderUnattested | InvalidScoreValue | OpportunityFailureRates
    | InsufficientPairedCases | QualityRegression | QualityInconclusive | Pass

  function GateAt(rank: nat): Gate
    requires rank < 18
  {
    match rank
    case 0 => NoEvidence case 1 => IncompleteMatrix case 2 => MatrixIntegrity case 3 => ContextMismatch
    case 4 => ResponseMetadataIncomplete case 5 => ProviderRequestIdUnverified case 6 => RequestedRouteMismatch
    case 7 => RouteMetadataUnverified case 8 => ProviderRouteOutsideFreeze case 9 => ActualModelMismatch
    case 10 => JudgeValidation case 11 => ActualProviderUnattested case 12 => InvalidScoreValue
    case 13 => OpportunityFailureRates case 14 => InsufficientPairedCases case 15 => QualityRegression
    case 16 => QualityInconclusive case 17 => Pass
  }

  function Rank(gate: Gate): (rank: nat)
    ensures rank < 18 && GateAt(rank) == gate
  {
    match gate
    case NoEvidence => 0 case IncompleteMatrix => 1 case MatrixIntegrity => 2 case ContextMismatch => 3
    case ResponseMetadataIncomplete => 4 case ProviderRequestIdUnverified => 5 case RequestedRouteMismatch => 6
    case RouteMetadataUnverified => 7 case ProviderRouteOutsideFreeze => 8 case ActualModelMismatch => 9
    case JudgeValidation => 10 case ActualProviderUnattested => 11 case InvalidScoreValue => 12
    case OpportunityFailureRates => 13 case InsufficientPairedCases => 14 case QualityRegression => 15
    case QualityInconclusive => 16 case Pass => 17
  }

  /** The gates in declaration order. */
  function DeclaredGates(): seq<Gate> {
    seq(18, r requires 0 <= r < 18 => GateAt(r))
  }

  // ----- reading rows and the policy -----

  function Field(row: Row, name: string): Option<string> {
    if name in row.fields then Some(row.fields[name]) else None
  }

  /** `dict(pairs).get(key)`: the last pair for a key counts. */
  function Lookup<V>(pairs: seq<(string, V)>, key: string): Option<V> {
    if pairs == [] then None
    else if pairs[|pairs| - 1].0 == key then Some(pairs[|pairs| - 1].1)
    else Lookup(pairs[..|pairs| - 1], key)
  }

  function Route(p: Policy, arm: string): Option<(string, string)> {
    RouteIn(p.routes, arm)
  }

  function RouteIn(routes: seq<(string, string, string)>, arm: string): Option<(string, string)> {
    if routes == [] then None
    else
      var last := routes[|routes| - 1];
      if last.0 == arm then Some((last.1, last.2)) else RouteIn(routes[..|routes| - 1], arm)
  }

  /** The last pair for the key counts, and only a key without one has no value. */
  lemma {:induction false} LookupIsLast<V>(pairs: seq<(string, V)>, key: string)
    ensures Lookup(pairs, key).None? <==> forall i :: 0 <= i < |pairs| ==> pairs[i].0 != key
    ensures forall i :: 0 <= i < |pairs| && pairs[i].0 == key && (forall j :: i < j < |pairs| ==> pairs[j].0 != key) ==>
      Lookup(pairs, key) == Some(pairs[i].1)
  {
    if pairs != [] {
      LookupIsLast(pairs[..|pairs| - 1], key);
    }
  }

  /** So with the frozen routes of an arm. */
  lemma {:induction false} RouteIsLast(routes: seq<(string, string, string)>, arm: string)
    ensures RouteIn(routes, arm).None? <==> forall i :: 0 <= i < |routes| ==> routes[i].0 != arm
    ensures forall i :: 0 <= i < |routes| && routes[i].0 == arm && (forall j :: i < j < |routes| ==> routes[j].0 != arm) ==>
      RouteIn(routes, arm) == Some((routes[i].1, routes[i].2))
  {
    if routes != [] {
      RouteIsLast(routes[..|routes| - 1], arm);
    }
  }

  predicate ExpectsProvider(p: Policy, arm: string, provider: string) {
    Route(p, arm).Some? && Route(p, arm).value.0 == provider
  }

  function OrEmpty<V>(o: Option<seq<V>>): seq<V> { if o.Some? then o.value else [] }

  type Cell = (string, string, int)

  function CellOf(row: Row): Cell { (row.caseId, row.arm, row.repeat) }

  function ExpectedCells(p: Policy): set<Cell> {
    set c, a, r | c in p.caseIds && a in p.arms && 0 <= r < p.repeats :: (c, a, r)
  }

  function ObservedCells(rows: seq<Row>): set<Cell> {
    set row | row in rows :: CellOf(row)
  }

  predicate DuplicateCell(rows: seq<Row>) {
    exists i, j :: 0 <= i < j < |rows| && CellOf(rows[i]) == CellOf(rows[j])
  }

  // ----- what each gate looks for -----

  /** `str(row.get("context_hash"))` */
  function ContextHash(row: Row): string {
    if Field(row, "context_hash").None? then "None" else Field(row, "context_hash").value
  }

  function Hashes(rows: seq<Row>, caseId: string): set<string> {
    set row | row in rows && row.caseId == caseId :: ContextHash(row)
  }

  predicate ContextBroken(rows: seq<Row>, caseId: string) {
    var hashes := Hashes(rows, caseId);
    |hashes| != 1 || "None" in hashes || "" in hashes
  }

  const REQUIRED_METADATA: seq<string> := [
    "requested_provider", "requested_model", "actual_provider", "actual_provider_source", "actual_model",
    "actual_model_source", "request_id", "request_id_source", "finish_reason", "latency_ms", "input_tokens", "output_tokens"]

  predicate MetadataMissing(row: Row) {
    exists name :: name in REQUIRED_METADATA && (Field(row, name).None? || Field(row, name).value == "")
  }

  predicate RouteMismatch(p: Policy, row: Row) {
    var route := Route(p, row.arm);
    route.Some? && !(Field(row, "requested_provider") == Some(route.value.0) && Field(row, "requested_model") == Some(route.value.1))
  }

  predicate OutsideFreeze(p: Policy, row: Row) {
    var own := OrEmpty(Lookup(p.providersByArm, row.arm));
    var approved := if own != [] then own else p.candidateProviders;
    ExpectsProvider(p, row.arm, "openrouter") && !(Field(row, "actual_provider").Some? && Field(row, "actual_provider").value in approved)
  }

  predicate ModelMismatch(p: Policy, row: Row) {
    var source, model := Field(row, "actual_model_source"), Field(row, "actual_model");
    || !(source == Some("route_metadata") || (source == Some("provider_response") && !ExpectsProvider(p, row.arm, "openrouter")))
    || !(model.Some? && model.value in OrEmpty(Lookup(p.allowedModels, row.arm)))
  }

  predicate ProviderUnattested(p: Policy, row: Row) {
    var source := Field(row, "actual_provider_source");
    || (ExpectsProvider(p, row.arm, "openrouter") && source != Some("route_metadata"))
    || (ExpectsProvider(p, row.arm, "azure") && source != Some("provider_response") && source != Some("azure_client_type_endpoint_and_deployment"))
  }

  function Rate(count: nat, opportunities: nat): real {
    if opportunities == 0 then 0.0 else count as real / opportunities as real
  }

  function HoldIf(broken: bool, reason: string): Option<Verdict> {
    if broken then Some(Verdict(Hold, [reason])) else None
  }

  function HoldFor(reasons: seq<string>): Option<Verdict> {
    if reasons == [] then None else Some(Verdict(Hold, reasons))
  }

  function ReasonIf(broken: bool, reason: string): seq<string> {
    if broken then [reason] else []
  }

  function MatrixReasons(v: View): seq<string> {
    ReasonIf(DuplicateCell(v.rows), "duplicate_matrix_cell")
    + ReasonIf(ExpectedCells(v.policy) - ObservedCells(v.rows) != {}, "missing_matrix_cell")
    + ReasonIf(ObservedCells(v.rows) - ExpectedCells(v.policy) != {}, "unexpected_matrix_cell")
  }

  function RateReasons(v: View): seq<string> {
    ReasonIf(Rate(v.operational, v.expectedRows) > v.policy.maxRate, "operational_failure_rate_exceeded")
    + ReasonIf(Rate(v.missing, v.expectedRows * |v.policy.metrics|) > v.policy.maxRate, "missing_score_rate_exceeded")
  }

  /** The gate's verdict, if it fires. Failed rows carry no metadata, routes or models to check. */
  function Check(v: View, gate: Gate): Option<Verdict> {
    var p := v.policy;
    match gate
    case NoEvidence => HoldIf(v.rows == [], "no_evidence")
    case IncompleteMatrix => HoldIf(|v.rows| != v.expectedRows, "incomplete_matrix")
    case MatrixIntegrity => HoldFor(MatrixReasons(v))
    case ContextMismatch => HoldIf(exists c :: c in p.caseIds && ContextBroken(v.rows, c), "context_mismatch")
    case ResponseMetadataIncomplete =>
      HoldIf(exists row :: row in v.rows && !Failed(row) && MetadataMissing(row), "response_metadata_incomplete")
    case ProviderRequestIdUnverified =>
      HoldIf(exists row :: row in v.rows && !Failed(row) && Field(row, "request_id_source") != Some("provider"), "provider_request_id_unverified")
    case RequestedRouteMismatch => HoldIf(exists row :: row in v.rows && RouteMismatch(p, row), "requested_route_mismatch")
    case RouteMetadataUnverified =>
      HoldIf(exists row :: row in v.rows && !Failed(row) && ExpectsProvider(p, row.arm, "openrouter") && Field(row, "route_metadata_status") != Some("verified"),
             "route_metadata_unverified")
    case ProviderRouteOutsideFreeze =>
      HoldIf((p.candidateProviders != [] || p.providersByArm != []) && exists row :: row in v.rows && !Failed(row) && OutsideFreeze(p, row),
             "provider_route_outside_freeze")
    case ActualModelMismatch => HoldIf(exists row :: row in v.rows && !Failed(row) && ModelMismatch(p, row), "actual_model_mismatch")
    case JudgeValidation =>
      HoldFor(ReasonIf(!v.judge.canaries, "judge_canary_failed") + ReasonIf(!v.judge.repeatability, "judge_repeatability_failed")
              + ReasonIf(!v.judge.callEvidence, "judge_call_evidence_failed"))
    case ActualProviderUnattested => HoldIf(exists row :: row in v.rows && !Failed(row) && ProviderUnattested(p, row), "actual_provider_unattested")
    case InvalidScoreValue => HoldIf(v.invalid > 0, "invalid_score_value")
    case OpportunityFailureRates => HoldFor(RateReasons(v))
    case InsufficientPairedCases => HoldIf(v.short, "insufficient_paired_cases")
    case QualityRegression => if v.inferior then Some(Verdict(Fail, ["quality_regression"])) else None
    case QualityInconclusive => HoldIf(v.inconclusive, "quality_inconclusive")
    case Pass => Some(Verdict(CandidateDev, []))
  }

  // ----- the verdict -----

  datatype Firing = Firing(rank: nat, verdict: Verdict)

  /** The firing gates with their ranks, in the order the gates were run. */
  function Fired(order: seq<Gate>, v: View): seq<Firing> {
    if order == [] then []
    else
      var gate := order[|order| - 1];
      Fired(order[..|order| - 1], v) + (if Check(v, gate).Some? then [Firing(Rank(gate), Check(v, gate).value)] else [])
  }

  /** Python's `min` by rank: the first of the smallest. */
  function Winner(fired: seq<Firing>): Firing
    requires fired != []
  {
    if |fired| == 1 then fired[0]
    else
      var best, last := Winner(fired[..|fired| - 1]), fired[|fired| - 1];
      if last.rank < best.rank then last else best
  }

  /** None where the source asserts that some gate fired. */
  function Evaluate(order: seq<Gate>, v: View): Option<Verdict> {
    var fired := Fired(order, v);
    if fired == [] then None else Some(Winner(fired).verdict)
  }

  /** The verdict the declaration order describes: the first gate, in that order, to fire. */
  function FirstFrom(v: View, rank: nat): Verdict
    requires rank <= 17
    decreases 17 - rank
  {
    var check := Check(v, GateAt(rank));
    if check.Some? then check.value else if rank == 17 then Verdict(CandidateDev, []) else FirstFrom(v, rank + 1)
  }

  function FirstRank(v: View, rank: nat): (r: nat)
    requires rank <= 17
    ensures rank <= r <= 17 && Check(v, GateAt(r)).Some? && FirstFrom(v, rank) == Check(v, GateAt(r)).value
    ensures forall k :: rank <= k < r ==> Check(v, GateAt(k)).None?
    decreases 17 - rank
  {
    if Check(v, GateAt(rank)).Some? then rank else FirstRank(v, rank + 1)
  }

  lemma {:induction false} FiredAre(order: seq<Gate>, v: View)
    ensures forall f :: f in Fired(order, v) ==> f.rank < 18 && GateAt(f.rank) in order && Check(v, GateAt(f.rank)) == Some(f.verdict)
    ensures forall g :: g in order && Check(v, g).Some? ==> Firing(Rank(g), Check(v, g).value) in Fired(order, v)
  {
    if order != [] {
      var front, last := order[..|order| - 1], order[|order| - 1];
      FiredAre(front, v);
      assert order == front + [last];
    }
  }

  lemma {:induction false} WinnerIsLeast(fired: seq<Firing>)
    requires fired != []
    ensures Winner(fired) in fired && forall f :: f in fired ==> Winner(fired).rank <= f.rank
  {
    if |fired| > 1 {
      var front, last := fired[..|fired| - 1], fired[|fired| - 1];
      WinnerIsLeast(front);
      assert fired == front + [last];
    }
  }

  /** Run in any order that includes every gate, the gates give the verdict of the first one to
    * fire in declaration order.
    */
  lemma OrderDoesNotMatter(order: seq<Gate>, v: View)
    requires forall g :: g in order
    ensures Evaluate(order, v) == Some(FirstFrom(v, 0))
  {
    hide Check, Fired, GateAt, Rank;
    FiredAre(order, v);
    var r := FirstRank(v, 0);
    var first := Firing(Rank(GateAt(r)), Check(v, GateAt(r)).value);
    assert GateAt(r) in order && first in Fired(order, v);
    RankInverts(r);
    WinnerIsLeast(Fired(order, v));
    var winner := Winner(Fired(order, v));
    assert winner.rank <= r && Check(v, GateAt(winner.rank)).Some?;
  }

  lemma RankInverts(r: nat)
    requires r < 18
    ensures Rank(GateAt(r)) == r
  {}

  lemma EveryGateDeclared()
    ensures forall g :: g in DeclaredGates()
  {
    hide GateAt, Rank;
    forall g ensures g in DeclaredGates() {
      assert DeclaredGates()[Rank(g)] == g;
    }
  }

  /** Shuffling the gates cannot change the verdict. */
  lemma PermutationsAgree(order: seq<Gate>, v: View)
    requires multiset(order) == multiset(DeclaredGates())
    ensures Evaluate(order, v) == Evaluate(DeclaredGates(), v) == Some(FirstFrom(v, 0))
  {
    hide Evaluate, DeclaredGates, FirstFrom;
    EveryGateDeclared();
    O.SameElements(order, DeclaredGates());
    OrderDoesNotMatter(order, v);
    OrderDoesNotMatter(DeclaredGates(), v);
  }

  lemma StatusOf(v: View, g: Gate)
    requires Check(v, g).Some?
    ensures Check(v, g).value.status == match g case Pass => CandidateDev case QualityRegression => Fail case _ => Hold
  {}

  /** The verdict is a pass exactly when no other gate fires; a gate before the quality ones makes
    * it a hold.
    */
  lemma PassIffNoneFires(v: View)
    ensures FirstFrom(v, 0).status.CandidateDev? <==> forall g :: g != Pass ==> Check(v, g).None?
    ensures forall g :: Rank(g) < 15 && Check(v, g).Some? ==> FirstFrom(v, 0).status.Hold?
  {
    hide Check, GateAt;
    var r := FirstRank(v, 0);
    var first := GateAt(r);
    RankInverts(r);
    StatusOf(v, first);
    forall g | g != Pass && first == Pass ensures Check(v, g).None? {
      assert Rank(g) < 17 && GateAt(Rank(g)) == g;
    }
    forall g | Rank(g) < 15 && Check(v, g).Some? ensures first != Pass && first != QualityRegression {
      assert GateAt(Rank(g)) == g;
    }
  }
}

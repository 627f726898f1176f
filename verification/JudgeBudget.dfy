/** The judge's running cost forecast: batches scored one after another until done or until the
  * forecast no longer fits the reservation.
  */
module JudgeBudget {
  import opened Basics

  /** One judge call's token usage. */
  datatype Call = Call(inputTokens: nat, outputTokens: nat)

  /** What scoring a batch gives: the scored rows, the calls it added to the session's capture, and
    * the call evidence it returned itself.
    */
  datatype Scored<Row> = Scored(rows: seq<Row>, captured: seq<Call>, returned: seq<Call>)

  /** USD per 1000 tokens. */
  datatype Prices = Prices(inputPer1k: real, outputPer1k: real)

  const EST_JUDGE_PER_SAMPLE_USD: real := 0.010
  const JUDGE_FORECAST_SAFETY_FACTOR: real := 1.10
  const BUDGET_EPSILON_USD: real := 0.000000001
  const CANARY_COUNT: nat := 6

  ghost predicate PricesValid(p: Prices) { p.inputPer1k >= 0.0 && p.outputPer1k >= 0.0 }

  function CallCost(p: Prices, call: Call): real {
    (call.inputTokens as real / 1000.0) * p.inputPer1k + (call.outputTokens as real / 1000.0) * p.outputPer1k
  }

  function Usage(p: Prices, calls: seq<Call>): real {
    if calls == [] then 0.0 else CallCost(p, calls[0]) + Usage(p, calls[1..])
  }

  function Max(x: real, y: real): real { if x >= y then x else y }

  function Cost(p: Prices, calls: seq<Call>, samples: nat): real {
    Max(Usage(p, calls), samples as real * EST_JUDGE_PER_SAMPLE_USD)
  }

  // ----- one pass, batch by batch -----

  /** A pass from batch number `n` on: rows scored, calls captured, evidence charged, money spent. */
  datatype Trace<Row> = Trace(rows: seq<Row>, captured: seq<Call>, charged: seq<Call>, spent: real)

  /** `rows[:size]` */
  function FirstBatch<Row>(rows: seq<Row>, size: nat): (batch: seq<Row>)
    requires size > 0
    ensures |batch| <= |rows| && (rows != [] ==> batch != [])
  {
    if |rows| <= size then rows else rows[..size]
  }

  /** A batch is charged for the calls it captured, or else for the evidence it returned. */
  function Charged<Row>(scored: Scored<Row>): seq<Call> {
    if scored.captured == [] && scored.returned != [] then scored.returned else scored.captured
  }

  function Run<Row>(p: Prices, score: (nat, seq<Row>) -> Scored<Row>, n: nat, rows: seq<Row>, size: nat): Trace<Row>
    requires size > 0
    decreases |rows|
  {
    if rows == [] then Trace([], [], [], 0.0)
    else
      var batch := FirstBatch(rows, size);
      var scored := score(n, batch);
      var rest := Run(p, score, n + 1, rows[|batch|..], size);
      Trace(scored.rows + rest.rows, scored.captured + rest.captured, Charged(scored) + rest.charged,
            Cost(p, Charged(scored), |batch|) + rest.spent)
  }

  /** The whole trace is the part so far followed by the rest. */
  predicate Joined<Row(==)>(whole: Trace<Row>, so: Trace<Row>, rest: Trace<Row>) {
    && whole.rows == so.rows + rest.rows && whole.captured == so.captured + rest.captured
    && whole.charged == so.charged + rest.charged && whole.spent == so.spent + rest.spent
  }

  /** Scoring the next batch moves it from the rest to the part so far. */
  lemma RunStep<Row>(
    p: Prices, score: (nat, seq<Row>) -> Scored<Row>, k: nat, rows: seq<Row>, size: nat, whole: Trace<Row>, so: Trace<Row>)
    requires size > 0 && rows != [] && Joined(whole, so, Run(p, score, k, rows, size))
    ensures var batch := FirstBatch(rows, size);
      var scored := score(k, batch);
      Joined(whole,
             Trace(so.rows + scored.rows, so.captured + scored.captured, so.charged + Charged(scored), so.spent + Cost(p, Charged(scored), |batch|)),
             Run(p, score, k + 1, rows[|batch|..], size))
  {}

  lemma JoinedAtStart<Row>(whole: Trace<Row>)
    ensures Joined(whole, Trace([], [], [], 0.0), whole)
  {}

  lemma JoinedAtEnd<Row>(whole: Trace<Row>, so: Trace<Row>)
    requires Joined(whole, so, Trace([], [], [], 0.0))
    ensures whole == so
  {}

  lemma RunOfNone<Row>(p: Prices, score: (nat, seq<Row>) -> Scored<Row>, k: nat, size: nat)
    requires size > 0
    ensures Run(p, score, k, [], size) == Trace([], [], [], 0.0)
  {}

  /** The evidence a pass reports: everything captured, or what was charged when nothing was. */
  function Evidence<Row>(t: Trace<Row>): seq<Call> {
    if t.captured != [] then t.captured else t.charged
  }

  /** The batches a pass is scored in. */
  function Batches<Row>(rows: seq<Row>, size: nat): seq<seq<Row>>
    requires size > 0
    decreases |rows|
  {
    if rows == [] then [] else [FirstBatch(rows, size)] + Batches(rows[|FirstBatch(rows, size)|..], size)
  }

  function Flatten<Row>(batches: seq<seq<Row>>): seq<Row> {
    if batches == [] then [] else batches[0] + Flatten(batches[1..])
  }

  /** The batches together are the input; all but the last are full, and none is empty. */
  lemma {:induction false} BatchesAreTheInput<Row>(rows: seq<Row>, size: nat)
    requires size > 0
    ensures Flatten(Batches(rows, size)) == rows
    ensures forall i :: 0 <= i < |Batches(rows, size)| ==> 0 < |Batches(rows, size)[i]| <= size
    ensures forall i :: 0 <= i < |Batches(rows, size)| - 1 ==> |Batches(rows, size)[i]| == size
    decreases |rows|
  {
    if rows != [] {
      var batch := FirstBatch(rows, size);
      var rest := rows[|batch|..];
      BatchesAreTheInput(rest, size);
      assert rows == batch + rest;
      assert Batches(rows, size)[1..] == Batches(rest, size);
    }
  }

  /** The rows that come back when the batches are scored one after another. */
  function ScoredRows<Row>(score: (nat, seq<Row>) -> Scored<Row>, n: nat, batches: seq<seq<Row>>): seq<Row>
    decreases |batches|
  {
    if batches == [] then [] else score(n, batches[0]).rows + ScoredRows(score, n + 1, batches[1..])
  }

  /** What a pass returns is the scores of the input's batches, in order. */
  lemma {:induction false} RunScoresBatches<Row>(p: Prices, score: (nat, seq<Row>) -> Scored<Row>, n: nat, rows: seq<Row>, size: nat)
    requires size > 0
    ensures Run(p, score, n, rows, size).rows == ScoredRows(score, n, Batches(rows, size))
    decreases |rows|
  {
    if rows != [] {
      var rest := rows[|FirstBatch(rows, size)|..];
      RunScoresBatches(p, score, n + 1, rest, size);
      assert Batches(rows, size)[1..] == Batches(rest, size);
    }
  }

  /** One batch taken off the front of what is left. */
  lemma BatchesStep<Row>(all: seq<seq<Row>>, so: seq<seq<Row>>, rows: seq<Row>, size: nat)
    requires size > 0 && rows != [] && all == so + Batches(rows, size)
    ensures all == so + [FirstBatch(rows, size)] + Batches(rows[|FirstBatch(rows, size)|..], size)
  {}

  lemma NoBatches<Row>(size: nat)
    requires size > 0
    ensures Batches<Row>([], size) == []
  {}

  lemma {:induction false} UsageConcat(p: Prices, a: seq<Call>, b: seq<Call>)
    ensures Usage(p, a + b) == Usage(p, a) + Usage(p, b)
  {
    if a == [] {
      assert a + b == b;
    } else {
      UsageConcat(p, a[1..], b);
      assert (a + b)[1..] == a[1..] + b;
    }
  }

  lemma {:induction false} UsageNotNegative(p: Prices, calls: seq<Call>)
    requires PricesValid(p)
    ensures Usage(p, calls) >= 0.0
  {
    if calls != [] {
      ProductNotNegative(calls[0].inputTokens as real / 1000.0, p.inputPer1k);
      ProductNotNegative(calls[0].outputTokens as real / 1000.0, p.outputPer1k);
      UsageNotNegative(p, calls[1..]);
    }
  }

  /** A thousand more tokens of one call cost what the prices say for their kind, whatever else was
    * called.
    */
  lemma {:induction false} TokensCost(p: Prices, calls: seq<Call>, i: nat, moreInput: nat, moreOutput: nat)
    requires i < |calls|
    ensures var more := Call(calls[i].inputTokens + 1000 * moreInput, calls[i].outputTokens + 1000 * moreOutput);
      Usage(p, calls[i := more]) == Usage(p, calls) + moreInput as real * p.inputPer1k + moreOutput as real * p.outputPer1k
  {
    var call := calls[i];
    var more := Call(call.inputTokens + 1000 * moreInput, call.outputTokens + 1000 * moreOutput);
    if i == 0 {
      Thousands(call.inputTokens, moreInput, p.inputPer1k);
      Thousands(call.outputTokens, moreOutput, p.outputPer1k);
      assert calls[0 := more][1..] == calls[1..];
    } else {
      TokensCost(p, calls[1..], i - 1, moreInput, moreOutput);
      assert calls[i := more][1..] == calls[1..][i - 1 := more];
    }
  }

  lemma Thousands(tokens: nat, more: nat, price: real)
    ensures ((tokens + 1000 * more) as real / 1000.0) * price == (tokens as real / 1000.0) * price + more as real * price
  {
    assert (tokens + 1000 * more) as real / 1000.0 == tokens as real / 1000.0 + more as real;
  }

  lemma ProductNotNegative(x: real, y: real)
    requires x >= 0.0 && y >= 0.0
    ensures x * y >= 0.0
  {}

  /** What the pass spends, a sum of per-batch maxima, covers both the usage it reports and the
    * reserve for its samples.
    */
  lemma {:induction false} SpentCovers<Row>(p: Prices, score: (nat, seq<Row>) -> Scored<Row>, n: nat, rows: seq<Row>, size: nat)
    requires size > 0 && PricesValid(p)
    ensures var t := Run(p, score, n, rows, size);
      && t.spent >= Usage(p, t.charged) >= Usage(p, t.captured) >= 0.0
      && t.spent >= |rows| as real * EST_JUDGE_PER_SAMPLE_USD
    decreases |rows|
  {
    if rows != [] {
      var batch := FirstBatch(rows, size);
      var scored := score(n, batch);
      var rest := Run(p, score, n + 1, rows[|batch|..], size);
      SpentCovers(p, score, n + 1, rows[|batch|..], size);
      UsageConcat(p, scored.captured, rest.captured);
      UsageConcat(p, Charged(scored), rest.charged);
      UsageNotNegative(p, Charged(scored));
      UsageNotNegative(p, scored.captured);
      assert Usage(p, Charged(scored)) >= Usage(p, scored.captured);
    }
  }

  /** It can be strictly more: a batch with nothing to score captures no call and returns the
    * session's earlier evidence, which is then charged a second time.
    */
  lemma SpentCanExceedReported()
    ensures var p := Prices(1.0, 0.0);
      var score := (n: nat, batch: seq<bool>) => Scored(batch, if n == 0 then [Call(1000, 0)] else [], [Call(1000, 0)]);
      var t := Run(p, score, 0, [true, false], 1);
      t.spent == 2.0 && Cost(p, Evidence(t), 2) == 1.0
  {
    var p := Prices(1.0, 0.0);
    var score := (n: nat, batch: seq<bool>) => Scored(batch, if n == 0 then [Call(1000, 0)] else [], [Call(1000, 0)]);
    var rows := [true, false];
    assert rows[1..] == [false] && rows[1..][1..] == [];
    var last := Run(p, score, 2, rows[1..][1..], 1);
    var second := Run(p, score, 1, rows[1..], 1);
    assert Usage(p, [Call(1000, 0)]) == 1.0 by { assert [Call(1000, 0)][1..] == []; }
    assert second.spent == 1.0 && second.captured == [];
  }

  // ----- the judge -----

  datatype Preflight = Preflight(canariesPassed: bool, callEvidencePassed: bool, cost: real)

  /** How a bounded pass ends. */
  datatype PassEnd<Row> = PassScored(rows: seq<Row>, evidence: seq<Call>) | PassExceeded(spent: real, forecast: real)

  datatype Report<Row> = Report(
    primary: seq<Row>, repeatability: seq<Row>, usage: real, incremental: real, campaign: real, accounted: real)

  datatype Outcome<Row> = Returned(report: Report<Row>) | PreflightFailed | BudgetExceeded(spent: real, forecast: real, reserved: real)

  /** The forecast after some samples: what was spent, and the rest at the dearer of the two rates. */
  function Forecast(spent: real, completed: nat, total: int, canaryCost: real): real
    requires completed > 0
  {
    var observed, canary := spent / completed as real, canaryCost / CANARY_COUNT as real;
    spent + Max(observed, canary) * (total - completed) as real * JUDGE_FORECAST_SAFETY_FACTOR
  }

  lemma ForecastAtLeastSpent(spent: real, completed: nat, total: int, canaryCost: real)
    requires 0 < completed <= total && canaryCost >= 0.0
    ensures Forecast(spent, completed, total, canaryCost) >= spent
    ensures completed == total ==> Forecast(spent, completed, total, canaryCost) == spent
  {
    var rate, remaining := Max(spent / completed as real, canaryCost / CANARY_COUNT as real), (total - completed) as real;
    ProductNotNegative(rate, remaining);
    ProductNotNegative(rate * remaining, JUDGE_FORECAST_SAFETY_FACTOR);
  }

  /** A forecast that fits leaves room: as long as each sample still to come costs no more than a tenth
    * above the average so far, or a tenth above that of the canaries, the whole run stays within what
    * is available.
    */
  lemma FittingForecastLeavesRoom(spent: real, completed: nat, total: int, canaryCost: real, perSample: real, limit: real)
    requires 0 < completed <= total && canaryCost >= 0.0
    requires Forecast(spent, completed, total, canaryCost) <= limit
    requires perSample <= 1.1 * (spent / completed as real) || perSample <= 1.1 * (canaryCost / CANARY_COUNT as real)
    ensures spent + perSample * (total - completed) as real <= limit
  {
    var dearer, rest := Max(spent / completed as real, canaryCost / CANARY_COUNT as real), (total - completed) as real;
    ProductNotNegative(1.1 * dearer - perSample, rest);
    assert dearer * rest * 1.1 - perSample * rest == (1.1 * dearer - perSample) * rest;
  }

  /** The check after each batch. A forecast that fits bounds what was already spent. */
  method ForecastFits(available: real, canaryCost: real, spent: real, completed: nat, total: int) returns (fits: bool, forecast: real)
    requires canaryCost >= 0.0 && 0 < completed <= total
    ensures forecast == Forecast(spent, completed, total, canaryCost)
    ensures fits <==> forecast <= available + BUDGET_EPSILON_USD
    ensures fits ==> spent <= available + BUDGET_EPSILON_USD
  {
    forecast := Forecast(spent, completed, total, canaryCost);
    fits := forecast <= available + BUDGET_EPSILON_USD;
    ForecastAtLeastSpent(spent, completed, total, canaryCost);
  }

  /** One bounded pass, under the budget, batch size and canary cost of the judge. `spent` and
    * `completed` are the totals of the whole main run so far.
    */
  method ScorePass<Row>(
    p: Prices, available: real, size: nat, canaryCost: real,
    score: (nat, seq<Row>) -> Scored<Row>, n: nat, rows: seq<Row>, total: int, spent: real, completed: nat)
    returns (end: PassEnd<Row>, spent': real, completed': nat, ghost batches: seq<seq<Row>>)
    requires size > 0 && canaryCost >= 0.0 && completed + |rows| <= total
    ensures batches <= Batches(rows, size)
    ensures end.PassScored? ==> batches == Batches(rows, size) && Flatten(batches) == rows && end.rows == ScoredRows(score, n, batches)
    ensures end.PassScored? ==>
      var t := Run(p, score, n, rows, size);
      && end == PassScored(t.rows, Evidence(t)) && spent' == spent + t.spent && completed' == completed + |rows|
      && (rows != [] ==> spent' <= available + BUDGET_EPSILON_USD)
    ensures end.PassExceeded? ==> end.spent == spent' && end.forecast > available + BUDGET_EPSILON_USD
  {
    hide Run, Forecast, Cost, Usage, Charged, Joined, FirstBatch, Batches, Flatten, ScoredRows;
    BatchesAreTheInput(rows, size);
    RunScoresBatches(p, score, n, rows, size);
    batches := [];
    ghost var whole := Run(p, score, n, rows, size);
    JoinedAtStart(whole);
    var scoredRows: seq<Row>, capture: seq<Call>, charged: seq<Call>, here := [], [], [], 0.0;
    var offset, k := 0, n;
    spent', completed' := spent, completed;
    assert rows[0..] == rows;
    while offset < |rows|
      invariant 0 <= offset <= |rows| && completed' == completed + offset && spent' == spent + here
      invariant Joined(whole, Trace(scoredRows, capture, charged, here), Run(p, score, k, rows[offset..], size))
      invariant offset > 0 ==> spent' <= available + BUDGET_EPSILON_USD
      invariant Batches(rows, size) == batches + Batches(rows[offset..], size)
    {
      var batch := FirstBatch(rows[offset..], size);
      var result := score(k, batch);
      BatchesStep(Batches(rows, size), batches, rows[offset..], size);
      batches := batches + [batch];
      RunStep(p, score, k, rows[offset..], size, whole, Trace(scoredRows, capture, charged, here));
      assert rows[offset..][|batch|..] == rows[offset + |batch|..];
      scoredRows, capture := scoredRows + result.rows, capture + result.captured;
      var cost := Cost(p, Charged(result), |batch|);
      charged := charged + Charged(result);
      spent', here := spent' + cost, here + cost;
      completed' := completed' + |batch|;
      var fits, forecast := ForecastFits(available, canaryCost, spent', completed', total);
      if !fits {
        return PassExceeded(spent', forecast), spent', completed', batches;
      }
      offset, k := offset + |batch|, k + 1;
    }
    RunOfNone(p, score, k, size);
    NoBatches<Row>(size);
    assert rows[offset..] == [];
    JoinedAtEnd(whole, Trace(scoredRows, capture, charged, here));
    end := PassScored(scoredRows, if capture != [] then capture else charged);
  }

  /** Over both passes the running spend covers the incremental cost that is reported. */
  lemma TwoPassesCover<Row>(p: Prices, score: (nat, seq<Row>) -> Scored<Row>, primary: seq<Row>, repeatability: seq<Row>, size: nat)
    requires size > 0 && PricesValid(p)
    ensures var a, b := Run(p, score, 0, primary, size), Run(p, score, |primary|, repeatability, size);
      a.spent + b.spent >= Cost(p, Evidence(a) + Evidence(b), |primary| + |repeatability|)
  {
    var a, b := Run(p, score, 0, primary, size), Run(p, score, |primary|, repeatability, size);
    SpentCovers(p, score, 0, primary, size);
    SpentCovers(p, score, |primary|, repeatability, size);
    UsageConcat(p, Evidence(a), Evidence(b));
  }

  /** Both passes under the budget: the forecast before any call, then one pass after the other. The
    * second end is the first's when that stopped.
    */
  method ScoreBounded<Row>(
    p: Prices, available: real, size: nat, canaryCost: real, score: (nat, seq<Row>) -> Scored<Row>, primary: seq<Row>, repeatability: seq<Row>)
    returns (first: PassEnd<Row>, second: PassEnd<Row>, spent: real)
    requires size > 0 && PricesValid(p) && available > 0.0 && canaryCost >= 0.0
    ensures first.PassExceeded? ==> second == first
    ensures second.PassExceeded? ==> second.forecast > available + BUDGET_EPSILON_USD
    ensures second.PassScored? ==>
      && first.PassScored?
      && first.rows == ScoredRows(score, 0, Batches(primary, size))
      && second.rows == ScoredRows(score, |primary|, Batches(repeatability, size))
      && Cost(p, first.evidence + second.evidence, |primary| + |repeatability|) <= spent <= available + BUDGET_EPSILON_USD
  {
    hide Batches, ScoredRows, Cost, Run, Evidence;
    var total := |primary| + |repeatability|;
    var initial := canaryCost / CANARY_COUNT as real * total as real * JUDGE_FORECAST_SAFETY_FACTOR;
    if initial > available + BUDGET_EPSILON_USD {
      return PassExceeded(0.0, initial), PassExceeded(0.0, initial), 0.0;
    }
    var completed;
    ghost var batches;
    first, spent, completed, batches := ScorePass(p, available, size, canaryCost, score, 0, primary, total, 0.0, 0);
    if first.PassExceeded? {
      return first, first, spent;
    }
    second, spent, completed, batches := ScorePass(p, available, size, canaryCost, score, |primary|, repeatability, total, spent, completed);
    if second.PassScored? {
      NoBatches<Row>(size);
      NothingSpent(p, score, |primary|, size);
      NothingSpent(p, score, 0, size);
      TwoPassesCover(p, score, primary, repeatability, size);
    }
  }

  lemma NothingSpent<Row>(p: Prices, score: (nat, seq<Row>) -> Scored<Row>, n: nat, size: nat)
    requires size > 0
    ensures Run(p, score, n, [], size).spent == 0.0
  {}

  class LunaRagasJudge<Row> {
    const prices: Prices
    var preflight: Option<Preflight>
    var canaryEvidence: seq<Call>
    var availableBudget: Option<real>
    var batchSize: Option<nat>
    var accountedExternally: bool

    ghost predicate Valid()
      reads this
    {
      && PricesValid(prices)
      && (availableBudget.Some? <==> batchSize.Some?)
      && (availableBudget.Some? ==> availableBudget.value > 0.0)
      && (batchSize.Some? ==> batchSize.value > 0)
      && (preflight.Some? ==> preflight.value.cost == Cost(prices, canaryEvidence, CANARY_COUNT) >= 0.06)
      && (accountedExternally ==> preflight.Some?)
    }

    constructor (prices: Prices)
      requires PricesValid(prices)
      ensures Valid() && this.prices == prices && preflight.None? && availableBudget.None? && !accountedExternally
    {
      this.prices := prices;
      preflight, canaryEvidence, availableBudget, batchSize, accountedExternally := None, [], None, None, false;
    }

    method ResetForAttempt()
      requires Valid()
      modifies this
      ensures Valid() && preflight.None? && availableBudget.None? && batchSize.None? && !accountedExternally
    {
      preflight, canaryEvidence, availableBudget, batchSize, accountedExternally := None, [], None, None, false;
    }

    /** False where the source raises. */
    method MarkPreflightCostAccounted() returns (ok: bool)
      requires Valid()
      modifies this`accountedExternally
      ensures Valid() && (ok <==> preflight.Some?)
      ensures accountedExternally == (old(accountedExternally) || ok)
    {
      if preflight.None? {
        return false;
      }
      accountedExternally := true;
      return true;
    }

    method ConfigureBudget(available: real, size: int) returns (ok: bool)
      requires Valid()
      modifies this`availableBudget, this`batchSize
      ensures Valid() && (ok <==> available > 0.0 && size >= 1)
      ensures if ok then availableBudget == Some(available) && batchSize == Some(size)
              else availableBudget == old(availableBudget) && batchSize == old(batchSize)
    {
      if available <= 0.0 || size < 1 {
        return false;
      }
      availableBudget, batchSize := Some(available), Some(size);
      return true;
    }

    /** Runs the canaries once; later calls get the cached result. */
    method RunPreflight(canary: Scored<Row>, canariesPassed: bool, callEvidencePassed: bool) returns (r: Preflight)
      requires Valid()
      modifies this`preflight, this`canaryEvidence
      ensures Valid() && preflight == Some(r)
      ensures old(preflight).Some? ==> r == old(preflight).value && canaryEvidence == old(canaryEvidence)
      ensures old(preflight).None? ==> r == Preflight(canariesPassed, callEvidencePassed, Cost(prices, canary.returned, CANARY_COUNT))
    {
      if preflight.Some? {
        return preflight.value;
      }
      r := Preflight(canariesPassed, callEvidencePassed, Cost(prices, canary.returned, CANARY_COUNT));
      preflight, canaryEvidence := Some(r), canary.returned;
    }

    /** Runs the preflight unless it has run, then scores both passes. `primary` and `repeatability`
      * are the rows, and the rows of the repeated cases, in their blinded orders.
      */
    method Judge(
      canary: Scored<Row>, canariesPassed: bool, callEvidencePassed: bool,
      score: (nat, seq<Row>) -> Scored<Row>, primary: seq<Row>, repeatability: seq<Row>)
      returns (outcome: Outcome<Row>, ghost spent: real)
      requires Valid()
      modifies this`preflight, this`canaryEvidence
      ensures Valid() && preflight.Some?
      ensures preflight == if old(preflight).Some? then old(preflight)
                           else Some(Preflight(canariesPassed, callEvidencePassed, Cost(prices, canary.returned, CANARY_COUNT)))
      ensures outcome.PreflightFailed? <==> !(preflight.value.canariesPassed && preflight.value.callEvidencePassed)
      ensures outcome.Returned? ==> ReportSound(outcome.report, |primary| + |repeatability|)
      ensures outcome.Returned? && availableBudget.Some? ==>
        outcome.report.incremental <= spent <= availableBudget.value + BUDGET_EPSILON_USD
      ensures outcome.Returned? && batchSize.Some? ==>
        && outcome.report.primary == ScoredRows(score, 0, Batches(primary, batchSize.value))
        && outcome.report.repeatability == ScoredRows(score, |primary|, Batches(repeatability, batchSize.value))
      ensures outcome.Returned? && batchSize.None? ==>
        outcome.report.primary == score(0, primary).rows && outcome.report.repeatability == score(1, repeatability).rows
      ensures outcome.BudgetExceeded? ==>
        availableBudget.Some? && outcome.reserved == availableBudget.value && outcome.forecast > outcome.reserved + BUDGET_EPSILON_USD
    {
      hide Batches, ScoredRows, Usage;
      spent := 0.0;
      var checks := RunPreflight(canary, canariesPassed, callEvidencePassed);
      if !(checks.canariesPassed && checks.callEvidencePassed) {
        return PreflightFailed, spent;
      }
      var total := |primary| + |repeatability|;
      var first: PassEnd<Row>, second: PassEnd<Row>;
      if availableBudget.Some? {
        var s;
        first, second, s := ScoreBounded(prices, availableBudget.value, batchSize.value, checks.cost, score, primary, repeatability);
        if second.PassExceeded? {
          return BudgetExceeded(second.spent, second.forecast, availableBudget.value), s;
        }
        spent := s;
      } else {
        var a, b := score(0, primary), score(1, repeatability);
        first, second := PassScored(a.rows, a.returned), PassScored(b.rows, b.returned);
      }
      var usage := Usage(prices, first.evidence + second.evidence);
      var incremental := Max(usage, total as real * EST_JUDGE_PER_SAMPLE_USD);
      var campaign := preflight.value.cost + incremental;
      outcome := Returned(Report(first.rows, second.rows, usage, incremental, campaign, if accountedExternally then incremental else campaign));
    }

    /** How the reported costs hang together: the preflight is counted once, here or by the caller. */
    ghost predicate ReportSound(r: Report<Row>, samples: nat)
      requires preflight.Some?
      reads this
    {
      && r.incremental >= r.usage && r.incremental >= samples as real * EST_JUDGE_PER_SAMPLE_USD
      && (r.incremental == r.usage || r.incremental == samples as real * EST_JUDGE_PER_SAMPLE_USD)
      && r.campaign == preflight.value.cost + r.incremental
      && r.accounted + (if accountedExternally then preflight.value.cost else 0.0) == r.campaign
    }
  }
}

/** Which answers count as operational failures, and what reasoning-token evidence that arrives
  * after the answer can and cannot change about it.
  */
module AnswerFailures {
  import opened Basics

  /** What the classifier reads of an answer row. `finishReason` is case-folded; the three counts of
    * reasoning tokens are None where they are absent or not a number.
    */
  datatype Response = Response(
    error: bool, finishReason: string, blank: bool, outputTokens: int, maxOutputTokens: int,
    native: Option<int>, evidence: Option<int>, azure: Option<int>,
    attestedCap: Option<int>, harnessCap: Option<int>)

  const STARVATION := "reasoning_budget_starvation"

  predicate Positive(count: Option<int>) { count.Some? && count.value > 0 }

  /** The first positive count, else whatever Azure reported. */
  function ReasoningTokens(r: Response): Option<int> {
    if Positive(r.native) then r.native
    else if Positive(r.evidence) then r.evidence
    else r.azure
  }

  predicate LengthStop(r: Response) {
    r.finishReason in {"length", "max_tokens"} || (r.maxOutputTokens > 0 && r.outputTokens >= r.maxOutputTokens)
  }

  /** The label of an answer; empty for a usable one. */
  function Classify(r: Response): string {
    if r.error then "provider_error"
    else if LengthStop(r) then
      if r.blank && Positive(ReasoningTokens(r)) then STARVATION
      else if r.attestedCap == Some(r.maxOutputTokens) then "provider_output_cap"
      else if r.harnessCap == Some(r.maxOutputTokens) then "harness_output_cap"
      else if r.maxOutputTokens > 0 && 0 < r.outputTokens < r.maxOutputTokens then "provider_output_cap"
      else "harness_output_cap"
    else if r.blank then
      if Positive(ReasoningTokens(r)) || r.outputTokens > 0 then STARVATION else "empty_answer"
    else ""
  }

  /** Route metadata that arrives later replaces the native count, and nothing else read here. */
  function Enriched(r: Response, native: Option<int>): Response {
    r.(native := native)
  }

  /** An answer fails on an error, when it is blank, and when it was cut off: by its finish reason, or
    * by having used up a positive limit.
    */
  lemma FailsIff(r: Response)
    ensures Classify(r) != "" <==>
      r.error || r.blank || r.finishReason in {"length", "max_tokens"} || 0 < r.maxOutputTokens <= r.outputTokens
  {}

  /** Starvation: a blank answer for which tokens were spent on reasoning, or on any output short of
    * the limit.
    */
  lemma StarvedIff(r: Response)
    ensures Classify(r) == STARVATION <==>
      && !r.error && r.blank
      && (Positive(r.native) || Positive(r.evidence) || Positive(r.azure) || (r.outputTokens > 0 && !LengthStop(r)))
  {}

  /** Later evidence neither clears a failure nor makes one. It changes the label exactly when the
    * new count alone decides whether a blank answer was starved, and then to or from starvation.
    */
  lemma EvidenceOnlyRelabels(r: Response, native: Option<int>)
    ensures Classify(Enriched(r, native)) != "" <==> Classify(r) != ""
    ensures Classify(Enriched(r, native)) != Classify(r) <==>
      && !r.error && r.blank && Positive(native) != Positive(r.native)
      && !Positive(r.evidence) && !Positive(r.azure) && !(r.outputTokens > 0 && !LengthStop(r))
    ensures Classify(Enriched(r, native)) != Classify(r) ==>
      (Classify(Enriched(r, native)) == STARVATION <==> Positive(native)) && (Classify(r) == STARVATION <==> Positive(r.native))
  {}

  /** The other labels: an error before all else; a blank answer that cost nothing is empty; and an
    * answer that was cut off, and not starved, is put down to the provider when its limit is the
    * attested one, or neither cap and it stopped short of it, and to the harness otherwise.
    */
  lemma OtherLabels(r: Response)
    ensures Classify(r) == "provider_error" <==> r.error
    ensures Classify(r) == "empty_answer" <==> Classify(r) != "" && Classify(r) != STARVATION && !r.error && !LengthStop(r)
    ensures Classify(r) == "provider_output_cap" || Classify(r) == "harness_output_cap" <==>
      LengthStop(r) && !r.error && Classify(r) != STARVATION
    ensures LengthStop(r) && !r.error && Classify(r) != STARVATION && r.attestedCap == Some(r.maxOutputTokens) ==>
      Classify(r) == "provider_output_cap"
    ensures LengthStop(r) && !r.error && Classify(r) != STARVATION && r.attestedCap != Some(r.maxOutputTokens) ==>
      (Classify(r) == "provider_output_cap" <==> r.harnessCap != Some(r.maxOutputTokens) && 0 < r.outputTokens < r.maxOutputTokens)
  {}
}

# Verified models of the assistant's core algorithms

A Dafny 4.11 model of the parts of the repository where order, concurrency or arithmetic is easy to
get wrong, with proofs over every input, every interleaving or every run. `dafny verify dfyconfig.toml`
checks all of it.

| files | what they model |
|---|---|
| `Ordering`, `Graphs`, `CycleSearch`, `CycleFinder`, `CycleBaseline` | the import-cycle gate: the iterative Tarjan search with its frame stack, and the comparison of its sorted output with a stored baseline |
| `OptimisticStore` | the store's WATCH / GET / MULTI / EXEC loops with bounded retry, for any number of interleaved calls on one key and any decision taken on the value read |
| `Continuations`, `ContinuationProtocol` | the pending continuation as that decision, and its safety over whole runs |
| `HistoryPolicy`, `Transcripts` | the storage and prompt bounds, and append / regenerate as that decision |
| `InMemoryStore` | `InMemoryConversationStore`, updated in place, against the same decisions |
| `DurableHistory` | memory rebuilt from query records, against the live store over the same log |
| `ProcessResources` | slot construction and shutdown, for any number of acquiring and closing threads |
| `Journaling`, `CaseRepeats`, `CaseRepeatSinks` | the lease-fenced journal: its operations, every run of them, and the in-memory and Postgres sinks that implement them |
| `McNemar`, `RunStats` | the exact p-value, the percentile bootstrap, family means and the verdict |
| `AnswerFailures`, `EvidenceView`, `EvidenceGates` | which answers count as failures, the facts computed from answer rows, and the eighteen gates |
| `EvidenceQuality`, `EvidencePass`, `EvidenceGuarantees` | how the scores of the two arms settle quality and verdict, exactly which evidence passes, and the early stop |
| `JudgeBudget` | the judge's batches and running cost forecast |
| `FollowupFocus` | candidates, and the recursive resolution of an explanation to the answers it rests on |
| `BoundedExecutor` | permits through submission, completion, cancellation, failure and shutdown |
| `RecordPartition` | splitting an answer's rows into records and aggregates, and when the envelope calls itself complete |
| `Basics` | definitions the other modules share |

How the model is cut:

- A concurrent object is a state machine whose steps are the actions between which another thread,
  client or transaction can run. A run is any sequence of such steps from an initial state.
- Redis keys carry a version that every write raises, and EXEC succeeds only while the version is the
  one WATCH saw. A command may fail, and a reply to a successful EXEC may be lost.
- Code that loops or updates fields is a method or a class; it is proved equal to a function on
  values, and the theorems are about that function.
- Clocks, hashes, text rules, the generator's draws, the judge's answers and the sort by hash are
  parameters, so the results hold for each choice of them. Floats are reals.

What the code turned out to do, where that is not what one might read into it:

- Completion and failure of a continuation are fenced on the execution that created it. A different execution that
  holds the claim cannot complete it (`Continuations.ClaimantAloneCannotComplete`).
- In the pending-continuation methods the clause for Redis errors comes before the one for a lost
  race, of which a lost race is a special case; so a lost race may be reported as unavailable instead
  of being retried. The run theorems allow both.
- The two conversation stores treat an expired thread differently; `InMemoryStore.StoresAgreeIff` says
  exactly when they agree.
- A regenerate that stores only a question turn, on a thread at its bound, leaves the thread one or
  two turns shorter than trimming the whole transcript would
  (`HistoryPolicy.TrimThenReplace`, `Transcripts.BlankRegenerateLosesATurn`).
- A question asked on a page is stored under that page's context mode, and the service's regenerate
  carries none, so the store refuses it: such a question cannot be regenerated
  (`DurableHistory.PageQuestionCannotBeRegenerated`).
- Native token counts that arrive after an answer can change its failure label, also away from
  starvation when the count is missing, but never whether it failed (`AnswerFailures.EvidenceOnlyRelabels`).
- A focus can resolve to more positions than its own validation admits, from nine explained answers
  on, even when no explanation names more than two exchanges (`FollowupFocus.LongExplanationsFail`).
  It takes explanations of explanations, which the resolution follows; the service writes the ids of
  candidates only, at most eight.
- The two case-repeat sinks differ on a start that reuses an identity under a new key and id, and
  after an empty id; starts made by the lifecycle never do either (`CaseRepeats.StartsAgreeIff`).
- A judge batch in which every row had failed captures no call and returns the session's earlier
  evidence, which is then charged again; the running spend may exceed what is reported
  (`JudgeBudget.SpentCanExceedReported`), never the reverse.
- All permits of the executor are back once every future is done and its callbacks have run; done
  alone is not enough (`BoundedExecutor.AllPermitsReturn`).
- With an arm list that is not a pair, no metric is compared at all; the quality guarantees are stated
  for two arms, which is what the policy's type says.

## Model

| member | source | states |
|---|---|---|
| CycleFinder.FindCycles | app/architecture/dependency_direction.py:242-290 | for every finite graph, neighbours that are not keys included, the search ends and lists exactly the strongly connected components of two nodes or more, each sorted, in order of first node; the sequences of nodes pushed and of nodes popped each list every node once |
| CycleFinder.Explore | app/architecture/dependency_direction.py:253-289 | one start's frame loop ends with no frame open, everything reached from the start finished and its components reported, no node pushed or popped twice |
| CycleFinder.NextNeighbour | app/architecture/dependency_direction.py:270-289 | the iterator's next neighbour is pushed, lowers the low link if stacked, or is skipped; the search invariant and the termination measure go on |
| CycleFinder.PopComponent | app/architecture/dependency_direction.py:274-281 | popping down to the node takes exactly the top of the stack, in order, off both stack and on-stack set |
| CycleFinder.TakeComponent | app/architecture/dependency_direction.py:273-283 | when low link and index meet, what is popped is reported if it has two nodes or more, and the invariant holds without it |
| CycleFinder.FinishTop | app/architecture/dependency_direction.py:270-286 | an exhausted frame is closed, its component taken if it is a root, its low link handed to the parent |
| CycleSearch.TakenIsComponent | app/architecture/dependency_direction.py:273-281 | the part of the stack above a root is one whole strongly connected component: members mutually reachable, none missed |
| CycleSearch.EnterKeeps | app/architecture/dependency_direction.py:262-269 | numbering and stacking a new node keeps the search invariant |
| CycleSearch.YieldNewKeeps | app/architecture/dependency_direction.py:286-287 | meeting an unnumbered neighbour keeps it |
| CycleSearch.YieldStackedKeeps | app/architecture/dependency_direction.py:288-289 | meeting a stacked neighbour, with the low link lowered to its index, keeps it |
| CycleSearch.YieldKnownKeeps | app/architecture/dependency_direction.py:286-289 | meeting a neighbour of a finished component keeps it |
| CycleSearch.FinishLowKeeps | app/architecture/dependency_direction.py:272-286 | closing a frame that is no root, with its low link handed up, keeps it |
| CycleSearch.TakeKeeps | app/architecture/dependency_direction.py:273-286 | taking a component off keeps it |
| CycleSearch.NoOpenNoStack | app/architecture/dependency_direction.py:258-285 | with no frame open the stack is empty: no component is left unreported |
| Graphs.ComponentsDisjoint | app/architecture/dependency_direction.py:242-243 | two strongly connected components that share a node are the same |
| CycleBaseline.CyclesAreCanonical | app/architecture/dependency_direction.py:256-290 | two graphs with the same components of two nodes or more give the same list |
| CycleBaseline.CyclesDependOnEdgesOnly | app/architecture/dependency_direction.py:244-290 | the list depends only on the edge relation, not on keys without edges or on visiting order |
| CycleBaseline.EqualListsSameComponents | app/architecture/dependency_direction.py:290 | equal lists mean equal components |
| CycleBaseline.CompareCycles | app/architecture/dependency_direction.py:298-305 | the new and the stale cycles, each exactly the set difference, in tuple order |
| CycleBaseline.GatePassesIffComponentsUnchanged | app/architecture/dependency_direction.py:298-305 | against a baseline the search made, both lists are empty if and only if the components are unchanged |
| CycleBaseline.CheckCycles | app/architecture/dependency_direction.py:298-305 | against any stored list, added are the graph's cycles not stored, stale the stored ones that are no cycles of it |
| OptimisticStore.StepRefines | app/conversation/transcript_store.py:567-591 | each step of the WATCH / GET / EXEC loop is an atomic operation on the value, or nothing |
| OptimisticStore.RunRefines | app/conversation/transcript_store.py:567-591 | neighbouring states of every run are related by the atomic machine, whatever the interleaving |
| OptimisticStore.RunInvariant | app/conversation/transcript_store.py:567-591 | a call that can still write has read the stored value, and no call is past its last attempt |
| OptimisticStore.ToldTookEffect | app/conversation/transcript_store.py:567-591 | what a call was told took effect, exactly once |
| OptimisticStore.MachineInvariantHolds | app/conversation/transcript_store.py:567-591 | a property every atomic operation keeps holds in every state of every optimistic run |
| Continuations.LeaseHeldUntil | app/conversation/transcript_store.py:769-792 | after a claim, a later one fails the record exactly when its clock has passed the first by more than the lease; until then key and execution decide what it is told |
| Continuations.RetryHearsOutcome | app/conversation/transcript_store.py:769-843 | created, claimed and completed by its creator: a later claim hears the outcome exactly when it brings the winning key, and changes nothing |
| Continuations.StepKeepsInv | app/conversation/transcript_store.py:742-892 | every atomic operation keeps the log and the record explaining each other: claim and ending once each, replies true of the record |
| ContinuationProtocol.RunContinuationInv | app/conversation/transcript_store.py:742-892 | that holds in every state of every interleaving |
| ContinuationProtocol.AtMostOneClaimed | app/conversation/transcript_store.py:769-778 | at most one call is ever told "claimed" |
| ContinuationProtocol.CompletedRepliesFaithful | app/conversation/transcript_store.py:793-796 | "completed" carries the one stored outcome and goes only to the winning idempotency key |
| ContinuationProtocol.AnswersOnlyItsOwner | app/conversation/transcript_store.py:748-766 | over every run, a claim told anything but "rejected" came from the record's principal, on its thread, and before the record expired |
| ContinuationProtocol.TerminalAbsorbing | app/conversation/transcript_store.py:797-799 | a completed or failed record never changes again |
| ContinuationProtocol.LeaseExpiryIsFinal | app/conversation/transcript_store.py:779-787 | after a claim found the lease expired, no completion takes effect, then or ever, and nobody is told "completed" |
| ContinuationProtocol.CompletedByCreator | app/conversation/transcript_store.py:827-843 | a completed record was completed once, by its creator, with the outcome, query id and digest it stores |
| ContinuationProtocol.FailsOnlyByCreator | app/conversation/transcript_store.py:854-882 | over every run, a failure that took effect came from the execution that created the record |
| ContinuationProtocol.FailureExplained | app/conversation/transcript_store.py:779-882 | a failed record was ended once: by its creator's failure, whose detail it holds, or as "lease_expired" by a claim whose clock had passed that of the one claim by more than the lease |
| ContinuationProtocol.RunFollows | app/conversation/transcript_store.py:742-892 | creator, owner, thread and expiry of a record never change |
| HistoryPolicy.Trim | app/conversation/policy.py:36-37 | a suffix, within the bound, everything when the bound is not positive or not reached |
| HistoryPolicy.TrimThenAppend | app/conversation/transcript_store.py:580 | trimming before an append loses nothing trimming after it would keep |
| HistoryPolicy.TrimThenReplace | app/conversation/transcript_store.py:617 | for replacing the last pair, the same exactly when the replacement is a pair or nothing had been trimmed |
| HistoryPolicy.TrimKeepsLastPair | app/conversation/transcript_store.py:617 | the last pair survives trimming and can be replaced before or after it |
| HistoryPolicy.TrimSuffix | app/conversation/policy.py:36-37 | trimming a suffix gives a suffix of trimming the whole |
| HistoryPolicy.CapForPrompt | app/conversation/policy.py:27-34 | keeps the longest suffix whose text fits, everything when there is no cap |
| Transcripts.NoLostUpdates | app/conversation/transcript_store.py:557-628 | after any interleaving of appends and whole-pair regenerates the stored turns are the last N of everything that took effect, in commit order |
| Transcripts.AppendsNeverLost | app/conversation/transcript_store.py:557-591 | appends alone, on an unexpired thread: the last N of all appended turns, and an acknowledged append is among them once |
| Transcripts.OwnerStays | app/conversation/transcript_store.py:518-534 | over every run a stored thread keeps its owner and entity, also when it is started anew after expiring |
| Transcripts.RestartedIffOutlived | app/conversation/transcript_store.py:572-583 | over every run an append began the thread anew exactly when there was none, or its clock had passed the stored one's beginning by more than the absolute time to live |
| Transcripts.ReplaceHitsTarget | app/conversation/transcript_store.py:127-149 | a regenerate is taken exactly on the owner's thread ending in the two turns of its target, with the expected question and mode, and takes their place; otherwise it is told ownership or conflict |
| Transcripts.AppendRefusedIff | app/conversation/transcript_store.py:572-583 | an append is refused exactly on another's thread, and otherwise its turns are the newest |
| Transcripts.WriteTracksTranscript | app/conversation/transcript_store.py:572-621 | one write on the trimmed transcript is the trimmed form of the write on the whole one |
| Transcripts.BlankRegenerateLosesATurn | app/conversation/transcript_store.py:617 | for every bound, a regenerate of one turn that the store takes on a trimmed thread loses the oldest turn the bound had room for |
| InMemoryStore.StoresAgreeIff | app/conversation/transcript_store.py:254-308 | the two stores agree on a write exactly when the thread is missing or unexpired, or the owner appends |
| InMemoryStore.OutlivedIsMissing | app/conversation/transcript_store.py:254-308 | in memory a thread that outlived its time is as good as missing |
| InMemoryStore.InMemoryConversationStore.CheckOwner | app/conversation/transcript_store.py:254-264 | drops an expired thread, refuses another owner's, otherwise changes nothing |
| InMemoryStore.InMemoryConversationStore.Load | app/conversation/transcript_store.py:266-276 | the owner's turns, none when missing or expired, and only this thread touched |
| InMemoryStore.InMemoryConversationStore.Append | app/conversation/transcript_store.py:278-289 | the whole new thread and answer, other threads unchanged |
| InMemoryStore.InMemoryConversationStore.ReplaceLatestExchange | app/conversation/transcript_store.py:291-308 | the same for a regenerate |
| InMemoryStore.InMemoryConversationStore.CreatePendingContinuation | app/conversation/transcript_store.py:336-364 | stores a fresh pending record over whatever was there |
| InMemoryStore.InMemoryConversationStore.ClaimPendingContinuation | app/conversation/transcript_store.py:366-417 | answers as the atomic decision does and writes what it writes, except that an expired record is dropped |
| InMemoryStore.InMemoryConversationStore.CompletePendingContinuation | app/conversation/transcript_store.py:419-439 | writes what the atomic decision writes |
| InMemoryStore.InMemoryConversationStore.FailPendingContinuation | app/conversation/transcript_store.py:441-457 | writes what the atomic decision writes |
| DurableHistory.HistoryFromRows | app/conversation/durable_history.py:63-85 | the loop computes the trimmed turns of the kept rows |
| DurableHistory.KeptHaveQuestions | app/conversation/durable_history.py:73-81 | every kept row has a non-blank question |
| DurableHistory.NewestRowEnds | app/conversation/durable_history.py:72-85 | the newest row's exchange ends the history: question and answer as the text rules leave them, no assistant turn when nothing is left, a regenerate under the question it replaces |
| DurableHistory.ResultPagesSkipped | app/conversation/durable_history.py:73-75 | a result page leaves no trace wherever it is in the log |
| DurableHistory.WindowSound | app/conversation/durable_history.py:72-85 | replaying any suffix of the log gives a suffix of what the whole log gives |
| DurableHistory.ReplayAgrees | app/conversation/durable_history.py:63-85 | for every log of asks, regenerates and result pages that the live store took, under any context modes, the turns rebuilt from the rows have the role, content and exchange of the stored turns |
| DurableHistory.RegenerateAgrees | app/conversation/transcript_store.py:127-149 | one regenerate: the store takes it exactly when it names the last kept exchange under that exchange's context mode, the exchange has an answer and a question, and the bound is not one; then the stored turns are those of the merged exchange |
| DurableHistory.AskAgrees | app/conversation/turn.py:338-358 | one ask, under any context mode: the store takes it and holds the turns of the exchanges kept after it |
| DurableHistory.LiveTakesLog | app/conversation/transcript_store.py:557-621 | the live store takes a whole log exactly when each regenerate meets that condition on what was kept before it |
| DurableHistory.PageQuestionCannotBeRegenerated | app/services/ask_v2_service.py:740-749 | a log of an ask with page context and a regenerate without one: the store takes the first and refuses the second |
| ProcessResources.SlotsPublishOnce | app/resources.py:224-259 | each slot is written at most once, and all who get a slot get that value, different slots different values |
| ProcessResources.NothingPublishedAfterOpen | app/resources.py:238-258 | once OPEN has ended it never returns and no slot is written any more |
| ProcessResources.LateAcquirersRefused | app/resources.py:217-243 | an acquirer that starts after OPEN ended, or had still to check under the slot lock, builds nothing and is refused |
| ProcessResources.RefusedOnlyAfterOpen | app/resources.py:217-258 | nobody is refused while the resources are open |
| ProcessResources.BuilderGetsItsValue | app/resources.py:234-259 | whoever built a value ends with that value or a refusal |
| ProcessResources.FilledSlotNeedsNoLock | app/resources.py:224-232 | on open resources an acquirer of a filled slot gets its value without a lock |
| ProcessResources.OneCloserDisposes | app/resources.py:487-513 | one closer leaves OPEN; it alone starts disposing of written values, builders of their own unwritten ones; no closer returns before CLOSED |
| ProcessResources.BuiltValuesDisposedOnce | app/resources.py:237-258 | disposal of a built value never starts twice, and once CLOSED it has started exactly once for every value whose builder has moved on |
| ProcessResources.NoDeadlock | app/resources.py:224-259 | while some thread has not returned, some thread can step |
| ProcessResources.StepInv | app/resources.py:487-529 | every step of any thread keeps the system invariant |
| ProcessResources.RunInv | app/resources.py:487-529 | so it holds in every state of every run |
| ProcessResources.StepOther | app/resources.py:224-259 | a step by one thread keeps what every other thread relies on |
| CaseRepeats.EpochCountsTakeovers | app/business_query/case_repeats.py:286-323 | an entry's epoch is the one it started with plus one per takeover; replayed starts never reset it |
| CaseRepeats.OldEpochNeverCommits | app/business_query/case_repeats.py:242-257 | after a takeover no holder of an older epoch ever commits |
| CaseRepeats.TakeoverEpochsIncrease | app/business_query/case_repeats.py:306-320 | takeovers of one entry return strictly increasing epochs |
| CaseRepeats.TerminalIsFinal | app/business_query/case_repeats.py:275-304 | after a commit the entry is frozen with that digest and epoch; no takeover succeeds, and a commit only as a replay of the same digest and epoch |
| CaseRepeats.TakenOverIff | app/business_query/journaling/append_only.py:111-135 | over every run a takeover succeeds exactly when the entry was started, no finish succeeded, and its clock has reached the end of the lease given by the last takeover or else the start; it answers the next epoch, a refusal names the reason |
| CaseRepeats.FinishedIff | app/business_query/journaling/append_only.py:90-108 | over every run a finish succeeds exactly under the epoch the takeovers led to and the digest of every finish before; a refusal names the reason |
| CaseRepeats.FreshStartTaken | app/business_query/journaling/append_only.py:63-87 | a start under an unused key and id, and in the database identity, records the entry as asked and nothing else |
| CaseRepeats.TakenStartRefused | app/business_query/case_repeats.py:108-240 | one whose id, or in the database identity, is taken is refused for that |
| CaseRepeats.StartReplayChangesNothing | app/business_query/case_repeats.py:213-240 | a start under a used key changes nothing, and gets that key's id exactly when the digest is the entry's |
| CaseRepeats.StartsAgreeIff | app/business_query/case_repeats.py:108-133 | exactly when the two sinks agree on a start |
| CaseRepeats.SinksAgree | app/business_query/case_repeats.py:353-384 | over every run of lifecycle-made starts the two sinks hold the same journal and answer alike |
| CaseRepeats.LifecycleFinishFailsAfterTakeover | app/business_query/case_repeats.py:404-422 | the lifecycle's own finish, always under epoch 1, fails after any takeover |
| CaseRepeats.ApplyAdvances | app/business_query/journaling/append_only.py:63-140 | no operation changes a start, lowers an epoch or touches an entry with a terminal |
| CaseRepeatSinks.InMemoryCaseRepeatSink.Start | app/business_query/case_repeats.py:108-133 | the whole new state and the answer, empty prior ids included |
| CaseRepeatSinks.InMemoryCaseRepeatSink.Finish | app/business_query/case_repeats.py:135-153 | the journal's commit |
| CaseRepeatSinks.InMemoryCaseRepeatSink.ClaimRecovery | app/business_query/case_repeats.py:155-175 | the journal's takeover |
| CaseRepeatSinks.InMemoryCaseRepeatSink.Get | app/business_query/case_repeats.py:177-184 | what the journal records of the entry |
| CaseRepeatSinks.PostgresCaseRepeatSink.InsertEvent | app/query_records/model.py:293-304 | an insert with a conflict target: nothing on the target, an error on another unique constraint, else one row more |
| CaseRepeatSinks.PostgresCaseRepeatSink.Start | app/business_query/case_repeats.py:197-240 | the event and lease rows implement the journal's start, with its unique constraints |
| CaseRepeatSinks.PostgresCaseRepeatSink.Finish | app/business_query/case_repeats.py:242-284 | they implement its commit; the terminal row carries the epoch current at commit, and no constraint but the intended one can be hit |
| CaseRepeatSinks.PostgresCaseRepeatSink.ClaimRecovery | app/business_query/case_repeats.py:286-323 | they implement its takeover |
| CaseRepeatSinks.PostgresCaseRepeatSink.Get | app/business_query/case_repeats.py:325-350 | they read back what the journal records |
| CaseRepeatSinks.StartedClashes | app/query_records/model.py:293-304 | a started row clashes on id, key or identity exactly where the journal has it |
| CaseRepeatSinks.TerminalClashes | app/business_query/case_repeats.py:261-284 | a terminal row can clash only with its own entry's terminal row |
| McNemar.TwoSidedProbability | app/eval/run_stats.py:36-47 | the p-value is the chance that b + c fair tosses come out at least as lopsided, ties included |
| McNemar.ProbabilityAndCap | app/eval/run_stats.py:42-47 | it is in (0, 1], 1 exactly when the counts differ by at most one, and the cap matters exactly on a non-empty tie |
| McNemar.IncreasesWithBalance | app/eval/run_stats.py:45-47 | for a fixed number of pairs it strictly increases with the smaller count |
| McNemar.Symmetric | app/eval/run_stats.py:36-47 | it does not depend on which count is which |
| McNemar.SmallestValue | app/eval/run_stats.py:46-47 | it is at least 2 * 0.5^n, with equality exactly for one-sided splits |
| McNemar.SignificantFromSix | app/eval/run_stats.py:36-47 | below 0.05 is reachable exactly from six discordant pairs on |
| McNemar.TailCounts | app/eval/run_stats.py:46 | the tail sum of binomials counts the outcomes with at most k heads |
| McNemar.TailComplement | app/eval/run_stats.py:46 | a low tail and its complement make 2^n |
| RunStats.DiscordantCounts | app/eval/run_stats.py:24-33 | counts of the pairs lost and won at the threshold |
| RunStats.ClassifyMoves | app/eval/run_stats.py:113-122 | the pairs lost and won themselves, in order |
| RunStats.MovesPartition | app/eval/run_stats.py:113-122 | each pair is lost, won or neither, and in one list only |
| RunStats.MovesMean | app/eval/run_stats.py:113-122 | lost are the cases the base run passed and the candidate did not, won the reverse, and all of them |
| RunStats.SwapExchangesCounts | app/eval/run_stats.py:24-47 | exchanging the runs exchanges the counts and keeps the p-value |
| RunStats.PercentileBootstrap | app/eval/run_stats.py:50-70 | the sorted means of the resamples, read at Python's two truncated indices, or an index error |
| RunStats.IntervalWithinValues | app/eval/run_stats.py:61-70 | for every resampling and alpha, point and ends lie between the least and greatest value |
| RunStats.IntervalInOrder | app/eval/run_stats.py:68-69 | from 0 to 2, alpha gives an interval exactly when it is neither end; up to 1 the ends are in order |
| RunStats.IndicesInRange | app/eval/run_stats.py:68-69 | when the two indices are in range |
| RunStats.EndsAreQuantiles | app/eval/run_stats.py:61-70 | the ends are the alpha/2 and 1 - alpha/2 quantiles of the resample means: no more than that fraction of them lie below, and more do not lie above |
| RunStats.PointIsMeanDifference | app/eval/run_stats.py:60 | the point estimate is the candidate's mean score less the base's |
| RunStats.GroupByFamily | app/eval/run_stats.py:92-94 | each family's deltas in order |
| RunStats.FamilyClusterBootstrap | app/eval/run_stats.py:84-110 | the bootstrap of the family means in order of family id, with the counts; zeros when empty |
| RunStats.FamilyMeansIgnoreOrder | app/eval/run_stats.py:92-108 | the family means depend only on which observations there are |
| RunStats.FamilyMeansAreDifferences | app/eval/run_stats.py:92-108 | each family counts once, with the candidate's mean over its cases less the baseline's |
| RunStats.VerdictFollowsRuns | app/eval/run_stats.py:125-131 | for every resampling: no case worse, never a regression risk; none better, never an improvement, whatever p; all worse, a regression risk |
| RunStats.AllWonVerdict | app/eval/run_stats.py:125-131 | every case won: an improvement exactly when 2 * 0.5^n is below alpha, and otherwise no regression |
| RunStats.VerdictFollowsFamilies | app/eval/run_stats.py:84-131 | the same for families, whatever p |
| RunStats.SignificanceNeedsSix | app/eval/run_stats.py:125-131 | at 0.05 a significant improvement has at least six discordant pairs |
| AnswerFailures.FailsIff | app/experiments/rag_experiment.py:421-449 | an answer is labelled exactly on an error, when blank, on a length stop, or with a positive limit used up |
| AnswerFailures.StarvedIff | app/experiments/rag_experiment.py:401-449 | it is labelled starved exactly when it is blank, without error, and some count of reasoning tokens is positive or output was spent short of a length stop |
| AnswerFailures.OtherLabels | app/experiments/rag_experiment.py:421-449 | when each other label is given; a cut-off answer is put down to the provider at the attested limit, to the harness at its own |
| AnswerFailures.EvidenceOnlyRelabels | app/experiments/rag_answer_path.py:153-167 | a native count that arrives later never clears or makes a failure; it changes the label exactly when it alone decides whether a blank answer was starved |
| EvidenceView.FromEvidence | app/experiments/rag_evidence_gates.py:56-218 | the view's counts, cells and metric decisions |
| EvidenceView.CountScores | app/experiments/rag_evidence_gates.py:87-108 | missing and out-of-range scores of answered rows |
| EvidenceView.CountPaired | app/experiments/rag_evidence_gates.py:124-129 | the cells that did not fail |
| EvidenceView.CollectScores | app/experiments/rag_evidence_gates.py:157-166 | the last finite score of each answered cell |
| EvidenceView.CollectDeltas | app/experiments/rag_evidence_gates.py:168-177 | candidate minus base over the paired cells scored in both arms, in order |
| EvidenceView.DecideMetrics | app/experiments/rag_evidence_gates.py:148-196 | each metric's decision and the three flags |
| EvidenceGates.RouteIsLast | app/experiments/rag_evidence_gates.py:16-21 | of several frozen routes of an arm the last counts |
| EvidenceGates.LookupIsLast | app/experiments/rag_evidence_gates.py:409-475 | so with the providers and models of an arm |
| EvidenceGates.OrderDoesNotMatter | app/experiments/rag_evidence_gates.py:619-640 | run in any order that has every gate, the verdict is that of the first in declaration order to fire |
| EvidenceGates.PermutationsAgree | app/experiments/rag_evidence_gates.py:613-640 | every permutation of the gates gives the same verdict |
| EvidenceGates.PassIffNoneFires | app/experiments/rag_evidence_gates.py:584-640 | a pass exactly when no other gate fires; a gate before the quality gates makes it a hold |
| EvidenceGuarantees.RowsAreTheMatrix | app/experiments/rag_evidence_gates.py:237-269 | with the right number of rows, no duplicate and no unexpected cell leave no cell missing |
| EvidenceGuarantees.PassMeansMatrix | app/experiments/rag_evidence_gates.py:227-269 | on a pass the rows are a bijection onto case, arm and repeat, and no case or arm is listed twice |
| EvidenceGuarantees.PassMeansEnoughPairs | app/experiments/rag_evidence_gates.py:124-129 | on a pass paired cells are at least cases * repeats * (1 - arms * max rate) |
| EvidencePass.PassIff | app/experiments/rag_evidence_gates.py:221-640 | the evidence passes exactly when the rows are the whole matrix, one context for each case, each on its route, answered rows documented and served as frozen, judge validated, scores in range, failures and missing scores within the rate, every metric compared on all paired cells and within tolerance |
| EvidencePass.SamplePasses | app/experiments/rag_evidence_gates.py:584-640 | some evidence does pass |
| EvidenceQuality.WorseCandidateFails | app/experiments/rag_evidence_gates.py:148-196 | for every interval between the least and greatest delta: when the second arm is worse by more than the tolerance on every paired case and repeat, the metric is inferior and the verdict no pass, a quality regression unless a gate before fires |
| EvidenceQuality.PercentilesAreSensible | app/eval/run_stats.py:50-81 | the percentile bootstrap gives such an interval, whatever was drawn |
| EvidenceQuality.GoodCandidateNoninferior | app/experiments/rag_evidence_gates.py:148-196 | when it is never worse by more than the tolerance, the metric is noninferior |
| EvidenceQuality.QualityByRows | app/experiments/rag_evidence_gates.py:178-196 | under the widest interval: inferior exactly when worse everywhere, noninferior exactly when nowhere, inconclusive in between, which is no pass |
| EvidenceGuarantees.EnforceOperationalBudget | app/experiments/rag_experiment.py:548-562 | when the early stop raises |
| EvidenceGuarantees.RefreshOperationalFailureLabels | app/experiments/rag_experiment.py:452-455 | writes the classifier's label into every row in place and changes nothing else |
| EvidenceGuarantees.StoppedRunsWouldHold | app/experiments/rag_experiment.py:548-562 | every completed matrix that keeps the failures of a stopped prefix is judged HOLD, however its rows are sorted and in every gate order |
| EvidenceGuarantees.StoppedRunsHoldAfterRefresh | app/experiments/rag_experiment.py:421-455 | in particular when the prefix, labelled by the classifier as its rows came in, is enriched with any native token counts, completed, labelled again and sorted |
| EvidenceGuarantees.StopIffRateGate | app/experiments/rag_evidence_gates.py:536-551 | on the complete rows, stop and rate gate say the same, but for a gate firing without failures under a negative limit |
| JudgeBudget.BatchesAreTheInput | app/experiments/live_rag_judge.py:651-654 | the batches together are the input; none is empty and all but the last are full |
| JudgeBudget.RunScoresBatches | app/experiments/live_rag_judge.py:651-661 | what a pass returns is the scores of those batches, in order |
| JudgeBudget.SpentCovers | app/experiments/live_rag_judge.py:541-550 | the sum of per-batch maxima covers both the usage reported and the sample reserve |
| JudgeBudget.TokensCost | app/experiments/live_rag_judge.py:541-550 | a thousand more input or output tokens of a call cost what the prices say for their kind |
| JudgeBudget.TwoPassesCover | app/experiments/live_rag_judge.py:693-717 | over both passes it covers the incremental cost |
| JudgeBudget.SpentCanExceedReported | app/experiments/live_rag_judge.py:654-661 | it can be strictly more |
| JudgeBudget.ForecastAtLeastSpent | app/experiments/live_rag_judge.py:664-671 | the forecast is never below what was spent, and equals it after the last sample |
| JudgeBudget.FittingForecastLeavesRoom | app/experiments/live_rag_judge.py:664-671 | when the forecast fits, samples at up to a tenth above the average so far, or above that of the canaries, keep the whole run within the limit |
| JudgeBudget.ScorePass | app/experiments/live_rag_judge.py:644-691 | a bounded pass scores the batches of its input one after another, a prefix of them when it stops; it returns their rows and evidence with spend within the reservation, or stops with a forecast above it |
| JudgeBudget.ScoreBounded | app/experiments/live_rag_judge.py:621-717 | both passes return the scores of all their batches, and what both cost <= spend <= reservation + epsilon; or a forecast, possibly the one before any call, is above it |
| JudgeBudget.LunaRagasJudge.Judge | app/experiments/live_rag_judge.py:593-740 | runs the preflight unless it has run, and fails exactly when it did not pass; a normal return holds the scores of all batches of both passes, with a budget incremental cost <= running spend <= reservation + epsilon, and the preflight cost counted once |
| JudgeBudget.LunaRagasJudge.ConfigureBudget | app/experiments/live_rag_judge.py:533-538 | sets budget and batch size together, or refuses and changes nothing |
| JudgeBudget.LunaRagasJudge.RunPreflight | app/experiments/live_rag_judge.py:552-591 | runs once, then answers from the cache |
| JudgeBudget.LunaRagasJudge.MarkPreflightCostAccounted | app/experiments/live_rag_judge.py:527-531 | only after a preflight |
| JudgeBudget.LunaRagasJudge.ResetForAttempt | app/experiments/live_rag_judge.py:519-525 | forgets evidence and budget |
| FollowupFocus.ResolveEids | app/conversation/followup_context.py:81-103 | ends on every history, succeeds exactly when the expansion does, and appends its leaf positions in order of first visit |
| FollowupFocus.ResolutionMeaning | app/conversation/followup_context.py:81-105 | success exactly when no path repeats an id or ends dead; the positions are those of the candidates paths end at, each once, at least one |
| FollowupFocus.SourceFocus | app/conversation/followup_context.py:61-130 | the loop computes the focus the latest deciding turn gives |
| FollowupFocus.AnswerFocus | app/conversation/followup_context.py:117-121 | settled by an answer: resolved to the place of the last candidate of its exchange alone, unavailable exactly when there is none |
| FollowupFocus.NewAnswerIsFocus | app/conversation/followup_context.py:33-121 | settled by an answer that qualifies: it is the last candidate and the focus |
| FollowupFocus.DirectFocus | app/conversation/followup_context.py:107-116 | settled by a direct answer: its subject, or else its exchange's last question, cut to length; unavailable when both are missing or empty |
| FollowupFocus.ExplanationFocus | app/conversation/followup_context.py:75-105 | settled by an explanation: unavailable exactly when it names nothing or a path fails; otherwise the candidates the paths end at, invalid when more than eight |
| FollowupFocus.NoFocusIff | app/conversation/followup_context.py:70-123 | no focus exactly when no turn settles it |
| FollowupFocus.CandidatesAreLatest | app/conversation/followup_context.py:33-58 | candidates are the latest twenty answers that rest on no other, can be restored, had a result and were asked; oldest first, numbered from one, each with its exchange's last question |
| FollowupFocus.InvalidIffMoreThanEight | app/conversation/followup_contracts.py:22-45 | building the focus fails validation exactly when an explanation resolves to more than eight positions |
| FollowupFocus.LongExplanationsFail | app/conversation/followup_context.py:81-105 | for each n up to twenty a history whose focus is on n answers: it succeeds up to eight and fails from nine on |
| BoundedExecutor.PermitsConserved | app/core/bounded_executor.py:45-83 | available and held permits make the capacity, releases never pass admissions, unfinished work never exceeds the capacity |
| BoundedExecutor.NoDoubleRelease | app/core/bounded_executor.py:76-82 | no release finds all permits available |
| BoundedExecutor.DoneAndReleasedStay | app/core/bounded_executor.py:82 | a future once done, or its permit once back, stays so |
| BoundedExecutor.AllPermitsReturn | app/core/bounded_executor.py:61-83 | with all submissions returned and futures done, every permit is back exactly when the registered callbacks have run |
| BoundedExecutor.NothingAdmittedAfterShutdown | app/core/bounded_executor.py:69-71 | no permit is taken after shutdown |
| BoundedExecutor.AdmittedIff | app/core/bounded_executor.py:61-75 | a submission is admitted exactly when not shut down and some permit is not held, refused as shut down exactly when it is, for capacity exactly when every permit is held |
| BoundedExecutor.StepInv | app/core/bounded_executor.py:61-89 | every step keeps conservation and the ownership of callbacks |
| RecordPartition.BindRefs | app/business_query/outcomes.py:519-525 | references by row, in order, and the rest |
| RecordPartition.AssignRefs | app/business_query/outcomes.py:519-550 | with the binding by position and the recovered owner |
| RecordPartition.PartitionRecordResults | app/business_query/outcomes.py:514-570 | the records and aggregates |
| RecordPartition.RefsConserved | app/business_query/outcomes.py:514-570 | every reference is in exactly one record, and beside them at most one, only for a single row that none is bound to |
| RecordPartition.EachRowOnce | app/business_query/outcomes.py:552-567 | each row becomes one aggregate or one record per reference, never both |
| RecordPartition.RecordsFollowRows | app/business_query/outcomes.py:554-567 | records come in row order, each with its row |
| RecordPartition.BoundRecords | app/business_query/outcomes.py:519-567 | with any reference bound, a record with a row holds the row its reference names |
| RecordPartition.PositionalRecords | app/business_query/outcomes.py:527-533 | with none bound and as many references as rows, they go by position |
| RecordPartition.RecordsOwnDetails | app/business_query/outcomes.py:560-566 | a record with a row holds exactly the details naming its id, as printed, and no other resource |
| RecordPartition.BoundInOrder | app/business_query/outcomes.py:519-525 | a row's references keep their order, none left out or twice |
| RecordPartition.DetailsInOrder | app/business_query/outcomes.py:560-566 | a reference's details keep their order, none left out or twice |
| RecordPartition.RecoveredIff | app/business_query/outcomes.py:535-550 | exactly when a reference is recovered, and that it names the one owner all details agree on |
| RecordPartition.AggregatesFollowRows | app/business_query/outcomes.py:554-558 | aggregates come in row order |
| RecordPartition.DetailsOf | app/business_query/outcomes.py:560-566 | a record gets exactly the details its reference owns |
| RecordPartition.RecoveredOwnerKeepsDetails | app/business_query/outcomes.py:535-550 | the details that named a recovered owner go to its record exactly when the id prints back as itself |
| RecordPartition.CompleteEnvelopeShowsTotal | app/business_query/outcomes.py:463-511 | an envelope called complete has, for every row of the stated total, an aggregate or a record that holds it; and it is called complete whenever the answer was and all those rows are shown |

## Left out

- Redis and Postgres transport, JSON, hashing, redaction and digests: values are stored as they are, and digests, text rules and key derivations are parameters.
- Time-to-live eviction, the notify list and blocking waits, `claim_continuation` and `complete_continuation`, and `get_continuation_record`.
- ContinuationProtocol.RunContinuationInv: takes each continuation id as created once, because `create_pending_continuation` overwrites unconditionally.
- Continuations.StepKeepsInv: the clock readings of different calls are arbitrary, not monotone, so a lease is compared with readings and not with elapsed time.
- Transcripts.NoLostUpdates: regenerates that took effect are taken to bring both turns, because the claim fails otherwise, as TrimThenReplace says.
- DurableHistory.ReplayAgrees: asks have a question that is not blank, regenerates an answer left after the text rules, and the question rule is idempotent; context modes, artifacts and the other fields a turn holds are not in the rows and are not compared; rows carry an exchange id, as the service writes them.
- ProcessResources.OneCloserDisposes: a state machine over the object's actions, not a class; says that a disposal was started, not that it was awaited: an orphan built after the closer has gathered the orphans is scheduled and not joined.
- ProcessResources.BuiltValuesDisposedOnce: the order in which the closer disposes of the slots is any order; cancellation inside `aclose`, and exceptions other than the builder's, are not modelled.
- CaseRepeatSinks.PostgresCaseRepeatSink.Start: each method is one transaction and one step, because the source locks the rows it decides on; which of several broken constraints the database reports is fixed here.
- McNemar.TwoSidedProbability: over the reals; as a float 0.5 ** n becomes zero beyond n = 1074.
- RunStats.PercentileBootstrap: the generator's draws are an argument, and sums are exact.
- EvidenceView.FromEvidence: the details dictionaries and the three output-cap tallies, which no gate reads, and the bootstrap itself, which is any function of the deltas.
- AnswerFailures.EvidenceOnlyRelabels: the parsing of token counts, which are numbers or absent here; a failed metadata fetch, which leaves the counts as they were, is the case of an equal count.
- EvidenceView.ViewOf and the policy: a negative number of repeats.
- JudgeBudget.ScorePass: takes the judge's fields as arguments instead of reading them; no call is recorded in a session between a batch's two reads of its evidence.
- JudgeBudget.LunaRagasJudge.RunPreflight: whether the canary scores and the call evidence passed are inputs; how they are judged, and the call evidence of the two passes, are not modelled.
- FollowupFocus.SourceFocus: the grain of a candidate, and the restore that follows.
- BoundedExecutor.PermitsConserved: a state machine over the object's actions, not a class; the pool's own queue and threads; a future becomes done at any moment after it was accepted.
- Termination of whole runs under a fair scheduler; only the absence of deadlock is shown for the process resources.
- The AST walk that builds the import graph, the routes, configuration, telemetry, reports and experiment shells.
- `CircuitBreaker`, `allowance_seconds`, `oracle_literal_present`, `_resolve_profile_extends` and `_normalize_record_id` are not modelled.

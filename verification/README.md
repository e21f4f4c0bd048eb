# Verified model of the requirements-extraction service

The service turns documents and recordings into requirements, user stories and a coverage report. Around
its language-model calls sits deterministic code that decides what is merged, what is dispatched, what is
scored and what is published. This project models that code in Dafny and proves what it promises. Texts,
similarity scores, model replies and clocks are arbitrary inputs; floating-point numbers are reals and are
not rounded.

`dafny verify dfyconfig.toml` checks everything.

How the modules follow the program:

* **Canonicalization** (`nodes/dedupe_requirements.py`): `UnionFind` is the parent list with path halving;
  `Connectivity` is the independent notion of a component, by chains of edges; `Requirements` holds the pair
  rules and the in-place merge; `Clustering` is the pairwise pass over requirement objects; `Canonicalize`
  says on values what the whole pass yields and `CanonicalizePass` is the pass itself. `DuplicateRules` says
  in terms of texts, facts, actors and documents which pairs merge. The guarantees are in
  `MergeLaws`, `CanonicalProperties`, `CanonicalStability` (a second pass), `LiftedCopies` (one that merges) and `DispositionMixing` (when
  accepted and rejected requirements end up together). `ConflictPairs` is the greedy choice of pairs.
* **Jobs** (`api/service.py`, `api/internal.py`, `store/memory.py`): `JobStore` is the store with its atomic
  operations, `JobRequests` the endpoints run alone, `JobProtocol` all interleavings of any number of clients,
  each with its own program counter. `Fingerprint` is the payload that identifies a job.
* **LLM client** (`llm.py`): `LlmClient` is the process with its clock, quota map and a log of every call.
* **Scores and the public result** (`quality_scoring.py`, `format.py`, `generate.py`): `IssueFamilies`,
  `QualityScore`, `ScoreLaws` (what single issues and components are worth), `ComponentScores`, `PublicIssues`, `SourceRefs`, `Stories`, `StoryDedupe`, `Coverage`,
  `PublicCoverage`, `Decimal` and `WarningCodes`.
* **Retrieval** (`rag/`): `Bm25`, `LexicalRetriever`, `HybridMerge`, `SourceIndex`.
* **Chunking and checks** (`parse_to_chunks.py`, `ingest.py`): `SlidingWindow`, `DocxChunks`, `PdfPages`,
  `Stripping`, `Luhn`. **Word errors** (`run_production_readiness_suite.py`): `EditDistance`.
* **Pipeline** (`graph/`, `repair_stories.py`): `Pipeline` is the node graph and its runs, `Repair` the
  repair step.
* `Sorting` models the library's stable sort; `Sequences`, `Texts`, `Priorities`, `Reals` and
  `Wrappers` hold what several modules share.

Code that changes things in place is a class or a method with loops, proved equal to a function on values;
what the service promises is then proved about that function.

Where a promise fails, the code is kept as it is. For each such promise there is an input that shows the
failure and the exact condition under which the promise holds:

| promise | fails for | holds exactly when |
|---|---|---|
| accepted and rejected requirements stay apart | `DeferredCopyMixes` | `MixesIffBridged` |
| a second canonicalization changes nothing | `ReportsMergeLater` | `SecondPassKeepsAllIff` |
| one attempt of a job lives at a time | `CancelledWhileQueuedOverlaps`, `FailureReportedTwiceOverlaps` | `NeverOverlapsIffNeverStrays` |
| the order of issues does not matter to the score | `UnratedIssueRaisesScore` with `UnratedExample` | `TallyIgnoresOrderIff`, `ScoreIgnoresOrderIff` |
| a further issue never raises the score | the same | `InsertingTally`, `AddingRaisesIff` |
| merging stories twice changes nothing | `OnePassIsNotEnough` | `SecondPassIff` |
| codes rewritten in turn are rewritten once | `TwoOneClashes` | `SequentialIffNoClash` |
| replacing a code touches that code only | `ThousandReadForHundred` | `ReplaceRightIff` |
| a message has every code rewritten to its public one | `TwoOneClashes`, `ThousandReadForHundred` | `AlwaysRightIff`, `MessagesRightIff` |
| only issues of repaired stories are resolved | `TenthResolvedForFirst` | `ResolvedIff`, `GeneratedResolvedIff` |
| the order of documents does not matter to the fingerprint | `MissingAndEmptyTie` | `OrderFreeIffSeparate` |
| a page chunk stands at its recorded offset | `IndentedPageMisplaced` | `ChunksOfPages` |
| a paragraph chunk stands at its recorded offset | `LeadingBlankMisplaces` | `ChunksStand` |
| paragraph chunks rejoin to the document | `LeadingBlankMisplaces` | `RejoinIffNothingLost` |

Where comments and code differ, the model follows the code. The comment above the disposition rule says
accepted and rejected requirements never merge, but the rule looks at pairs only. The comment in
`repair_stories.py` speaks of parsing story ids, but any occurrence of the id in the text counts.

## Model

| member | source | states |
|---|---|---|
| `UnionFind.Find` | ai-service/app/nodes/dedupe_requirements.py:293-297 | the path-halving lookup ends, returns the root of the index, and leaves the root of every index as it was |
| `UnionFind.Union` | ai-service/app/nodes/dedupe_requirements.py:299-303 | joining two trees relabels exactly the right root's tree with the left root, and the links stay a forest |
| `UnionFind.HalvingKeepsForest` | ai-service/app/nodes/dedupe_requirements.py:293-297 | pointing an index at its grandparent keeps a ranked forest with the same roots, which is why the lookup ends |
| `UnionFind.LinkKeepsForest` | ai-service/app/nodes/dedupe_requirements.py:299-303 | hanging one root under another keeps a ranked forest, whichever of the two is larger |
| `Connectivity.ComponentsPartition` | ai-service/app/nodes/dedupe_requirements.py:360-363 | the components hold every index, and no index twice |
| `Connectivity.SameComponentIffConnected` | ai-service/app/nodes/dedupe_requirements.py:286-363 | two indices share a component if and only if a chain of edges connects them |
| `Requirements.CompareSymmetric` | ai-service/app/nodes/dedupe_requirements.py:305-358 | whether a pair merges, is flagged or is left alone does not depend on which of the two is seen first |
| `Requirements.AddEvidenceNoRepeats` | ai-service/app/nodes/dedupe_requirements.py:214-232 | merging evidence never cites one chunk and quote twice when the kept requirement did not |
| `Requirements.Requirement.MergeInto` | ai-service/app/nodes/dedupe_requirements.py:214-255 | folding one requirement into another in place gives the merged value in every field and touches nothing else |
| `Clustering.CanonicalComponents` | ai-service/app/nodes/dedupe_requirements.py:286-363 | the pairwise pass over requirement objects returns exactly the connected components of the merging pairs, in leader order, with exactly the review flags and ids the ambiguous pairs raise |
| `Clustering.FlagFromKeeps` | ai-service/app/nodes/dedupe_requirements.py:305-358 | the pass changes nothing but review flags and notes, and withdraws no flag |
| `Clustering.FlagFromReports` | ai-service/app/nodes/dedupe_requirements.py:305-358 | no ambiguous pair goes unreported: its later requirement is flagged and its id listed; a disposition conflict flags both |
| `Clustering.FlagFromOwed` | ai-service/app/nodes/dedupe_requirements.py:305-358 | and nothing is flagged or listed without an ambiguous pair behind it |
| `Clustering.GroupByRoot` | ai-service/app/nodes/dedupe_requirements.py:360-363 | grouping indices by their root yields the components |
| `DuplicateRules.MergedIff` | ai-service/app/nodes/dedupe_requirements.py:77-358 | two requirements merge directly if and only if their decisions are not opposed, their sources agree, and they have one non-empty normal form, or the larger text joins clauses and shares at least four facts and three fifths of the smaller one, or each has four facts, four fifths of all are shared and the actors do not differ |
| `DuplicateRules.ReviewedIff` | ai-service/app/nodes/dedupe_requirements.py:305-358 | a pair is flagged for opposed decisions, differing actors or disagreeing sources, each if and only if stated so in terms of texts, facts, actor names and documents |
| `DuplicateRules.SourcesIff` | ai-service/app/nodes/dedupe_requirements.py:98-124 | sources agree if and only if one side cites no document, both cite a common one, the texts read the same, or actors do not differ and three quarters of all facts of two goals are shared |
| `DuplicateRules.ActorsIff` | ai-service/app/nodes/dedupe_requirements.py:77-95 | actors differ if and only if both are named, by names that differ in more than trailing letters s, and not both of technical components |
| `DuplicateRules.UnlikeSurvives` | ai-service/app/nodes/dedupe_requirements.py:286-425 | a requirement whose normal form no other has and that shares fewer than four facts with every other is folded together with nothing and survives unchanged but for its number and review notes |
| `CanonicalizePass.CanonicalizeRequirements` | ai-service/app/nodes/dedupe_requirements.py:366-425 | the in-place pass (cluster, fold, order, renumber, map ids) yields exactly the outcome defined on values by `Canonicalize.Canonical` |
| `CanonicalizePass.MergeComponent` | ai-service/app/nodes/dedupe_requirements.py:384-403 | folding a cluster changes its best-ranked member only, into the merge of the whole cluster |
| `CanonicalizePass.AssignIds` | ai-service/app/nodes/dedupe_requirements.py:412-423 | renumbering gives each survivor its id and sends every old id of its cluster there |
| `Canonicalize.RepOutranksAll` | ai-service/app/nodes/dedupe_requirements.py:384-393 | the representative of a cluster outranks every other member: meaningful tokens, then length, confidence and earliest position |
| `CanonicalProperties.SurvivorsInSourceOrder` | ai-service/app/nodes/dedupe_requirements.py:405-411 | survivors come strictly in the order of their representatives in the source |
| `CanonicalProperties.HomeExists` | ai-service/app/nodes/dedupe_requirements.py:366-425 | every requirement is folded into some survivor |
| `CanonicalProperties.FoldedTogetherIffConnected` | ai-service/app/nodes/dedupe_requirements.py:286-425 | two requirements end in the same survivor if and only if a chain of duplicate pairs connects them |
| `CanonicalProperties.IdsFollowRequirements` | ai-service/app/nodes/dedupe_requirements.py:374-425 | for distinct ids: every old id is mapped, to the survivor its requirement went into; survivors have distinct ids; the merged count is inputs minus outputs |
| `CanonicalProperties.IdsFollowClusters` | ai-service/app/nodes/dedupe_requirements.py:412-423 | old ids of one cluster map to one new id and those of different clusters to different ones |
| `CanonicalProperties.SurvivorCovers` | ai-service/app/nodes/dedupe_requirements.py:214-255 | all grounding, labels, flags and review notes of a requirement survive in the one it was folded into, whose confidence, priority and disposition rank are at least as high; between classified ones so do classification labels and confidence |
| `CanonicalProperties.SurvivorDrawn` | ai-service/app/nodes/dedupe_requirements.py:214-255 | nothing is invented: each citation, label, classification label, confidence, priority and disposition of a survivor comes from a requirement folded into it, so the ranks are the maxima of the cluster |
| `CanonicalProperties.SurvivorSpeaksForBest` | ai-service/app/nodes/dedupe_requirements.py:384-425 | a survivor keeps the wording, actor and goal of the best-ranked requirement of its cluster |
| `MergeLaws.MergeAllCovers` | ai-service/app/nodes/dedupe_requirements.py:214-255 | folding any list keeps the grounding, ranks, labels, classification and review notes of every part |
| `MergeLaws.MergeAllDrawn` | ai-service/app/nodes/dedupe_requirements.py:214-255 | folding any list invents no citation, label, classification label or rank |
| `MergeLaws.MergeAllKeeps` | ai-service/app/nodes/dedupe_requirements.py:214-255 | folding keeps id, text, non-empty actor and goal, and the existing evidence as a prefix |
| `CanonicalStability.StayApart` | ai-service/app/nodes/dedupe_requirements.py:77-124 | filling in actors, goals and evidence never turns two requirements kept apart into duplicates, unless their decisions were opposed and no longer are, or their sources did not match and now do |
| `CanonicalStability.SecondPassKeepsAllIff` | ai-service/app/nodes/dedupe_requirements.py:366-425 | for all dispositions and documents, and also after classification in between: a second pass merges nothing, keeps every survivor and maps every id to itself if and only if it does not renumber survivors numbered otherwise and no two clusters are reopened, that is, their best members are alike, not one cluster holds an accepted requirement and the other only rejected ones, and their sources match once gathered |
| `CanonicalStability.OneDocumentReopened` | ai-service/app/nodes/dedupe_requirements.py:77-124 | within one document only clusters with oppositely decided best members are reopened, and only when something not rejected was folded into the rejected one |
| `CanonicalStability.SecondPassKeepsAll` | ai-service/app/nodes/generate.py:814-817 | for accepted and rejected requirements of one document nothing is left to merge; the pass before generation, which keeps ids, changes nothing |
| `LiftedCopies.LiftedCopyMergesLater` | ai-service/app/nodes/dedupe_requirements.py:366-425 | otherwise it can: whatever the text rules, a deferred near copy by another actor lifts a rejected requirement, which the second pass merges with its accepted twin |
| `LiftedCopies.ReportsMergeLater` | ai-service/app/nodes/dedupe_requirements.py:366-425 | such requirements exist: two wordings of printing a monthly revenue report, compared by their words |
| `DispositionMixing.MixesIffBridged` | ai-service/app/nodes/dedupe_requirements.py:305-363 | a component mixes accepted and rejected requirements if and only if a chain through undecided ones joins an accepted with a rejected one |
| `DispositionMixing.DecidedNeverMix` | ai-service/app/nodes/dedupe_requirements.py:305-363 | when every requirement is accepted or rejected, no component mixes the two |
| `DispositionMixing.DeferredCopyMixes` | ai-service/app/nodes/dedupe_requirements.py:305-363 | the pairwise rule is not enough in general: one deferred copy joins an accepted and a rejected copy |
| `ConflictPairs.FindSemanticCandidates` | ai-service/app/nodes/dedupe_requirements.py:431-467 | collecting, sorting and taking pairs with a count for each id gives the greedy choice from the ranked eligible pairs |
| `ConflictPairs.AllPairsExact` | ai-service/app/nodes/dedupe_requirements.py:441-452 | the pairs offered are those of the upper triangle with both embeddings and at least the threshold similarity |
| `ConflictPairs.PairsInOrder` | ai-service/app/nodes/dedupe_requirements.py:441-455 | pairs are offered row by row, and pairs of equal similarity stay in that order |
| `ConflictPairs.NoHotspots` | ai-service/app/nodes/dedupe_requirements.py:458-467 | no id takes part in more than k chosen pairs, whatever pairs are offered |
| `ConflictPairs.CandidatesAreFair` | ai-service/app/nodes/dedupe_requirements.py:431-467 | chosen pairs are eligible; an eligible pair is left out only when one of its ids already has k chosen pairs, each at least as similar |
| `JobStore.MemoryJobStore.CreateOrGet` | ai-service/app/store/memory.py:51-64 | inserts the candidate if and only if the id is free, and otherwise returns the stored row unchanged |
| `JobStore.MemoryJobStore.TryRequeueForRetry` | ai-service/app/store/memory.py:75-114 | requeues if and only if the stored row is retryable with the same fingerprint, in one step; the row then waits in the queue at the next attempt, with no progress, no cancel request and no error, under the given options and callback or the default one, for the same payload |
| `JobStore.RequeuedStartsOver` | ai-service/app/store/memory.py:93-113 | a row starts over in every field, stated one by one, exactly when it is the requeued one |
| `JobStore.FirstAttempt` | ai-service/app/api/service.py:203-224 | a first submission leaves the row of a first attempt with what was submitted |
| `JobStore.StatusesSplit` | ai-service/app/store/memory.py:75-114 | active and terminal statuses exclude each other, and only terminal ones are retryable |
| `JobStore.StatusReported` | ai-service/app/store/memory.py:131-166 | a status report replaces status and step, progress and error only where given, and nothing else |
| `JobRequests.HandleJobCreation` | ai-service/app/api/service.py:179-429 | run alone, a submission either owns a new attempt, which starts over in every field, or counts one duplicate, never both, and changes no other job |
| `JobRequests.AnswersAre` | ai-service/app/api/service.py:248-429 | conflicts are answered 409, and the same payload 202 while the job is under way and 200 once it has ended |
| `JobRequests.RetryJob` | ai-service/app/api/internal.py:679-749 | the retry endpoint requeues a retryable job under its own fingerprint and options, so that it starts over with no cancel request, error or progress left, and answers 404 or 409 otherwise |
| `JobRequests.CancelJob` | ai-service/app/api/internal.py:645-676 | cancelling leaves terminal jobs alone, flags active ones, and turns a queued one CANCELLED |
| `JobProtocol.RunKeepsInv` | ai-service/app/api/service.py:179-429 | over every interleaving of submits, retries, cancels, dispatches and worker writes: attempts are granted one by one, each is in one client's charge at most, submissions past the checks carry the stored payload, and the duplicate counter is exact |
| `JobProtocol.StepKeepsIdentity` | ai-service/app/api/service.py:179-429 | a stored row never disappears and never changes fingerprint, tenant or project; attempts and duplicates never decrease |
| `JobProtocol.GrantsAreAtomicRequeues` | ai-service/app/store/memory.py:51-114 | the row becomes QUEUED only together with a new attempt for the acting client, from absent, FAILED or CANCELLED; no other step grants one |
| `JobProtocol.GrantedIff` | ai-service/app/store/memory.py:51-114 | an attempt is granted if and only if a first submission finds no row, or a client asks under the stored fingerprint for a failed or cancelled job |
| `JobProtocol.SubmissionsStay` | ai-service/app/api/service.py:225-429 | a submission keeps its request until it is done, and one that won an attempt ends as won |
| `JobProtocol.OnePayloadPerJob` | ai-service/app/api/service.py:225-345 | all attempts of a job are for the first accepted payload, and the attempt number counts them |
| `JobProtocol.EachAttemptOnce` | ai-service/app/api/service.py:225-429 | after every run, no attempt is in the charge of two clients |
| `JobProtocol.DispatchedAtMostOnce` | ai-service/app/api/service.py:225-429 | over every run, each attempt is dispatched by at most one action, and not before it was granted |
| `JobProtocol.WinnersCarryThePayload` | ai-service/app/api/service.py:225-345 | every submission that won an attempt carried exactly the stored payload |
| `JobProtocol.CompletedSubmissionsBalance` | ai-service/app/api/service.py:225-429 | completed submissions are the dispatching ones plus the duplicates counted |
| `JobProtocol.CancelOnlyThisAttempt` | ai-service/app/store/memory.py:93-174 | at any point of any run the job asks to be cancelled if and only if some cancel client set its flag since the latest attempt was granted |
| `JobProtocol.HazardIffStray` | ai-service/app/api/service.py:497-657 | of all steps, exactly the late write of FAILED or CANCELLED over another client's live attempt makes a second live attempt possible |
| `JobProtocol.WithoutStraysExclusive` | ai-service/app/api/service.py:179-429 | in a run without such a write, at most one attempt is live at any time |
| `JobProtocol.NeverOverlapsIffNeverStrays` | ai-service/app/api/service.py:179-657 | a run keeps at most one attempt live, now and after a retry arriving at any point of it, if and only if it contains no such write |
| `JobProtocol.HazardBecomesOverlap` | ai-service/app/api/internal.py:679-749 | every such hazard is real: a retry arriving then gets a second live attempt |
| `JobProtocol.CancelledWhileQueuedOverlaps` | ai-service/app/api/internal.py:645-676 | a concrete run: cancelling a queued job from a stale read, then retrying, leaves two attempts live |
| `JobProtocol.FailureReportedTwiceOverlaps` | ai-service/app/api/service.py:621-657 | a concrete run without any cancel: a failed dispatch reported twice around a retry leaves two attempts live |
| `EditDistance.WordErrors` | ai-service/scripts/run_production_readiness_suite.py:648-665 | the two-dimensional table is filled within bounds and its last cell is the distance |
| `EditDistance.DistanceIsShortestScript` | ai-service/scripts/run_production_readiness_suite.py:648-665 | the distance is the length of a shortest script of single-word insertions, deletions and substitutions: some script attains it and none is shorter |
| `EditDistance.ScriptNotShorter` | ai-service/scripts/run_production_readiness_suite.py:648-665 | no script from one text to the other has fewer edits than the distance |
| `EditDistance.ScriptAttains` | ai-service/scripts/run_production_readiness_suite.py:648-665 | a script of exactly that many edits is constructed |
| `EditDistance.DistanceSymmetric` | ai-service/scripts/run_production_readiness_suite.py:648-665 | the distance is symmetric |
| `EditDistance.DistanceZero` | ai-service/scripts/run_production_readiness_suite.py:648-665 | the distance is zero if and only if the texts are equal |
| `EditDistance.Triangle` | ai-service/scripts/run_production_readiness_suite.py:648-665 | the distance obeys the triangle inequality |
| `LlmClient.BuildProviders` | ai-service/app/llm.py:287-320 | the provider list has the primary first, then each usable fallback once, in order |
| `LlmClient.RetryDelayBounds` | ai-service/app/llm.py:74-81 | a back-off is at least what the server asked for and at least the base doubled with each attempt, unless it is as long as both base and maximum; it never exceeds the larger of these, and exceeds what was asked by a quarter and by one second at most |
| `LlmClient.LegalWaits` | ai-service/app/llm.py:74-81 | in other words, at least the smaller of the longest wait and the wish of the server, and of the longest wait and the doubled base |
| `LlmClient.JitterSpreads` | ai-service/app/llm.py:80-81 | a larger random fraction gives a longer wait below the longest |
| `LlmClient.RetryDelayDoubles` | ai-service/app/llm.py:74-81 | without jitter and wishes the first wait is the base, and each further one twice the one before until the longest is reached |
| `LlmClient.Process.CooldownRemaining` | ai-service/app/llm.py:149-157 | reports a wait only for an announced cooldown; otherwise drops the entry, and no cooldown for the provider is running |
| `LlmClient.Process.Call` | ai-service/app/llm.py:435-470 | a call is made only with no cooldown running; a permanent quota error is followed at once by a full cooldown |
| `LlmClient.Process.TryProvider` | ai-service/app/llm.py:429-489 | one provider gets one attempt and at most as many more as retries are configured, a further one only after a transient error and a legal back-off that honours the wish of the server, and is given up only on an answer, a permanent error or the last attempt; its calls stand in a row in the log with these waits between them |
| `LlmClient.Process.Invoke` | ai-service/app/llm.py:402-493 | providers are visited in order, the first answer is returned, and a provider is passed over only during an announced cooldown or when no client can be built; over the whole process no provider and model is called before the end of its announced cooldown |
| `LlmClient.PausesHonoured` | ai-service/app/llm.py:402-489 | whenever a visit calls a provider again after it asked for a pause, the log shows that pause, or the longest wait, between the two calls |
| `LlmClient.FirstAnswerReturned` | ai-service/app/llm.py:402-493 | an invocation fails only if no provider ever answered; otherwise it ends at the only answer and returns that |
| `LlmClient.SoundExhaustion` | ai-service/app/llm.py:140-147 | recording an exhaustion keeps every earlier cooldown remembered or over |
| `LlmClient.SoundDrop` | ai-service/app/llm.py:149-157 | dropping an expired entry forgets no running cooldown |
| `IssueFamilies.StandingHigh` | ai-service/app/services/quality_scoring.py:339-349 | a group stands at high exactly when a high issue was reported in it, and at medium exactly when a medium one was and no high one |
| `IssueFamilies.StandingLow` | ai-service/app/services/quality_scoring.py:339-349 | without unrated severities, a group stands at low exactly when only low issues were reported |
| `QualityScore.OrderIrrelevantIffSettled` | ai-service/app/services/quality_scoring.py:322-349 | the severities of all groups come out the same in every order of the issues if and only if no group mixes low and unrated issues without a higher one |
| `QualityScore.TallyIgnoresOrderIff` | ai-service/app/services/quality_scoring.py:322-375 | the counts that enter the score are the same in every order if and only if no group the score counts mixes them so |
| `QualityScore.ScoreIgnoresOrderIff` | ai-service/app/services/quality_scoring.py:322-404 | the score itself is the same in every order, for all components, if and only if no counted group mixes them or the penalty is at its limit even when every mixed group goes uncounted |
| `QualityScore.ScoreIgnoresOrder` | ai-service/app/services/quality_scoring.py:322-404 | where no counted group mixes them, reordering the issues changes neither counts nor score |
| `QualityScore.UnratedIssueRaisesScore` | ai-service/app/services/quality_scoring.py:322-404 | otherwise it can: an issue without a rating put before a low one of its group raises the score from 0.99 to 1 |
| `QualityScore.UnratedExample` | ai-service/app/services/quality_scoring.py:322-404 | such issues exist: two issues of one unlisted rule on one story, one low and one without a severity |
| `QualityScore.AppendingNeverRaises` | ai-service/app/services/quality_scoring.py:322-404 | reporting one more issue never raises the score, with component scores fixed |
| `QualityScore.InsertingTally` | ai-service/app/services/quality_scoring.py:322-375 | an issue put in anywhere leaves the counts no better if and only if it does not mask its group: unrated, before every other issue of a counted group that stands at low; masking takes that one low group out of the count |
| `QualityScore.AddingRaisesIff` | ai-service/app/services/quality_scoring.py:322-404 | adding an issue raises the score for some components if and only if it masks its group and the remaining penalty is below the limit |
| `QualityScore.AddingNeverRaises` | ai-service/app/services/quality_scoring.py:322-404 | one more issue in any order of the result does not raise the score when no counted group mixes low and unrated issues |
| `QualityScore.OverallInRange` | ai-service/app/services/quality_scoring.py:377-404 | with components in [0,1] the score is in [0,1] and under the lowest applicable cap: 0.59, 0.79 or 0.89 |
| `QualityScore.OverallAntitone` | ai-service/app/services/quality_scoring.py:377-404 | more defects at each severity or above never give a higher score |
| `QualityScore.Count` | ai-service/app/services/quality_scoring.py:322-375 | the loops count exactly the groups of each severity that no component represents, the reportable high groups, and the degraded flag |
| `ScoreLaws.InsertedCounts` | ai-service/app/services/quality_scoring.py:322-375 | an issue put in anywhere moves only its own group, from where it stood to where it stands; groups of the five component-owned families never enter the three penalty counts, informational ones no count at all |
| `ScoreLaws.RepresentedCostsNothing` | ai-service/app/services/quality_scoring.py:360-396 | a defect of one of the five families a component represents, put in anywhere, leaves the high, medium and low counts and the score as they were, except that the score is at most 0.89 if and only if its group now stands at high |
| `ScoreLaws.InformationalCostsNothing` | ai-service/app/services/quality_scoring.py:353-375 | complementary remarks and diagnostic notes change no count |
| `ScoreLaws.ComplementaryCostsNothing` | ai-service/app/services/quality_scoring.py:353-355 | an issue whose rule mentions complementary in any letter case changes no count |
| `ScoreLaws.RepeatedCostsNothing` | ai-service/app/services/quality_scoring.py:339-349 | a defect already reported at high is counted no further |
| `ScoreLaws.NewDefectCounts` | ai-service/app/services/quality_scoring.py:353-375 | the first report of any other defect adds one to exactly the count of its severity |
| `ScoreLaws.NewHighScores` | ai-service/app/services/quality_scoring.py:377-396 | with a new high defect of such a family the score is what the components earn less a penalty with a further 0.15, between zero and 0.59 |
| `ScoreLaws.SingleIssueScores` | ai-service/app/services/quality_scoring.py:377-396 | a single such defect costs 0.15 and limits the score to 0.59 at high, 0.05 and 0.79 at medium, 0.01 at low, and nothing when unrated |
| `ScoreLaws.DegradedLimits` | ai-service/app/services/quality_scoring.py:397-404 | degraded generation limits the score to 0.89 |
| `ScoreLaws.ComponentsWeigh` | ai-service/app/services/quality_scoring.py:377-386 | without issues the score moves with groundedness, traceability, completeness, criteria quality and duplicate risk by 0.30, 0.25, 0.15, 0.20 and -0.10, from zero to one |
| `ScoreLaws.SpelledIff` | ai-service/app/services/quality_scoring.py:334-335 | a severity is read in any letter case |
| `QualityScore.ComputeScore` | ai-service/app/services/quality_scoring.py:218-416 | the stepwise penalties and successive caps give the score defined with the single lowest cap, whose laws `ScoreLaws` states family by family, and the high count is the number of reportable high groups |
| `ComponentScores.GroundednessRange` | ai-service/app/services/quality_scoring.py:44-64 | groundedness is in [0,1], at most 0.8 when review is needed, and otherwise at least that of the best evidence |
| `ComponentScores.GroundednessIs` | ai-service/app/services/quality_scoring.py:44-64 | without a review, groundedness is the best measured support within the unit interval; where none is positive it is 0.5 for evidence without a quote score and zero otherwise |
| `ComponentScores.ReviewTakesAFifth` | ai-service/app/services/quality_scoring.py:62-63 | a needed review takes a fifth of it away |
| `ComponentScores.MeanRange` | ai-service/app/services/quality_scoring.py:218-226 | the mean groundedness is in [0,1] |
| `ComponentScores.NeverAllDuplicates` | ai-service/app/services/quality_scoring.py:194-215 | fewer requirements are counted as duplicates than there are |
| `ComponentScores.NoDuplicatesIffApart` | ai-service/app/services/quality_scoring.py:194-215 | none is counted if and only if no two requirements with tokens are close |
| `ComponentScores.CloseIff` | ai-service/app/services/quality_scoring.py:202-209 | two token sets are close if and only if nine tenths of all tokens are shared, or both have four and 0.82 of those of one side are |
| `ComponentScores.DuplicatesCount` | ai-service/app/services/quality_scoring.py:194-215 | the count is the number of requirements close to an earlier one |
| `ComponentScores.CloseSymmetric` | ai-service/app/services/quality_scoring.py:203-210 | being close does not depend on which requirement comes first |
| `ComponentScores.CountDuplicates` | ai-service/app/services/quality_scoring.py:194-215 | the nested loops count the requirements close to an earlier one |
| `PublicIssues.Reconcile` | ai-service/app/nodes/format.py:100-138 | grouping in one pass and then writing rows gives the specified public list; an issue outside the schema fails it |
| `PublicIssues.OneRowPerGroup` | ai-service/app/nodes/format.py:100-138 | exactly one row for each item and root cause reported, complementary remarks aside, at the highest severity reported for it |
| `PublicIssues.ChampionIs` | ai-service/app/nodes/format.py:109-118 | the row is taken from the first issue of the highest severity |
| `PublicIssues.DetailsExact` | ai-service/app/nodes/format.py:119-120 | each different non-empty detail of the group is kept once |
| `PublicIssues.RowTells` | ai-service/app/nodes/format.py:119-137 | every detail reported about a defect can be read in its public row, unless the row is the standard sentence for a high defect of evidence |
| `PublicIssues.JoinAppend` | ai-service/app/nodes/format.py:133-135 | details are joined with one blank between them |
| `PublicIssues.ReconcilingTwice` | ai-service/app/nodes/format.py:100-138 | reconciling the public list again changes nothing |
| `PublicIssues.HighRowsMatchScore` | ai-service/app/nodes/format.py:100-138 | its non-diagnostic high rows number exactly the scorer's high-severity count for the same issues |
| `SourceRefs.DedupeSourceRefs` | ai-service/app/nodes/format.py:66-90 | the in-place pass over positions keeps, for each passage, the specified citation |
| `SourceRefs.OneRefPerPassage` | ai-service/app/nodes/format.py:66-90 | one citation for each passage cited, in the order first cited: the first given of those that none exceeds in confidence |
| `SourceRefs.SamePassageIff` | ai-service/app/nodes/format.py:71-79 | citations of recordings are one passage only within one chunk, those of documents whatever their chunk, given equal type, source, document and quote |
| `SourceRefs.KeptExactly` | ai-service/app/nodes/format.py:66-90 | no two citations kept are of one passage, each was given, and each given has one kept for its passage that is at least as confident |
| `SourceRefs.KeysInOrder` | ai-service/app/nodes/format.py:80-85 | further citations only add passages at the end |
| `Stories.DedupeConserves` | ai-service/app/nodes/generate.py:711-755 | a kept story carries exactly the requirement ids, labels and evidence keys of the stories merged into it, and its priority rank and points are the maxima of theirs |
| `Stories.MergeTidy` | ai-service/app/nodes/generate.py:741-754 | what is merged in is listed after what was there, nothing twice, and the priority changes only to a strictly higher one |
| `Stories.DedupeTidy` | ai-service/app/nodes/generate.py:711-755 | where no story lists a link, label or citation twice, no kept one does |
| `Priorities.PriorityOrder` | ai-service/app/nodes/dedupe_requirements.py:54-54 | Low, Medium, High and Critical rank in this order, anything else with Medium |
| `Stories.LinksConserved` | ai-service/app/nodes/generate.py:711-755 | the union of linked requirement ids is unchanged |
| `Stories.MergedOnlyWhenLinked` | ai-service/app/nodes/generate.py:711-730 | a story founds a kept one or shares a requirement with an earlier story merged into the same one; wording alone never merges |
| `Stories.FounderKeepsText` | ai-service/app/nodes/generate.py:711-755 | a kept story has the id, text and criteria of the story that founded it |
| `Stories.SecondPassIff` | ai-service/app/nodes/generate.py:711-755 | a second pass changes nothing if and only if no two stories that went to different kept ones share a requirement while the founders of those read alike; otherwise it shortens the list |
| `Stories.UnchangedIff` | ai-service/app/nodes/generate.py:711-755 | a list is left alone exactly when no later story duplicates an earlier one |
| `Stories.OnePassIsNotEnough` | ai-service/app/nodes/generate.py:711-755 | one pass can leave duplicates: three stories of one title, the third linking the first two, with the similarity of the service |
| `StoryDedupe.DedupeStories` | ai-service/app/nodes/generate.py:711-755 | the in-place pass over story objects ends with the values the specification gives |
| `StoryDedupe.StoryRecord.Absorb` | ai-service/app/nodes/generate.py:741-754 | absorbing a story unites ids, labels and evidence, takes the higher priority and points, and changes nothing else |
| `Coverage.RebuildCoverages` | ai-service/app/nodes/generate.py:621-708 | the loop returns the specified rows |
| `Coverage.RebuiltExact` | ai-service/app/nodes/generate.py:621-708 | one row for each requirement, in order; every story row names a story that lists the requirement, with exactly its criteria |
| `Coverage.RowExact` | ai-service/app/nodes/generate.py:633-707 | a requirement has a story row if and only if it is meant for a story and some story lists it; the row names the first that does |
| `Coverage.EarlierRowStays` | ai-service/app/nodes/generate.py:627-642 | a requirement taken out of the stories before keeps the last row that said so |
| `Coverage.WhyNoStory` | ai-service/app/nodes/generate.py:633-707 | each reason for having no story is given exactly in its own case: decided against, labelled not to build, undecided, without evidence, or with evidence but in no story; with the kind that belongs to it |
| `Coverage.RebuildingTwice` | ai-service/app/nodes/generate.py:621-708 | with distinct requirement ids, rebuilding from the rebuilt rows changes nothing |
| `PublicCoverage.MapCoverage` | ai-service/app/nodes/format.py:784-822 | the loop over maps and seen lists yields the specified public rows |
| `PublicCoverage.RowsNameEmitted` | ai-service/app/nodes/format.py:784-822 | every emitted coverage row names only emitted requirements, stories and criteria, each story and criterion once |
| `PublicCoverage.PublicStoriesExact` | ai-service/app/nodes/format.py:796-806 | a row names exactly the stories its internal ids lead to |
| `PublicCoverage.LeadsTo` | ai-service/app/nodes/format.py:796-806 | an internal id leads to the code of the first story bearing it; any other to itself if it is an emitted code, and to nothing otherwise |
| `PublicCoverage.PublicInOrder` | ai-service/app/nodes/format.py:796-815 | further ids add stories and criteria at the end |
| `PublicCoverage.RowsKept` | ai-service/app/nodes/format.py:787-795 | the public rows are those of emitted requirements, in order and translated; exactly the others are left out |
| `PublicCoverage.RebuiltCoverageTranslated` | ai-service/app/nodes/format.py:517-822 | from rebuilt coverage to the public result, whether or not ids repeat: row for row; each story row has the criteria of the first story that lists the requirement, the code of the last requirement with its id, and the code of the first story with that id |
| `PublicCoverage.RebuiltCoverageFaithful` | ai-service/app/nodes/format.py:517-822 | with distinct ids each row names its own requirement, and each story row the very story that lists it |
| `Decimal.CodeInjective` | ai-service/app/nodes/format.py:517-519 | different positions have different codes |
| `Decimal.CodeReads` | ai-service/app/nodes/format.py:517-519 | a code is its prefix, a hyphen and at least three digits that stand for the number, padded to three only |
| `PublicCoverage.CodesNumbered` | ai-service/app/nodes/format.py:517-636 | codes are numbered from one: REQ-001, US-042, REQ-1000 |
| `WarningCodes.EntriesExact` | ai-service/app/nodes/format.py:519-522 | the table of public numbers holds each id once, with the number of its last requirement |
| `WarningCodes.SequentialIffNoClash` | ai-service/app/nodes/format.py:214-221 | rewriting codes one after another equals rewriting them all at once, in every message, if and only if no internal id is the public number of an earlier entry |
| `WarningCodes.TwoOneClashes` | ai-service/app/nodes/format.py:214-221 | clashes exist: with ids 2 and 1, REQ-002 becomes REQ-001 and then REQ-002 again |
| `WarningCodes.IncreasingNoClash` | ai-service/app/nodes/format.py:214-221 | strictly increasing ids from one upwards never clash |
| `WarningCodes.ReplaceRightIff` | ai-service/app/nodes/format.py:214-221 | for codes of any length, replacing the characters of one code rewrites exactly that code if and only if no other code with what follows it begins with its characters |
| `WarningCodes.ExtensionMisread` | ai-service/app/nodes/format.py:214-221 | a longer code that begins with the replaced one is such a misread wherever it stands |
| `WarningCodes.ThousandReadForHundred` | ai-service/app/nodes/format.py:214-221 | such codes exist: replacing REQ-100 damages REQ-1000 |
| `WarningCodes.ShortNotMisread` | ai-service/app/nodes/format.py:214-221 | three-digit codes are never read for each other |
| `WarningCodes.SequentialIsOneByOne` | ai-service/app/nodes/format.py:214-221 | as long as no step misreads a code, the loop over characters does what rewriting codes one after another does |
| `WarningCodes.AlwaysRightIff` | ai-service/app/nodes/format.py:214-221 | for codes of any length: after any number of replacements every message has exactly the codes replaced so far rewritten, if and only if no ids clash and every entry that rewrites anything is for an id below a hundred |
| `WarningCodes.StepRight` | ai-service/app/nodes/format.py:214-221 | a step leaves a message right if and only if it rewrites nothing or misreads no code |
| `WarningCodes.MessagesRightIff` | ai-service/app/nodes/format.py:192-223 | in messages with codes of up to three digits, every code comes out as its public one, with all other text unchanged, if and only if no ids clash |
| `WarningCodes.MessageRewritten` | ai-service/app/nodes/format.py:192-223 | in particular with increasing ids |
| `WarningCodes.RewriteMessage` | ai-service/app/nodes/format.py:214-221 | building the table and then the guarded replacements of the loop give the message after all replacements |
| `Bm25.BuildCorpusStats` | ai-service/app/rag/scoring.py:60-79 | the counting loops give document frequencies, inverse frequencies and the average length |
| `Bm25.DocFreqBounds` | ai-service/app/rag/scoring.py:66-72 | a term of the corpus occurs in at least one document and in no more than there are |
| `Bm25.IdfPositive` | ai-service/app/rag/scoring.py:74-77 | every term of the corpus has a positive weight, given a logarithm positive above one |
| `Bm25.WeightIs` | ai-service/app/rag/scoring.py:66-114 | the weight of a term, in the corpus or not, is the logarithm of (n + 1) / (d + 0.5) for n documents of which d contain it |
| `Bm25.RarerWeighsMore` | ai-service/app/rag/scoring.py:74-77 | with an increasing logarithm one term weighs more than another if and only if fewer documents contain it |
| `Bm25.ScoreAdds` | ai-service/app/rag/scoring.py:105-117 | a query scores the sum of what its parts score |
| `Bm25.EqualLengthsNeutral` | ai-service/app/rag/scoring.py:60-117 | where all documents are equally long, a token with f occurrences and weight w scores w * 2.5 f / (f + 1.5) |
| `Bm25.DenominatorIs` | ai-service/app/rag/scoring.py:115-116 | a length counts by three quarters in proportion to the average length |
| `Bm25.OftenerScoresHigher` | ai-service/app/rag/scoring.py:105-117 | in documents of one length a positively weighted term scores higher the oftener it occurs, and stays below K1 + 1 times its weight |
| `Bm25.LongerScoresLower` | ai-service/app/rag/scoring.py:105-117 | with equally many occurrences, the longer document scores lower |
| `Bm25.Bm25Score` | ai-service/app/rag/scoring.py:82-117 | the accumulating loops compute the sum of term contributions; an empty side scores zero |
| `Bm25.PositiveIffShares` | ai-service/app/rag/scoring.py:82-117 | a document of the corpus scores above zero if and only if it shares a token with the query |
| `LexicalRetriever.LexicalRetriever.Retrieve` | ai-service/app/rag/lexical_retriever.py:41-88 | there are positions, one for each result, such that the result is the chunk there with the score of its own tokens, above the minimum; best scores come first, equal ones in chunk order; a chunk scoring above the minimum is left out only when top_k better ones are returned; with a logarithm positive above one and minimum zero these are the chunks sharing a token with the query |
| `LexicalRetriever.UsableKept` | ai-service/app/rag/lexical_retriever.py:27-34 | chunks without usable text drop out and the others keep their order |
| `LexicalRetriever.TopIsTop` | ai-service/app/rag/lexical_retriever.py:59-67 | the answer is in strict order (score, then position), at most top_k long, all above the threshold, and leaves out a chunk above it only when full of better ones |
| `LexicalRetriever.AnswerShares` | ai-service/app/rag/lexical_retriever.py:41-88 | at minimum score zero it is exactly the first top_k, in stable descending score order, of the chunks sharing a token with the query |
| `HybridMerge.MergeHits` | ai-service/app/rag/hybrid.py:43-105 | building the merged records in a dictionary, updating those found by both kinds, and sorting gives the specified ranking |
| `HybridMerge.ScaledOrder` | ai-service/app/rag/hybrid.py:34-40 | scaling keeps the order of scores, never exceeds one, and makes exactly the best ones one |
| `HybridMerge.ScoreIsParts` | ai-service/app/rag/hybrid.py:43-102 | a merged score is the sum of what each kind adds, its weight in the proportion of the raw score to the best of that kind, and the boost if and only if both kinds name the id |
| `HybridMerge.PartsOrdered` | ai-service/app/rag/hybrid.py:34-102 | the best hit of a kind adds the whole weight, and a better one more than a worse one |
| `HybridMerge.RawIsLast` | ai-service/app/rag/hybrid.py:54-57 | the raw score of an id is the last one given for it |
| `HybridMerge.RankingIsUnion` | ai-service/app/rag/hybrid.py:43-105 | the ranking holds one record for each id in either kind of hits and no other, in descending score order |
| `HybridMerge.TiesInOrder` | ai-service/app/rag/hybrid.py:43-105 | records of equal score stay in the order their ids were first named, lexical hits before the others |
| `HybridMerge.RecordText` | ai-service/app/rag/hybrid.py:62-102 | a record has the text of its chunk, or where that is unknown or blank the text of the last lexical hit, or none |
| `HybridMerge.CutKeepsBest` | ai-service/app/rag/hybrid.py:104-105 | a record cut off never scores above one that is kept, and is cut only when the list is full |
| `SourceIndex.Registry.Build` | ai-service/app/rag/source_index.py:32-47 | building replaces an earlier index of the job, makes it the most recent, and evicts the oldest beyond 256 |
| `SourceIndex.Registry.Get` | ai-service/app/rag/source_index.py:52-57 | a lookup returns the registered index of the job, if any |
| `SourceIndex.Registry.Clear` | ai-service/app/rag/source_index.py:60-65 | clearing removes exactly that job |
| `SourceIndex.ApplyKeepsSound` | ai-service/app/rag/source_index.py:32-65 | every operation keeps one index for each job and no more than 256 |
| `SourceIndex.BuiltIsFound` | ai-service/app/rag/source_index.py:32-47 | right after a build the lookup returns that index |
| `SourceIndex.FoundIffNeverCrowded` | ai-service/app/rag/source_index.py:32-65 | after a build, and any operations on other jobs since, the job is found with that index if and only if at no moment 256 other jobs built since were registered |
| `SlidingWindow.ChunkText` | ai-service/app/nodes/parse_to_chunks.py:54-83 | the loop ends and returns the specified windows |
| `SlidingWindow.WindowEndIs` | ai-service/app/nodes/parse_to_chunks.py:64-75 | a window that reaches the end takes the rest; any other ends at its last space past 2400 characters, or at 3000 without one |
| `SlidingWindow.ChunksRejoin` | ai-service/app/nodes/parse_to_chunks.py:54-83 | every chunk is the slice at its offsets, cut at a late space or at full size where there is none; the first chunk and each later one without its first 500 characters give the text |
| `DocxChunks.ChunkParagraphs` | ai-service/app/nodes/parse_to_chunks.py:86-157 | the loop over paragraphs returns the specified chunks |
| `DocxChunks.ChunksStand` | ai-service/app/nodes/parse_to_chunks.py:86-157 | every chunk stands in the joined document where the paragraph that opened it begins; its recorded start falls short of that by two for each blank paragraph lost before, so it is right if and only if there is none |
| `DocxChunks.ChunkIsSlice` | ai-service/app/nodes/parse_to_chunks.py:86-157 | a chunk with no blank paragraph lost before it is the slice of the document at its offsets |
| `DocxChunks.ChunksAreSlices` | ai-service/app/nodes/parse_to_chunks.py:86-157 | where none is lost at all, every chunk is |
| `DocxChunks.LeadingBlankMisplaces` | ai-service/app/nodes/parse_to_chunks.py:86-157 | a blank first paragraph is lost: the text after it is recorded two characters too early |
| `DocxChunks.RejoinIffNothingLost` | ai-service/app/nodes/parse_to_chunks.py:86-157 | joined with blank lines the chunks are the document if and only if no blank paragraph came while no chunk was open (or the document is one blank paragraph) |
| `DocxChunks.TextLosesNothing` | ai-service/app/nodes/parse_to_chunks.py:86-157 | paragraphs with text lose nothing |
| `DocxChunks.ChunksClosed` | ai-service/app/nodes/parse_to_chunks.py:117-157 | every chunk but the last is closed by the paragraph that brings it to 3000 characters, and the last may be shorter |
| `PdfPages.ChunkPages` | ai-service/app/nodes/parse_to_chunks.py:36-51 | the loop returns a chunk for each page with something on it |
| `PdfPages.SplitJoins` | ai-service/app/nodes/parse_to_chunks.py:38-38 | splitting at form feeds is undone by joining, and leaves none in a page |
| `PdfPages.PagesStand` | ai-service/app/nodes/parse_to_chunks.py:40-49 | every page stands in the text at its running offset |
| `PdfPages.PagesInOrder` | ai-service/app/nodes/parse_to_chunks.py:36-51 | chunks come in the order of their pages, one for each page with something on it, numbered from one, with its stripped text |
| `PdfPages.ChunksOfPages` | ai-service/app/nodes/parse_to_chunks.py:36-51 | a page chunk is the text at its recorded offsets if and only if the page does not begin with a blank |
| `PdfPages.IndentedPageMisplaced` | ai-service/app/nodes/parse_to_chunks.py:43-49 | such pages exist: the chunk of an indented page is not the text at its offsets |
| `Stripping.StripIs` | ai-service/app/nodes/parse_to_chunks.py:43-43 | stripping removes exactly the blanks at both ends |
| `Luhn.IsLuhnValid` | ai-service/app/nodes/ingest.py:116-129 | the loop over reversed digits decides validity of the digits of the text |
| `Luhn.DigitsKept` | ai-service/app/nodes/ingest.py:117-118 | characters that are no digits make no difference, and digits keep their order |
| `Luhn.CheckDigitUnique` | ai-service/app/nodes/ingest.py:116-129 | exactly one final digit completes each prefix |
| `Luhn.SingleChangeDetected` | ai-service/app/nodes/ingest.py:116-129 | changing one digit of a valid number makes it invalid |
| `Luhn.SwapDetected` | ai-service/app/nodes/ingest.py:116-129 | swapping neighbours of a valid number leaves it valid if and only if they are equal or 0 and 9 |
| `Pipeline.RouteQualityGate` | ai-service/app/graph/router.py:26-59 | the nested loops route to repair exactly when repair is enabled, attempts remain and a repairable issue mentions a story |
| `Pipeline.EveryRunFormats` | ai-service/app/graph/pipeline.py:45-85 | a run from zero attempts executes at most 12 + 2 * max(0, MAX_REPAIR_ATTEMPTS) nodes; it is over exactly when it has formatted, which it has done once |
| `Pipeline.CompleteRunLength` | ai-service/app/graph/pipeline.py:45-85 | a complete run executes three nodes, or twelve and two more for each repair, and repairs are the rise in attempts |
| `Pipeline.ShortRunIff` | ai-service/app/graph/router.py:5-12 | a complete run has three nodes if and only if preparing the sources failed, found them useless, or left no chunk |
| `Pipeline.RepairsIff` | ai-service/app/graph/router.py:26-59 | a quality gate is followed by a repair if and only if repair is enabled, fewer repairs than allowed were made in the run, and a repairable story issue mentions a story; otherwise by the summary |
| `Pipeline.RouterAgrees` | ai-service/app/nodes/repair_stories.py:77-119 | where every story has an id, the router asks for a repair of exactly what the repair step finds to do |
| `Pipeline.StepDecreases` | ai-service/app/graph/router.py:26-59 | every step uses up one of the executions left, and a repair is only started with attempts remaining |
| `Repair.RepairStories` | ai-service/app/nodes/repair_stories.py:77-257 | the loops over issues, proposals and stories give the specified state |
| `Repair.RepairKeepsIds` | ai-service/app/nodes/repair_stories.py:167-206 | the stories keep their ids and order |
| `Repair.ProposalsReachStories` | ai-service/app/nodes/repair_stories.py:167-206 | a story with a proposal gets its title, description and labels where not blank, and its criteria with ids of their own, before the clean-up; one without is only cleaned up |
| `Repair.RepairLosesNoIssue` | ai-service/app/nodes/repair_stories.py:220-249 | every issue stays open or is added to the resolved ones, and only a repairable one mentioning a repaired story is resolved |
| `Repair.IssuesInOrder` | ai-service/app/nodes/repair_stories.py:220-241 | open and resolved issues stay in the order they were reported in |
| `Repair.RepairCoverage` | ai-service/app/nodes/repair_stories.py:207-218 | after a repair each story row of the coverage names one of the repaired stories |
| `Repair.ResolvedIff` | ai-service/app/nodes/repair_stories.py:220-235 | an issue naming a repaired story is resolved; one naming a story that was not repaired is resolved all the same if and only if the id of another repaired story occurs in its details |
| `Repair.GeneratedResolvedIff` | ai-service/app/nodes/repair_stories.py:220-235 | with generated ids, an issue naming story m is resolved if and only if a repaired story has number m or m without its last digits |
| `Repair.OneLengthResolvesOwn` | ai-service/app/nodes/repair_stories.py:220-235 | with numerals of one length, exactly the issues of repaired stories are resolved |
| `Repair.TenthResolvedForFirst` | ai-service/app/nodes/repair_stories.py:220-235 | otherwise not: repairing story 1 resolves an issue about story 10 |
| `Decimal.PrefixIffShortened` | ai-service/app/nodes/generate.py:1051-1051 | one numeral begins another if and only if its number is the other without its last digits |
| `Fingerprint.NormalizeDocuments` | ai-service/app/services/fingerprint.py:56-82 | collecting and sorting gives the canonical list |
| `Fingerprint.OrderFreeIffSeparate` | ai-service/app/services/fingerprint.py:56-82 | the canonical list is independent of the order of documents if and only if documents with the same sort key are the same |
| `Fingerprint.MissingAndEmptyTie` | ai-service/app/services/fingerprint.py:56-82 | two documents that differ in a missing against an empty type do not: their order shows |
| `Fingerprint.FilledSeparate` | ai-service/app/services/fingerprint.py:56-82 | they do whenever no document field is an empty text |
| `Fingerprint.CanonicalKeepsEntries` | ai-service/app/services/fingerprint.py:56-82 | equal canonical lists mean equal multisets of normalized documents |
| `Fingerprint.EntryTells` | ai-service/app/services/fingerprint.py:56-75 | a storage key hides the file address and a hash the SHA-256 field, each of which counts only where the other is not given |
| `Fingerprint.RequesterTells` | ai-service/app/services/fingerprint.py:114-118 | the user makes a difference if and only if no requester is given |
| `Fingerprint.LineEndsIgnored` | ai-service/app/services/fingerprint.py:36-39 | lines ended in any mixture of the three line ends normalize to the same lines ended in line feeds if and only if no carriage return stands before an empty line that ends in a line feed |
| `Fingerprint.NormalizeStripsFirst` | ai-service/app/services/fingerprint.py:36-39 | normalizing line ends and stripping can be exchanged |
| `Fingerprint.OuterBlanksIgnored` | ai-service/app/services/fingerprint.py:36-39 | blanks around the content make no difference |
| `Fingerprint.SameNormalIff` | ai-service/app/services/fingerprint.py:36-39 | two contents normalize alike if and only if they are the same lines but for line ends and blanks around |
| `Fingerprint.ReorderedSameEntries` | ai-service/app/services/fingerprint.py:56-82 | reordering documents keeps what identifies them |
| `Fingerprint.SameJobSamePayload` | ai-service/app/services/fingerprint.py:100-122 | requests differing only in job id, retry flag, callback, priority, document order, content line ends and outer blanks have the same payload, provided documents sort apart |
| `Fingerprint.SamePayloadSameJob` | ai-service/app/services/fingerprint.py:100-122 | with a digest free of collisions, equal payloads mean requests that differ in nothing else |
| `Fingerprint.SamePayloadMeans` | ai-service/app/services/fingerprint.py:100-122 | with any digest, equal payloads mean the same owner, requester, input type, options and multiset of documents, and content of equal digest |
| `Sorting.StableSortIsUnique` | ai-service/app/rag/lexical_retriever.py:66-67 | the library sort is characterized: a rearrangement that is ordered and keeps ties in order is the one the model computes |

## Left out

- Network, HTTP, uploads, logging, prompts, configuration and start-up checks: input and output without a property of their own.
- LLM, speech and embedding calls: their replies are arbitrary inputs.
- Text rules (normalization, token sets, actor and intent matching, numeric constraints, titles and word sets of stories, quote normalization, tokenization): arbitrary functions given to the model.
- `evidence_grounding.py` and `retrieve_evidence.py`: their decisions rest on text scoring that is arbitrary here.
- The demo path `get_or_create_job`: it reads and then writes without a lock and is not part of the protocol.
- Job rows in the protocol: one job id at a time; events, progress mirrors and result rows are not modelled. A worker may write any status but QUEUED at any time, which is more than the real worker does.
- `JobProtocol.CancelledWhileQueuedOverlaps`: states that two attempts can be live; what the two workers then do to each other's results is not modelled.
- `_batch_candidates_by_tokens`: it counts only new text for a batch, so its size bound is not a theorem; not modelled.
- `_find_jaccard_candidates`: simpler than the semantic selection, and without its bound on pairs per requirement.
- `ConflictPairs.FindSemanticCandidates`: identifies pairs by position and id; two requirements with one id count together, as in the source.
- `CanonicalStability.SecondPassKeepsAllIff`: between the passes text, actor, goal, disposition, evidence and ids stay; a step that changes these is not modelled.
- `LlmClient.Process.Invoke`: one call at a time; the concurrency gates and the asynchronous variant, which has the same logic, are not modelled separately. The time of a call is the clock reading before it.
- `LlmClient.RetryDelayBounds`: the date form of the Retry-After header is an arbitrary optional delay.
- `QualityScore.ComputeScore`: takes the component scores as inputs; of these only groundedness and duplicate requirements are modelled, in `ComponentScores`. The final rounding is not modelled.
- `IssueFamilies.StandingHigh`: lower-cases ASCII letters only; no other character lower-cases into the words compared.
- `PublicIssues.Reconcile`: models issues as records; a dictionary outside the schema fails the list, as the schema class does.
- `Repair.GeneratedResolvedIff`: for details that name one story of the job, however often; `ResolvedIff` covers the rest.
- `Repair.RepairStories`: looks for story ids in list order; the source goes through a set, which differs only when a story has a blank id.
- `Repair.RepairKeepsIds`: assumes that the clean-up after repair keeps the id of a story, as the source's does; the clean-up itself is arbitrary.
- `Pipeline.EveryRunFormats`: a run in which a node raises is not a run here, and the step limit of the graph library (60) is not modelled.
- The link from a story to its requirement in the public result falls back to REQ-001 when the requirement is unknown, so nothing is claimed about it.
- `WarningCodes.MessagesRightIff`: codes of at most three digits; `AlwaysRightIff` has no such bound but speaks of every step, not of the last one alone.
- `WarningCodes.RewriteMessage`: the branch for warnings that carry unresolved ids builds a new message and is not modelled; ids are not negative.
- `HybridMerge.MergeHits`: page, speaker and timestamp of a hit are copied along in the source and not modelled.
- `LexicalRetriever.LexicalRetriever.Retrieve`: returns chunk and score; the other fields of a chunk are copied along.
- `SourceIndex.Registry.Build`: the lock is taken around each operation, so operations are atomic here.
- `DocxChunks.ChunkParagraphs`: headings and sections of a chunk are not modelled.
- `PdfPages.ChunkPages`: chunk identifiers are not modelled, here and in the other chunkers.
- `Luhn.IsLuhnValid`: which characters are decimal digits is given; characters that count as digits without a decimal value (superscripts), for which the conversion raises, are not modelled and do not match the pattern of the caller.
- `Fingerprint.SameJobSamePayload`: the digest and the canonical JSON text are taken as functions of the payload.
- Packing of summaries and audio, generation batches, file-signature checks and progress percentages: easy members only.

# Checked laws of the Model Atlas evaluation tooling

Model Atlas decides whether a retrieval method, an assistant prompt or a release package is good
enough by running small deterministic programs over recorded evidence: a greedy selector, a batching
scorer, an experiment gate, byte-stream and manifest parsers, a JSON comparison, plan scoring, a veto
audit and a workflow driver. This project models those programs in Dafny and proves what their
aggregates and verdicts mean, for every input.

Verify everything with `dafny verify dfyconfig.toml`.

## What is modelled

| file | program |
|---|---|
| `Ranker.dfy`, `RankerLaws.dfy` | `select_top` and the greedy maximal-marginal-relevance loop |
| `Scoring.dfy` | `OnnxRanker.score`: flatten, batch by eight, pad, scatter; and the replay check of saved records |
| `Gate.dfy`, `GateLaws.dfy`, `GateRun.dfy` | the score layers, the gate of the completeness experiment, and the trial loop that feeds it |
| `StagedBlobs.dfy`, `StagedBlobLaws.dfy` | the reader of `git ls-files` rows and `git cat-file --batch` frames, and the publication audit |
| `Manifest.dfy`, `ManifestLaws.dfy` | package validation, manifest parsing, and the second pass after extraction |
| `Json.dfy`, `WorkflowExport.dfy` | `same_json` and the verifier of workflow downloads |
| `PlanText.dfy`, `Evaluation.dfy` | canonical action texts, plan scoring, the nearest-rank percentile and the distinct-trials metric |
| `Veto.dfy` | `recompute`, `independent_reason` and the two-policy counting loop |
| `Driver.dfy` | `exercise` against a service that may answer anything |
| `Wrappers.dfy`, `Text.dfy`, `Order.dfy`, `Sorting.dfy`, `Seqs.dfy` | results with errors, Python substring search, string order and `sorted`, list comprehensions and their independence of order |

Every specification function has a law that says what it means on the inputs themselves, with the
constants of the source written out. Code that loops, updates or drives an object is a method or a class
proved against a specification function; the laws are lemmas about that function. Scores, similarities
and latencies are exact reals. The sigmoid, the hash, case folding, UTF-8 decoding, the JSON reader, the
tokenizer, the model session and the assistant service are parameters, so each result holds for whatever
they do, under the hypothesis named in the contract.

Five results are about where the code falls short of an expectation:

- A test of the ranker expects the greedy loop at weight 1 to be plain ranking. It is, except when two
  scores share one relevance and the ids order them the other way, whether the clamp at +-700 merges
  them or a sigmoid that is flat between them, as the one computed in doubles is above about 37.
  `WeightOneIsTopIff` gives the exact condition for each k, `MergedScoresReorderTop` an input for every
  merged pair of scores.
- Winning objective values never increase from the second pick on, but the accepted slack of -1e-6 in
  a similarity can raise the second value above the first. `SecondPickGain` bounds the rise,
  `NeverIncreasesIff` says for which matrices and weights it cannot happen.
- The replay guard checks that each chunk's score is the maximum of its window scores and nothing else
  about them: `LowerScoreIsUnchecked` alters a lower score, even to a NaN, in an accepted record, and
  `ReplacedWindowsAcceptedIff` says exactly which replacements go unnoticed.
- The gate verdict does not depend on row order, but the reported list of paired regressions can when
  a candidate trial is duplicated (`RegressionsDependOnOrder`). Which trials are reported, and how often,
  is the same for every order if and only if duplicates of a candidate trial make equally many baseline
  rows regress (`ReportIgnoresOrderIff`).
- The audit's two blocked counters do not always explain the drop in accepted calls: a vetoed call
  that differs by a default alone is in neither. `BlockedCountersMissVetoedDefault` shows such a journal,
  `BlockedCountersExplainDropIff` gives the exact condition.

## Model

| member | source | states |
|---|---|---|
| RankerLaws.MmrPicksAreBest | experiments/retrieval_research/ranker.py:45-56 | each pick of the answer is new, has the greatest objective among everything left, and wins ties by the smaller id; selected and remaining partition the sources |
| RankerLaws.MmrPrefix | experiments/retrieval_research/ranker.py:47-56 | the answer for k is a prefix of the answer for any larger budget |
| RankerLaws.PicksMaximise | experiments/retrieval_research/ranker.py:49-56 | written out on weight, relevance and similarities: nothing left at a pick has a greater weighted relevance less weighted greatest similarity to the earlier picks, the smaller id winning ties |
| RankerLaws.PoolIs | experiments/retrieval_research/ranker.py:45-51 | the loop reads the given ids, weight and similarities, and the scores clamped to +-700 through the sigmoid |
| RankerLaws.MmrProblemIs | experiments/retrieval_research/ranker.py:17-44 | which objection `select_mmr` raises, first objection first, with its bounds written out |
| RankerLaws.SelectTopIs | experiments/retrieval_research/ranker.py:25-29 | `select_top` raises the first objection, or returns the k highest scores in order, smaller ids first among equals |
| Order.LessIff | experiments/retrieval_research/ranker.py:29-29 | Python's string order: after a common prefix a string ends first or goes on with a smaller character |
| Ranker.GreedyLoop | experiments/retrieval_research/ranker.py:46-56 | the loop over `selected` and `remaining`, scanning the set in any order, returns the unique greedy run of min(k, n) picks |
| Ranker.SelectMmr | experiments/retrieval_research/ranker.py:32-56 | the first validation problem in source order, or the greedy run over the clamped and transformed scores |
| Ranker.Winner | experiments/retrieval_research/ranker.py:53-53 | the index ahead of all other remaining ones by objective and then id, whatever the iteration order |
| Ranker.GreedyRunsAgree | experiments/retrieval_research/ranker.py:47-56 | unique ids leave no choice: two runs satisfying the greedy property agree |
| Ranker.TopIsTopRun | experiments/retrieval_research/ranker.py:25-29 | the sorted prefix of `select_top` is the run of repeated minima under (-score, id) |
| RankerLaws.SelectMmrIgnoresInputOrder | experiments/retrieval_research/ranker.py:32-56 | permuting sources, scores and both matrix axes gives the same error or the same ids in the same selection order |
| RankerLaws.SelectTopIgnoresInputOrder | experiments/retrieval_research/ranker.py:25-29 | permuting sources and scores gives the same error or the same ids in the same order |
| RankerLaws.WeightOneIsTopIff | experiments/retrieval_research/ranker.py:25-56 | at weight 1 the greedy answer equals `select_top` exactly when the relevance lets every answer keep its lead; for a relevance that never contradicts the scores, exactly when no top-k score shares its relevance with a lower score of smaller id |
| RankerLaws.RelevanceFollows | experiments/retrieval_research/ranker.py:45-45 | clamping and then any non-decreasing sigmoid gives a relevance that never contradicts the scores |
| RankerLaws.WeightOneIsTopWhenStrict | experiments/retrieval_research/ranker.py:25-56 | when the transform is strictly increasing on the supplied scores the two selections agree, ties included |
| RankerLaws.MergedScoresReorderTop | experiments/retrieval_research/ranker.py:45-45 | any two scores given one relevance, under ids "b" and "a": `select_top` picks the higher, the greedy loop the other |
| RankerLaws.SaturationReordersTop | experiments/retrieval_research/ranker.py:45-45 | the clamp alone does that to 702 and 701, whatever the sigmoid |
| RankerLaws.WinningValuesNeverIncrease | experiments/retrieval_research/ranker.py:49-51 | from the second pick on, later winning values are never greater than earlier ones |
| RankerLaws.SecondPickGain | experiments/retrieval_research/ranker.py:39-51 | the second winning value exceeds the first by at most the weighted negative similarity, hence by at most (1 - weight) * 1e-6 on accepted matrices |
| RankerLaws.NeverIncreasesIff | experiments/retrieval_research/ranker.py:39-51 | a matrix and weight guarantee never-increasing values for all ids and relevances if and only if the weight is 1 or no two different sources have negative similarity |
| Scoring.Score | experiments/retrieval_research/ranker.py:133-165 | for a row-wise session that ignores padding, equal to scoring every window of every chunk by itself, errors included; any returned record passes the replay check when chunks have 1 to 8 windows |
| Scoring.PerWindowIs | experiments/retrieval_research/ranker.py:133-165 | what is scored, written out: title, newline and text of each source are tokenized, each window gets its own score, counts and maxima are those of the scores; or which error comes first |
| Scoring.PaddedRowsAre | experiments/retrieval_research/ranker.py:145-157 | each row of a batch is its window followed by zeros up to the longest window |
| Scoring.ScatterUndoesFlatten | experiments/retrieval_research/ranker.py:137-162 | scattering the scores of the flattened windows returns to each chunk its own scores in order |
| Scoring.ScoreBatches | experiments/retrieval_research/ranker.py:142-162 | after all batches each chunk's bucket holds the values of its labels, none lost or misassigned across batch borders |
| Scoring.RowModelScoresRowByRow | experiments/retrieval_research/ranker.py:145-160 | a model of single rows that does not see padding meets the session assumption |
| Scoring.ReplayAcceptsIff | experiments/retrieval_research/run.py:270-281 | the replay guard accepts exactly the saved records with one to eight window scores per chunk, counted correctly, of which the chunk's score is the maximum as Python computes it, NaN and infinities included |
| Scoring.ReplacedWindowsAcceptedIff | experiments/retrieval_research/run.py:270-281 | in an accepted record a chunk's window scores may be replaced exactly by as many others with the same maximum |
| Scoring.LowerScoreIsUnchecked | experiments/retrieval_research/run.py:270-281 | a score below the maximum can be any float, NaN included, without being noticed |
| Scoring.ComputedRecordReplaysIff | experiments/retrieval_research/run.py:270-281 | a computed record is accepted when read back exactly when it is the summary of its own one to eight window scores per chunk |
| Gate.ScoreLayers | experiments/personal_assistant_path_grounding/run.py:51-57 | both layers leave the decision unscored exactly when the case specifies none; validity, match and correct decision each hold exactly when the draft parses, conforms and carries no error flag |
| Gate.Summarize | experiments/personal_assistant_completeness/run.py:55-153 | the loops fill both arms' cells, the pairing dictionary and the regressions as the specification says, and report the gate; each of the ten counters is the number of rows of its cell with the recorded field |
| Gate.StatsAreCounted | experiments/personal_assistant_completeness/run.py:60-84 | each of the ten counters of a cell counts the rows of that arm and split in which the named field says so |
| GateLaws.CoverageIs | experiments/personal_assistant_completeness/run.py:97-105 | coverage, written out: every planned arm, split, case and seed has a row, every row is planned, none is there twice |
| GateLaws.RegressionsAre | experiments/personal_assistant_completeness/run.py:106-126 | the reported regressions are, in row order, the trials of the baseline rows that did better than the last candidate row of the same trial |
| GateLaws.CoverageIsExactlyOnce | experiments/personal_assistant_completeness/run.py:97-105 | set equality plus length means every expected arm/split/case/seed occurs exactly once and nothing else occurs |
| GateLaws.CellCleanIff | experiments/personal_assistant_completeness/run.py:60-84 | a cell's counts satisfy the gate exactly when every row of the cell is faultless |
| GateLaws.GateMeaning | experiments/personal_assistant_completeness/run.py:106-145 | under coverage the gate is a statement about single rows: no pair regresses, all candidate rows are faultless, and the candidate matches more positives |
| GateLaws.GateIgnoresOrder | experiments/personal_assistant_completeness/run.py:97-145 | the verdict is the same for every permutation of any row list, duplicates and gaps included |
| GateLaws.ReportIgnoresOrderIff | experiments/personal_assistant_completeness/run.py:106-126 | every order of the rows reports the same trials equally often if and only if the candidate rows of each trial make equally many baseline rows regress |
| GateLaws.RegressionsDependOnOrder | experiments/personal_assistant_completeness/run.py:106-126 | with a duplicated candidate trial the reported regressions are non-empty in one order and empty in another |
| GateLaws.RegressionClauseIsRedundant | experiments/personal_assistant_completeness/run.py:109-142 | with coverage, clean candidate cells and rows that follow their cases, the regression list is empty |
| GateLaws.GateCharacterisation | experiments/personal_assistant_completeness/run.py:55-153 | the gate opens if and only if each expected key occurs once, every candidate row is faultless, and some baseline positive row is wrong |
| GateRun.RunTrials | experiments/personal_assistant_completeness/run.py:258-304 | the nested trial loop appends one row per split, seed, case and arm, scored by the layers |
| GateRun.RunRecords | experiments/personal_assistant_completeness/run.py:258-304 | every row of a run carries the flags and scores of the observation of one of its trials |
| GateRun.RunOrder | experiments/personal_assistant_completeness/run.py:258-304 | where each trial's two rows stand: split by split, seed by seed, case by case, baseline first |
| GateRun.CompletedRunCoverage | experiments/personal_assistant_completeness/run.py:97-105 | a completed run has full coverage if and only if no split lists a case id twice |
| GateRun.CompletedRunGate | experiments/personal_assistant_completeness/run.py:258-323 | a completed run passes if and only if no split lists a case twice, the candidate is faultless on every case and seed and the baseline misses at least one positive |
| StagedBlobs.ReadFrames | tools/audit_publication.py:111-121 | the cursor loop over a byte reader computes the frame parser |
| StagedBlobs.ByteReader.ReadLine | tools/audit_publication.py:113-113 | the line up to the next newline is returned and the cursor moves past it |
| StagedBlobs.ByteReader.Read | tools/audit_publication.py:116-120 | as many bytes as asked and available are returned, all of them for a negative size, and the cursor moves past them |
| StagedBlobLaws.ParseFramesIff | tools/audit_publication.py:112-121 | payloads are returned if and only if the stream is exactly one frame per entry with matching object id and size, every byte consumed |
| StagedBlobLaws.HeaderIff | tools/audit_publication.py:113-116 | a header is read as a size exactly when it is three words between blanks: the expected object id, "blob", and the size as `int` reads it |
| StagedBlobLaws.WrongObjectRefused | tools/audit_publication.py:113-115 | after good frames, a header with another object id or another kind is refused as that, whatever follows |
| StagedBlobLaws.ShortFrameRefused | tools/audit_publication.py:116-118 | too few bytes, or no newline after them, is refused as truncated |
| StagedBlobLaws.TrailingRefused | tools/audit_publication.py:120-121 | anything after the last frame is refused |
| StagedBlobLaws.DigitsIff | tools/audit_publication.py:116-116 | the digits of a number, grouped by single underscores or not, give their decimal value |
| StagedBlobLaws.RowIff | tools/audit_publication.py:95-102 | an index row is read as an entry exactly when it is a regular mode, the object id and stage 0 as three words, a tab and the name |
| StagedBlobLaws.RowRead | tools/audit_publication.py:97-102 | a row with another mode or stage is refused as such |
| StagedBlobLaws.IndexIff | tools/audit_publication.py:94-104 | the index is read as these entries exactly when its non-empty NUL-separated rows give them in order |
| StagedBlobLaws.StagedPayloadsIff | tools/audit_publication.py:86-121 | payloads are yielded exactly for a non-empty index and a stream of its frames |
| StagedBlobLaws.StagedRoundTrip | tools/audit_publication.py:86-121 | listing and dumping any non-empty index of regular files, with arbitrary contents, and reading both outputs gives back every name and content |
| StagedBlobLaws.CanonicalHeaderAnnounces | tools/audit_publication.py:113-116 | the header git prints, with the size in decimal, is read as that object and size |
| StagedBlobLaws.EveryByteIsAccountedFor | tools/audit_publication.py:124-131 | a stream the reader accepts is exactly as long as the audited bytes, one header per payload and two newlines per payload |
| StagedBlobLaws.RunAudit | tools/audit_publication.py:124-142 | the audit passes exactly when there is a payload and none has a finding; counts and bytes are totals |
| Manifest.ValidateArchive | tools/verify_mvp_package.py:14-99 | success exactly for acceptable archives: distinct folded names, safe paths, one root, and a manifest vouching for every other member |
| ManifestLaws.AcceptableIff | tools/verify_mvp_package.py:14-99 | an archive is acceptable exactly when its names differ after folding, every path is fine, all parts start at one root, and the manifest's rows list every other member once with the hash of its content |
| ManifestLaws.PathFineIff | tools/verify_mvp_package.py:21-77 | a path is fine exactly when it has no backslash or colon, no empty, relative or trimmed part, no reserved part, is no link and not prohibited |
| ManifestLaws.MatchRowIff | tools/verify_mvp_package.py:85-85 | a row is sixty-four lower-case hexadecimal digits, two spaces and a non-empty path on the line |
| ManifestLaws.SplitOnceIff | tools/verify_mvp_package.py:110-110 | the second parser cuts a row at its first two adjacent spaces |
| ManifestLaws.LinesAre | tools/verify_mvp_package.py:84-84 | the equations that determine `splitlines` |
| ManifestLaws.RecheckIs | tools/verify_mvp_package.py:107-113 | the second pass succeeds exactly when the manifest is there, decodes, and every row names a file of that hash |
| Manifest.VerifyAndExtract | tools/verify_mvp_package.py:102-117 | success exactly when the destination is new, the archive acceptable and the second pass over the extracted files clean |
| ManifestLaws.AcceptedManifestIsBijection | tools/verify_mvp_package.py:80-99 | in an accepted archive names differ even after folding, each payload lies under the root and is listed once with its own hash, the manifest is not listed, and members = rows + 1 |
| ManifestLaws.RowsIff | tools/verify_mvp_package.py:83-92 | a manifest yields these rows exactly when its lines list them, each path once |
| ManifestLaws.RowParsersAgree | tools/verify_mvp_package.py:85-110 | every row the regular expression accepts splits at its first double space into the same digest and path, leading spaces included |
| ManifestLaws.TranslateKeepsLines | tools/verify_mvp_package.py:84-109 | reading with universal newlines does not change the list of lines |
| ManifestLaws.RecheckIff | tools/verify_mvp_package.py:108-113 | after acceptance the second pass succeeds exactly when every payload is on disk with content of the listed hash |
| ManifestLaws.PrintThenParse | tools/verify_mvp_package.py:83-92 | printing a table of digests and distinct one-line paths and parsing it is the identity |
| WorkflowExport.SameJsonIff | tools/verify_request_workflow_export.py:9-24 | `same_json` is equality of normal forms and never holds of a value with a NaN |
| WorkflowExport.SameJsonIsEquivalence | tools/verify_request_workflow_export.py:9-24 | it is symmetric and transitive, and reflexive exactly on NaN-free values |
| WorkflowExport.SameJsonRefinesPythonEquality | tools/verify_request_workflow_export.py:10-12 | it is Python's equality together with booleans meeting only booleans at every position |
| WorkflowExport.PyEqualIff | tools/verify_request_workflow_export.py:10-12 | Python's equality is equality of normal forms with booleans read as numbers, and fails on every NaN |
| WorkflowExport.SameJsonIsStrictlyFiner | tools/verify_request_workflow_export.py:10-12 | true and 1 under a key are equal to Python and different to `same_json` |
| WorkflowExport.Verify | tools/verify_request_workflow_export.py:27-72 | a document verifies exactly when it has attempts and each passes; the hashes are reported in order |
| WorkflowExport.CheckAttemptIff | tools/verify_request_workflow_export.py:32-66 | one attempt passes exactly when its flags are false, its canonical text has the claimed hash in both places and decodes to what is displayed, with the same identity and source, and reports its id and that hash |
| WorkflowExport.AttemptsAre | tools/verify_request_workflow_export.py:28-30 | the attempts are the non-empty list under that key or, without the key, the document itself |
| WorkflowExport.ComplaintIs | tools/verify_request_workflow_export.py:32-65 | which complaint an attempt earns, the first check that fails deciding |
| WorkflowExport.VerifiedAttemptShowsItsEvidence | tools/verify_request_workflow_export.py:40-65 | a verified attempt displays its canonical evidence up to number spelling, under the evidence hash, with no approval claimed |
| WorkflowExport.EvidenceHashPinsResult | tools/verify_request_workflow_export.py:49-56 | two verified attempts with one hash, whose texts do not collide, display the same result |
| WorkflowExport.TamperedResultIsCaught | tools/verify_request_workflow_export.py:53-56 | with the evidence left alone, another display verifies exactly when it is the same JSON as the verified one |
| Evaluation.Score | experiments/personal_assistant_eval/evaluation.py:68-136 | the nested loops compute the specified verdict, an output that did not parse or conform scoring false throughout |
| Evaluation.ValidityIs | experiments/personal_assistant_eval/evaluation.py:68-115 | the validity flag of any output, exact or not: actions exactly in proposals, confirmation only there, arguments that are the tool's fields and non-empty strings |
| Evaluation.ScoreIgnoresActionOrder | experiments/personal_assistant_eval/evaluation.py:63-136 | permuting the output's or the expected actions changes no part of the verdict |
| PlanText.TextIdentifiesAction | experiments/personal_assistant_eval/evaluation.py:63-65 | with sorted keys and `json.dumps` escapes, the text of an action with string arguments is the text of no other action, whatever JSON that one holds |
| Evaluation.CanonicalEqualIff | experiments/personal_assistant_eval/evaluation.py:63-65 | two lists, one of them with string arguments only, have equal canonical texts exactly when they hold the same actions equally often |
| Evaluation.ExactPlanIff | experiments/personal_assistant_eval/evaluation.py:91-128 | an exact plan is an error-free plan with the expected decision, confirmation and bag of actions, although only sorted texts are compared |
| Evaluation.ExactPlanIsAsUnsafeAsExpected | experiments/personal_assistant_eval/evaluation.py:96-129 | an exact plan has the unsafe flag of the expected plan, which itself scores exact; the flag is off exactly when every expected action is a search or confirmed and stays inside the root |
| Evaluation.P95Coverage | experiments/personal_assistant_eval/evaluation.py:143-159 | the index is in range; at least 95% of the latencies are at most the value, at most 5% exceed it |
| Evaluation.P95IsLeastCover | experiments/personal_assistant_eval/evaluation.py:143-159 | the value is the only latency that covers 95% of the run while smaller ones do not |
| Evaluation.TrialsNeedRows | experiments/personal_assistant_eval/evaluation.py:148-151 | t distinct seeds on every required case need at least t rows per case |
| Veto.ExactIsEquivalent | tools/review_tool_default_semantics.py:37-53 | an exact call is an equivalent one, an equivalent one selects the expected tool |
| Veto.TicketEquivalence | tools/review_tool_default_semantics.py:42-47 | merging defaults forgives exactly an omitted normal priority |
| Veto.DefaultOnlyMeaning | tools/review_tool_default_semantics.py:42-53 | a default-only difference occurs only for tickets and means exactly one side spells out the normal priority |
| Veto.RecomputeIs | tools/review_tool_default_semantics.py:37-53 | selection, exactness and equivalence written out on the output's fields |
| Veto.ReasonIs | tools/review_ticket_priority.py:42-50 | the veto reason by intent, a clarification being asked for whatever the arguments |
| Veto.AdmissibleIff | tools/review_ticket_priority.py:30-41 | an admissible intent uses the known words and quotes its evidence, and a set value in it, from the request |
| Veto.CorrectReadingVetoesExactlyMismatches | tools/review_ticket_priority.py:42-50 | when the classified intent says what the case expects, the veto falls exactly on proposals with another priority |
| Veto.CorrectReadingNeverVetoesExact | tools/review_ticket_priority.py:42-50 | a correctly read intent never vetoes an exact proposal |
| Veto.AuditRows | tools/review_ticket_priority.py:107-254 | the counting loop accepts exactly the journals in which every row's verification, recorded comparison and traces hold and the reported summary is the one counted; its counters, strata and residual failures are the specified sums |
| Veto.CheckHoldsIff | tools/review_ticket_priority.py:142-237 | everything asserted about a row, written out on the journal's fields |
| Veto.CountersAre | tools/review_ticket_priority.py:196-227 | each counter of a policy counts the rows of its kind: let through or stopped, exact, equivalent or neither, to be clarified, understood |
| Veto.FailuresAre | tools/review_ticket_priority.py:238-254 | the residual failures are, in order, the wrong calls let through and the correct calls stopped |
| Veto.StratumIsItsRows | tools/review_ticket_priority.py:228-228 | a stratum's counters are the counters of its rows |
| Veto.NormalRunsCountAcceptedIff | tools/review_ticket_priority.py:229-237 | in an accepted journal the normal-mode handler runs never outnumber the accepted calls of a policy, and equal them exactly when each accepted call has its normal-mode trace |
| Veto.VetoAccounting | tools/review_ticket_priority.py:199-254 | unverified exact = verified exact + correct blocked; unsafe likewise with wrong blocked; accepted = equivalent + unsafe; exact is at most equivalent; residual failures = verified unsafe + correct blocked |
| Veto.BlockedCountersExplainDropIff | tools/review_ticket_priority.py:203-217 | the blocked counters explain the whole drop in accepted calls exactly when no base-allowed default-only call was vetoed |
| Veto.BlockedCountersMissVetoedDefault | tools/review_ticket_priority.py:193-217 | an accepted journal of one row, a vetoed ticket that spells out the omitted normal priority, loses an accepted call that no blocked counter has |
| Veto.StrataSumToTotals | tools/review_ticket_priority.py:227-228 | over the strata that occur, the stratified counts add up to the totals |
| Driver.Exercise | experiments/personal_assistant_e2e/run.py:129-198 | against any service and on any path, no approval is issued for a block case, before an observed untouched preview, or anywhere but where the mode approves; a row passes exactly when the exchange follows the script of a correct refusal or of its mode, its other entries say what the exchange showed, and no row comes out only when the service failed where nothing catches it or an entry to compare with is missing |
| Driver.EffectIs | experiments/personal_assistant_e2e/run.py:100-126 | the checked effect: exactly one event, task or file changed, as the receipt says and the scenario expects |
| Driver.PassApprovesOnce | experiments/personal_assistant_e2e/run.py:151-193 | a passing run approves at exactly one position, and at one more to replay or undo |
| Driver.PassRestoresState | experiments/personal_assistant_e2e/run.py:151-192 | after a passing cancel, tampered or undo run the last look shows the original state, and no approval follows it |

## Left out

- Float rounding: scores, similarities, weights and latencies are reals and 0.95 is 19/20; NaN and infinities appear only as rejected inputs of the selectors and as JSON values.
- The sigmoid is any function, non-decreasing or strict on the supplied scores where a lemma says so; the exponential is not modelled.
- Tokenizer, ONNX session, TF-IDF index, SHA-256, zip reading, git, HTTP and the file system are parameters of the model.
- Scoring.Score: that the three arrays of a padded batch have equal row lengths is the tokenizer's promise and is not checked.
- StagedBlobs.ReadFrames: the generator's laziness is not modelled; the payloads are returned together, so a late error discards the earlier ones. The digit limit of Python's `int` is ignored.
- Secret and payload patterns of the publication audit are an arbitrary inspector, reserved and prohibited names of the package validator arbitrary predicates.
- Gate.Summarize: the sorted list of failed case ids and the fixed release fields are not modelled.
- GateRun.RunTrials: the order of writes to disk and the assertion that the recorded state is still current are not modelled; a trial is whatever the generator, driver and sentinel check observed.
- Evaluation.Score: parsing the output and its response schema are given; which texts escape the sandbox root is an arbitrary predicate, the table of tools arbitrary. How `json.dumps` spells values other than strings is an arbitrary function whose texts never open with a quote.
- The policy rules that turn the evaluation metrics into a gate live in a service that is not part of this model; median, domain tallies and rates are left out.
- Veto.AuditRows: hashes, token sums, HTTP counts, and the cross-checks of recorded requests and raw outputs are not modelled, nor are the other totals of the reported summary; the classified intent is the one parsed from the raw output.
- Driver.Exercise: replies of an unexpected kind stand for the exceptions Python would raise on them; the audit log's content is not inspected.
- The reachability summary and thresholds of the retrieval experiment, and the gates of the other experiments, repeat these shapes with more counters.

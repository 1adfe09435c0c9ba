# CodeNexus: a verified model of its algorithms and protocols

CodeNexus is an online judge for schools. Most of it is SQL and HTTP plumbing; this
project models the parts that are algorithms or protocols in their own right and
proves what they promise.

| file | what it models |
|---|---|
| `Dbscan.dfy`, `Vectors.dfy`, `Distances.dfy` | clustering of solution embeddings |
| `PreviewAdmission.dfy` | admission, consumption and expiry of import previews |
| `Slug.dfy`, `ProblemExport.dfy`, `ProblemImport.dfy`, `ImportedItems.dfy`, `TestCaseStems.dfy`, `ArchiveRoundTrip.dfy` | problem archives: export, import, and one after the other |
| `LikeEscape.dfy` | escaping of search text for LIKE and ILIKE |
| `LeaderboardCache.dfy`, `Streaks.dfy` | the cached global leaderboard; day streaks |
| `Similarity.dfy` | similarity scores and top-N ranking |
| `JudgeCallbacks.dfy`, `InFlightLimit.dfy` | the life of a submission |
| `Contests.dfy`, `Scoreboards.dfy`, `ContestRuns.dfy`, `FrozenReads.dfy` | rankings, freeze snapshots, contest links |
| `BraceNesting.dfy`, `LoopMetrics.dfy`, `PythonNesting.dfy` | structural features of source code |
| `GradePromotion.dfy` | promotion of grades to a new academic year |
| `UserCsv.dfy` | classification of imported users |
| `Text.dfy`, `Common.dfy` | shared string operations and result types |

How it is modelled:

- Tables are maps or sequences of rows; a database transaction, a single statement or
  an atomic counter operation is one step. Where the code takes several steps
  (preview admission, submission creation, the leaderboard cache, first reads of a
  frozen ranking), the model is a state machine and the theorems are about every interleaving.
- Floating-point numbers are exact reals, and the square root is a parameter
  (`IsSqrt`). Integers are unbounded except where a conversion or an overflow matters
  (`AsUsize`, `ParseInt`, `NoOverflow`).
- UTF-8, JSON, Unicode lowercasing, the Unicode whitespace test, byte lengths and the
  order in which a hash map lists its keys are parameters. Each comes with a predicate
  that says what is used of it (`Faithful`, `Lowercases`, `ListsKeys`).
- Random tokens and sequence-generated identifiers are fresh by assumption.

Where the code and its own documentation differ, the model follows the code. Each
entry names the lemma at a failing input first, then the exact condition:

- `slugify` says its fallback makes the export/import cycle always succeed. It does not
  for a title whose slug is `problems`: the importer strips that prefix twice
  (`TitleProblemsIsLost`; `ExportImportRoundTrip`, `SlugOfExported`).
- Submissions in flight are documented to be limited to ten. `k` concurrent requests
  reach 9 + k (`BoundIsReached`; `InFlightBounded`).
- `solved_count` is documented to count solved problems. It counts accepted attempts
  (`SolvedTwiceCountsTwice`; `SolvedCountExact`). `score` likewise counts the points of a
  problem for every accepted attempt, and also if no attempt was accepted (`EntryExactly`).
- `compare_testcase_stems` is used to sort but is not transitive on mixed stems
  (`BeforeIsCyclic`; `TransitiveIffUnmixed`).
- A discovered test-case file whose name starts with `testcases/` is looked up one
  directory too high, and is reported missing or replaced by another
  (`NestedDirectoryMisses`, `NestedDirectoryTakesOther`; `DiscoveredTestCasesRead`).
- The global leaderboard offers a grade scope by itself, but then binds four values to a
  statement that names `$5` (`GradeAloneFails`; `AnswerableExactly`); the route never
  makes such a request. It does pass on a negative limit or offset, which the database
  refuses every time (`NegativePageFails`; `RoutedRequestsAnswerable`).
- `parse_user_csv` says only later repetitions of a username are duplicates; every
  occurrence is (`FirstOccurrenceIsDuplicate`; `ValidExactly`).
- The judge may report `system_error`, which has a verdict and counts as final, but the
  status constraint of the database refuses it (`SystemErrorIsRefused`;
  `CallbackAllOrNothing`). Callbacks are said to move to a final status only; `compiling`
  and `running` are accepted too, and then no verdict can follow
  (`FirstSettlingCallbackDecides`).
- A frozen ranking is documented to be computed on the first request and kept. First
  readers that overlap may return different ones (`FirstReadersDisagree`;
  `DisagreementExactly`, `DisagreementIsARace`).
- Loop nesting is too large after loops that share a block, too small after a statement
  end inside one, and a `do` loop counts twice (`SharedBlockOvercounts`,
  `StatementEndUndercounts`, `DoLoopCountsTwice`; `SourceMeasured`).

## Model

| member | source | states |
|---|---|---|
| `Vectors.CosineSymmetric` | backend/domain-analysis/src/batch.rs:461-479 | cosine similarity and distance do not depend on the order of their arguments |
| `Distances.DistanceRange` | backend/domain-analysis/src/batch.rs:461-479 | the distance lies in [0, 2], and is exactly 1 if a vector is zero or empty or the lengths differ |
| `Distances.DistanceOfMultiple` | backend/domain-analysis/src/batch.rs:461-479 | a vector is at distance 0 from its positive multiples and 2 from its negative ones |
| `Distances.DistanceZeroIsDirection` | backend/domain-analysis/src/batch.rs:461-479 | vectors at distance 0 are positive multiples of each other |
| `Distances.NearExactly` | backend/domain-analysis/src/batch.rs:402-406 | two points are near iff their dot product reaches (1 - eps) times the product of their magnitudes; a zero vector is near others iff eps is at least 1 |
| `Distances.EqualPointsAreNear` | backend/domain-analysis/src/batch.rs:402-406 | equal points are neighbours, and a point its own, iff eps is at least 0, or at least 1 for zero vectors |
| `Distances.SameDirectionIsNear` | backend/domain-analysis/src/batch.rs:402-406 | points that are positive multiples of each other are neighbours for every eps of at least 0 |
| `Distances.CoreExactly` | backend/domain-analysis/src/batch.rs:416-418 | a point is core iff at least min_samples points, itself among them, are near it |
| `Dbscan.NeighborsUndirected` | backend/domain-analysis/src/batch.rs:400-407 | the precomputed neighbour lists hold only points, and being a neighbour is mutual |
| `Dbscan.ExpandCluster` | backend/domain-analysis/src/batch.rs:420-447 | growing a cluster from a core point terminates (fewer unlabelled points, or a shorter queue) and leaves labels in which every labelled core point's neighbours are labelled no higher than it |
| `Dbscan.GroupByLabel` | backend/domain-analysis/src/batch.rs:450-458 | the cluster lists hold, in order, exactly the points with each label |
| `Dbscan.DbscanCluster` | backend/domain-analysis/src/batch.rs:394-459 | for all vectors, eps and min_samples: two core points share a cluster iff a chain of neighbouring core points joins them; a point is clustered iff it is core or next to a core point; a border point takes the lowest adjacent cluster; ids follow the first core point; lists are increasing, disjoint and contain a core point |
| `Dbscan.SameLabelIffConnected` | backend/domain-analysis/src/batch.rs:412-447 | after the scan, equal labels of core points mean connected, and conversely |
| `Dbscan.ClusteringUnique` | backend/domain-analysis/src/batch.rs:386-394 | those four laws determine the output: two cluster lists that satisfy them are equal |
| `PreviewAdmission.RunKeepsInv` | backend/domain-imex/src/routes.rs:298-360 | every interleaving of validate, execute and expiry steps keeps the counting, token and expiry invariants |
| `PreviewAdmission.CounterIdentity` | backend/domain-imex/src/routes.rs:298-320 | counter = cached previews + admitted-not-inserted + rejected-not-undone + removed-not-released, never negative; the cache never exceeds 50 |
| `PreviewAdmission.CounterNeverUnderflows` | backend/domain-imex/src/routes.rs:301-360 | every decrement finds the counter at 1 or more |
| `PreviewAdmission.AdmissionExact` | backend/domain-imex/src/routes.rs:681-686 | a validate is rejected iff 50 slots are held by cached previews or steps in progress |
| `PreviewAdmission.TokenConsumedOnce` | backend/domain-imex/src/routes.rs:355-360 | no token is taken from the cache twice, by whichever actors |
| `PreviewAdmission.ConsumedByOwner` | backend/domain-imex/src/routes.rs:335-369 | what an execute request removes is the preview issued with its token, for the same user, organization and kind of import; the mismatch branch after removal is dead |
| `PreviewAdmission.PeekExact` | backend/domain-imex/src/routes.rs:337-354 | a peek goes on iff the token is cached and owned by the caller, is forbidden iff it is cached for the same kind of import and not owned, and is a bad request otherwise; the preview is the one issued with the token |
| `PreviewAdmission.ConsumeExact` | backend/domain-imex/src/routes.rs:355-369 | after a peek that went on, the consume gets the issued preview iff no step took the token in between, and is a bad request otherwise |
| `PreviewAdmission.OwnerExecutes` | backend/domain-imex/src/routes.rs:298-369 | once a preview is inserted, its owner's execute request ends with just that preview unless another step takes the token first |
| `PreviewAdmission.InsertExact` | backend/domain-imex/src/routes.rs:304-311 | an insert adds the issued preview under its token, which was not there |
| `PreviewAdmission.ValidateExact` | backend/domain-imex/src/routes.rs:298-303 | a finished validate was unavailable iff all 50 slots were held when it was counted, and gave a preview otherwise |
| `PreviewAdmission.ExpireExact` | backend/domain-imex/src/routes.rs:313-320 | an expiry task removes its token iff it is still cached |
| `PreviewAdmission.DrainedWhenQuiet` | backend/domain-imex/src/routes.rs:313-320 | when every actor has finished, the cache is empty and the counter is 0 |
| `Slug.SlugifyNormal` | backend/domain-imex/src/problem_export.rs:136-159 | a slug is words of lowercase letters and digits joined by single hyphens, never empty |
| `Slug.SlugifyFixpoint` | backend/domain-imex/src/problem_export.rs:136-159 | a text is its own slug iff it has that form |
| `Slug.SlugifyIdempotent` | backend/domain-imex/src/problem_export.rs:136-159 | slugifying twice is slugifying once |
| `Slug.SeparatorSplits` | backend/domain-imex/src/problem_export.rs:136-159 | any character but a letter or digit separates: the slugs before and after it are joined by one hyphen, or one of them is all |
| `Slug.SlugifyExactly` | backend/domain-imex/src/problem_export.rs:136-159 | the slug is that of the lowercase title, and `problem` iff the title has no ASCII letter or digit |
| `ProblemExport.PathOfInjective` | backend/domain-imex/src/problem_export.rs:103-122 | different files of an export have different paths |
| `ProblemExport.BuildProblemZip` | backend/domain-imex/src/problem_export.rs:68-126 | succeeds iff the test-case orders are distinct, and then writes the config, the description and both files of each test case in order |
| `ProblemImport.ParseProblemZip` | backend/domain-imex/src/problem_import.rs:26-221 | the loops over entries, config paths and test cases compute `ParsedZip`, with the first error met in each directory |
| `ProblemImport.LoadArchive` | backend/domain-imex/src/problem_import.rs:36-75 | entries are read in order until the first one that is refused by name, link, size or running total |
| `ProblemImport.LoadedArchiveIsSafe` | backend/domain-imex/src/security.rs:50-98 | for every archive: once loaded, no path holds `..` or starts at a root, and no file and not the whole exceed the size limits |
| `ImportedItems.LoadExactly` | backend/domain-imex/src/problem_import.rs:33-75 | an archive loads iff every entry is acceptable after the bytes before it: safe name, no link, and declared and real size within both limits |
| `ImportedItems.LoadedLast` | backend/domain-imex/src/problem_import.rs:74-74 | a loaded name holds the bytes of the last entry with that name, and no other names are loaded |
| `ImportedItems.ConfigPathExactly` | backend/domain-imex/src/problem_import.rs:77-85 | a path is taken for a config iff it is `problems/<name>/config.json` with no slash in the name, slashes after it aside |
| `ImportedItems.ItemExactly` | backend/domain-imex/src/problem_import.rs:88-218 | each config yields its item, from the files of the archive: which error and why, or the problem with one test case per listed reference and the bytes it names, or, if none is listed, one per stem with both files, sorted if no stem straddles, not hidden, without a score and numbered from 0 |
| `ImportedItems.ImportExactly` | backend/domain-imex/src/problem_import.rs:26-221 | an archive is imported iff it has at most 500 entries and loads, and yields one item for each config |
| `ImportedItems.ConvertExactly` | backend/domain-imex/src/problem_import.rs:281-296 | the test cases created carry the two texts, mark and score, and the order given or else the position |
| `ProblemImport.DiscoveredFileIsItself` | backend/domain-imex/src/problem_import.rs:153-163 | a discovered file is looked up where it was found iff its name does not start with `testcases/` |
| `ProblemImport.StemsExactly` | backend/domain-imex/src/problem_import.rs:228-236 | discovery finds a stem iff both its files are there |
| `ProblemImport.DiscoveredTestCasesRead` | backend/domain-imex/src/problem_import.rs:153-190 | for every archive: discovery leads to a missing file iff a discovered stem starts with `testcases/` and the rest of it is no discovered stem; otherwise each test case carries the bytes of the two files of the stem that was opened, its own unless it starts that way |
| `ProblemImport.NestedDirectoryMisses` | backend/domain-imex/src/problem_import.rs:153-163 | one complete test case in `testcases/testcases/` is reported as missing |
| `ProblemImport.NestedDirectoryTakesOther` | backend/domain-imex/src/problem_import.rs:153-163 | with a test case of the same name one directory up, both carry its bytes and nothing is reported |
| `TestCaseStems.BeforeIsCyclic` | backend/domain-imex/src/problem_import.rs:253-258 | "9" before "10" before "1x" before "9" |
| `TestCaseStems.TransitiveIffUnmixed` | backend/domain-imex/src/problem_import.rs:253-258 | the comparison is transitive on a set of stems iff no non-number lies, as text, between two numbers whose text order contradicts their value |
| `TestCaseStems.UniformIsTransitive` | backend/domain-imex/src/problem_import.rs:253-258 | the comparison is a total order on stems that are all numbers, or none of them |
| `TestCaseStems.SortDeterministic` | backend/domain-imex/src/problem_import.rs:238-238 | two listings of the same stems are sorted into one order if no stem straddles |
| `TestCaseStems.NoOrderWhenMixed` | backend/domain-imex/src/problem_import.rs:238-238 | with such a stem no arrangement of the stems is in order |
| `ProblemImport.DiscoveryDeterministic` | backend/domain-imex/src/problem_import.rs:223-251 | if no stem straddles, the discovered test cases and their order are the same for every order in which the hash map lists its paths |
| `ArchiveRoundTrip.OnlyConfigIsConfig` | backend/domain-imex/src/problem_import.rs:77-85 | of the paths of an export exactly the config is taken for a config |
| `ArchiveRoundTrip.SlugOfExported` | backend/domain-imex/src/problem_import.rs:90-94 | the slug read back is the directory name, except that `problems` becomes `config.json` |
| `ArchiveRoundTrip.ExportedLoads` | backend/domain-imex/src/problem_import.rs:36-75 | an exported archive passes every entry check iff it is within the size limits, and its files are then found under their paths |
| `ArchiveRoundTrip.ExportImportRoundTrip` | backend/domain-imex/src/problem_import.rs:11-25 | importing an export yields exactly one item iff within the limits; it is an error iff the slug is `problems` or the difficulty unknown, valid iff neither and the title is new; otherwise config, description and test cases come back, in order |
| `ArchiveRoundTrip.TitleProblemsIsLost` | backend/domain-imex/src/problem_export.rs:136-159 | the title `problems` is its own slug, and its export is imported as one error item |
| `LikeEscape.SequentialIsSimultaneous` | backend/domain-search/src/service.rs:8-14 | the three replacements in this order equal one simultaneous escape per character |
| `LikeEscape.EscapedMatchesIffContains` | backend/domain-search/src/service.rs:6-14 | the pattern matches a text iff the query is a substring of it, under any case folding |
| `LikeEscape.EscapedPatternWellFormed` | backend/domain-problems/src/routes.rs:18-24 | the pattern never ends in a bare backslash |
| `LeaderboardCache.CacheKeyInjective` | backend/domain-leaderboard/src/service.rs:28-45 | scopes with the same key are equal, for arbitrary timeframe texts and signed numbers |
| `LeaderboardCache.SameKeySameStatement` | backend/domain-leaderboard/src/service.rs:40-104 | requests with the same key run the same statement with the same parameters |
| `LeaderboardCache.StatementExactly` | backend/domain-leaderboard/src/service.rs:28-73 | 100 entries by default and at most 1000, from offset 0, no minimum; 7, 30 and 365 days for `week`, `month` and `year`, all time for anything else |
| `LeaderboardCache.RunsExactly` | backend/domain-leaderboard/src/service.rs:76-193 | the counting statement always runs with each placeholder bound to its value; the entries statement does iff a grade comes with a school and neither limit nor offset is negative |
| `LeaderboardCache.AnswersAreOfTheSameScope` | backend/domain-leaderboard/src/service.rs:47-65 | over every run of lookups, computations, stores, expiries and foreign writes, each answer is what an earlier computation for the same scope returned |
| `LeaderboardCache.CacheExactly` | backend/domain-leaderboard/src/service.rs:195-205 | a leaderboard key holds exactly what was last stored under it and has not expired |
| `LeaderboardCache.LookupExactly` | backend/domain-leaderboard/src/service.rs:47-65 | a lookup answers with a payload iff Redis can be read and the payload is what was last stored for the same scope and has not expired |
| `LeaderboardCache.FailsForGood` | backend/domain-leaderboard/src/service.rs:171-193 | a request whose statement failed is never answered |
| `LeaderboardCache.AnswerableExactly` | backend/domain-leaderboard/src/service.rs:26-85 | some run answers a request iff it has no grade without a school and, after defaults and the cap, neither limit nor offset is negative |
| `LeaderboardCache.GradeAloneFails` | backend/domain-leaderboard/src/service.rs:82-85 | the default page of one grade over all schools is never answered |
| `LeaderboardCache.RoutedRequestsAnswerable` | backend/domain-leaderboard/src/routes.rs:49-73 | the route never makes a request with a grade alone; what it makes can be answered iff the limit and offset given are not negative |
| `LeaderboardCache.NegativePageFails` | backend/domain-leaderboard/src/models.rs:49-52 | a student who asks for a limit or an offset of -1 gets no answer in any run |
| `Streaks.CurrentStreak` | backend/domain-leaderboard/src/service.rs:592-606 | the length of the run of days ending at the latest date if that is today or yesterday, else 0 |
| `Streaks.MaxStreak` | backend/domain-leaderboard/src/service.rs:608-620 | the length of the longest run of consecutive days in the list |
| `Streaks.CalculateStreaks` | backend/domain-leaderboard/src/service.rs:578-631 | both, for every descending list including the empty one; the current streak never exceeds the longest |
| `Similarity.CauchySchwarz` | backend/domain-analysis/src/service.rs:839-841 | the squared dot product is at most the product of the squared magnitudes |
| `Similarity.ClampIsIdle` | backend/domain-analysis/src/service.rs:834-848 | the quotient is within [-1, 1] by itself, so clamping never changes it |
| `Similarity.ComputeStructuralSimilarity` | backend/domain-analysis/src/service.rs:856-875 | the loop computes the reciprocal of one plus the RMS of the normalized differences |
| `Similarity.StructuralBounds` | backend/domain-analysis/src/service.rs:850-875 | symmetric, 1 iff the vectors are equal, within [1/3, 1], and within [1/2, 1] for non-negative features |
| `Similarity.ScoreExactly` | backend/domain-analysis/src/service.rs:886-913 | a candidate is scored iff its embedding is not empty, with 6/10 of the cosine and 4/10 of the structural similarity |
| `Similarity.ScoreAllExactly` | backend/domain-analysis/src/service.rs:886-915 | every candidate that can be scored is, in order, for the problem asked about or else its own |
| `Distances.TwinScores` | backend/domain-analysis/src/service.rs:903-906 | equal features with an embedding of the same direction score 1, of the opposite direction -1/5 |
| `Similarity.RankBySimilarity` | backend/domain-analysis/src/service.rs:879-926 | a descending list of the allowed length (all, for a negative limit), no dropped candidate scores above a kept one, nothing invented or lost, and ties stay in candidate order |
| `Similarity.ScoreRange` | backend/domain-analysis/src/service.rs:886-913 | scores of comparable candidates stay between -0.6 + 0.4/3 and 1 |
| `JudgeCallbacks.SubmissionStore.UpdateJudgeResultTransactional` | backend/domain-submissions/src/service.rs:864-969 | the transaction changes the tables exactly as `Judge` says, with every early return and every refusal by the database rolled back |
| `JudgeCallbacks.CallbackAllOrNothing` | backend/domain-submissions/src/service.rs:883-959 | a callback takes effect iff the submission is in flight, the target is new and storable, and every test case has a known status, a known identifier and storable texts; the rows it reports then lie over the older ones; the database changes iff it takes effect |
| `JudgeCallbacks.OutcomeExactly` | backend/domain-submissions/src/service.rs:883-969 | how each callback ends, from the status found and the status reported, in the order of the checks |
| `JudgeCallbacks.StoredRowExactly` | backend/domain-submissions/src/service.rs:908-921 | the stored verdict is the one the reported status stands for (`ac` iff `accepted`, and so on), or none; the status is `judged` for the seven results of judging; score, runtime and memory are the callback's own |
| `JudgeCallbacks.StoredResultsExactly` | backend/domain-submissions/src/service.rs:923-956 | each result row holds the verdict and details of the last report of its test case; unreported rows stay |
| `JudgeCallbacks.StorableExactly` | backend/api/migrations/008_create_test_case_results.sql:4-12 | test cases can be stored iff each has a status with a verdict, exists, and has texts without the zero character |
| `JudgeCallbacks.SystemErrorIsRefused` | backend/api/migrations/037_add_pending_to_submission_status_check.sql:11-13 | a system error reported for a queued submission is refused by the status constraint and changes nothing |
| `JudgeCallbacks.StatusesStayStorable` | backend/api/migrations/037_add_pending_to_submission_status_check.sql:11-13 | no callback sequence stores a status outside the six allowed ones, so none is ever `judging` |
| `JudgeCallbacks.CallbackFrame` | backend/domain-submissions/src/service.rs:908-956 | other submissions and their results are untouched |
| `JudgeCallbacks.ReplayIsIdle` | backend/domain-submissions/src/service.rs:887-906 | delivering a callback again changes nothing, right away or at any time after it has left its submission settled |
| `JudgeCallbacks.SettledForGood` | backend/domain-submissions/src/service.rs:893-906 | over every sequence of callbacks, a status outside pending, queued and judging is absorbing: row and results never change again |
| `JudgeCallbacks.FirstSettlingCallbackDecides` | backend/domain-submissions/src/service.rs:898-956 | a settled submission has the row of the one callback that settled it, applied while in flight; its result rows are those reported there, over the older ones; it has no verdict iff that callback said `judged`, `compiling` or `running` |
| `JudgeCallbacks.RowProvenance` | backend/domain-submissions/src/service.rs:923-956 | over every callback sequence, a result row is what the last applied callback that mentioned the test case reported, or was there from the start |
| `JudgeCallbacks.VerdictOnlyWhenSettled` | backend/domain-submissions/src/service.rs:986-997 | no callback sequence gives a verdict to a submission still in flight |
| `InFlightLimit.InFlightBounded` | backend/domain-submissions/src/service.rs:115-131 | with at most k create requests of a user at a time, in any interleaving with callbacks, at most 9 + k submissions are in flight |
| `InFlightLimit.BoundIsReached` | backend/domain-submissions/src/service.rs:118-126 | for every k there is a run that reaches 9 + k |
| `InFlightLimit.FailedCreateLeavesNoRow` | backend/domain-submissions/src/service.rs:206-247 | after a failed create the row is gone for good unless the delete failed; after a successful one it is there |
| `InFlightLimit.CreateExactly` | backend/domain-submissions/src/service.rs:115-131 | a create is refused iff ten submissions are in flight at its check, and created iff the enqueue succeeds |
| `InFlightLimit.RowHistory` | backend/domain-submissions/src/service.rs:595-733 | a row appears queued with its insert, goes only with its compensating delete, and changes status only by its own request or by a callback while not done |
| `Contests.SortRanked` | backend/domain-contests/src/service.rs:465-489 | a ranking is its entries rearranged so that none compares after a later one |
| `Scoreboards.RankingOrder` | backend/domain-contests/src/service.rs:465-489 | in a ranking more solved come first, then less penalty, then solvers before others, then the later last solution |
| `Scoreboards.TiesKeepUsernameOrder` | backend/domain-contests/src/service.rs:367-370 | entries equal in all three stay in order of username |
| `Scoreboards.ParticipantsExactly` | backend/domain-contests/src/service.rs:352-370 | a ranking has an entry for exactly the users with a submission linked to the contest, not upsolving and before the cutoff |
| `Scoreboards.AttemptsExactly` | backend/domain-contests/src/service.rs:378-392 | the attempts at a problem are exactly those submissions, in order |
| `Scoreboards.EntryExactly` | backend/domain-contests/src/service.rs:436-463 | penalty adds up over accepted attempts, score counts the points once per accepted attempt and once for a problem tried in vain, and the solved count is the number of accepted attempts |
| `Scoreboards.AcRowsExactly` | backend/domain-contests/src/service.rs:393-430 | one row per accepted attempt, with its time, the points, and the minutes since the start plus 20 per earlier attempt, to the nearest minute and at least 0 |
| `Contests.SolvedCountExact` | backend/domain-contests/src/service.rs:393-449 | `solved_count` is at least the number of solved problems, and equal iff no problem was accepted twice |
| `ContestRuns.SolvedTwiceCountsTwice` | backend/domain-contests/src/service.rs:393-402 | in a reachable state a user who solved one problem is credited with two |
| `Contests.RankingsTrim` | backend/domain-contests/src/service.rs:346-370 | submissions that do not count have no influence on a ranking |
| `ContestRuns.ContestService.ComputeRankings` | backend/domain-contests/src/service.rs:372-489 | the loop over participants computes `Rankings` |
| `ContestRuns.ContestService.GetContestRankings` | backend/domain-contests/src/service.rs:315-342 | outside the freeze window the ranking of now; inside it the stored snapshot, made as of the freeze time on the first read; as one step it never replaces a snapshot (in the steps the code takes it can, see `FrozenReads`) |
| `ContestRuns.ContestService.LinkSubmissionToContest` | backend/domain-contests/src/service.rs:665-763 | a submission is linked iff the contest has begun, both are of one organization, it is no older than the contest, its problem is in it and it is not linked elsewhere; upsolving iff it came after the end; links change only then, and none changes its contest |
| `ContestRuns.FrozenReadsAgree` | backend/domain-contests/src/service.rs:324-338 | over every run in which a read is one step, all rankings of a contest read in its freeze window are equal |
| `FrozenReads.LoneReadersAgree` | backend/domain-contests/src/service.rs:324-338 | when lookup, computation and store are separate steps: frozen reads agree as long as no two first readers are at work at once |
| `FrozenReads.AgreeIffComputationsAgree` | backend/domain-contests/src/service.rs:329-336 | in every interleaving, the frozen rankings handed out are equal iff the computations behind them were |
| `FrozenReads.QuietReadersAgree` | backend/domain-contests/src/service.rs:346-370 | they agree, however they overlap, if after the first computation no counted verdict changes and no submission from before the freeze is linked |
| `FrozenReads.DisagreementIsARace` | backend/domain-contests/src/service.rs:324-338 | frozen reads disagree only if two first readers were at work at once and a change that counts came after one had computed |
| `FrozenReads.DisagreementExactly` | backend/domain-contests/src/service.rs:324-338 | from a reachable state in which nobody has read the contest frozen, some continuation makes readers disagree iff the tables alone can change so that the frozen ranking is one thing inside the freeze window and another later |
| `FrozenReads.FirstReadersDisagree` | backend/domain-contests/src/service.rs:324-338 | a run in which a verdict arrives between two first reads and they return different rankings |
| `ContestRuns.RankingsIgnoreLateSubmissions` | backend/domain-contests/src/service.rs:324-342 | every ranking ever handed out is the ranking of tables without submissions created after the end, and in the freeze window without those from the freeze time on |
| `ContestRuns.LinksAreForever` | backend/domain-contests/src/service.rs:725-743 | over every run, a link once made keeps its contest and its upsolving mark |
| `BraceNesting.ComputeMaxNesting` | backend/domain-analysis/src/extractor.rs:163-177 | on any text the result is the largest surplus of opening over closing braces in any substring |
| `BraceNesting.BalancedTextDepth` | backend/domain-analysis/src/extractor.rs:157-178 | if no prefix closes too much, that is the largest prefix balance |
| `LoopMetrics.ComputeLoopMetrics` | backend/domain-analysis/src/extractor.rs:221-279 | the character loop computes the token machine's count and average |
| `LoopMetrics.StripExactly` | backend/domain-analysis/src/extractor.rs:487-499 | a comment starts at the first `//`, and what is before it is kept |
| `LoopMetrics.EndsStatementExactly` | backend/domain-analysis/src/extractor.rs:269-271 | a line ends a statement iff its last character but whitespace is a semicolon |
| `LoopMetrics.MetricsConsistent` | backend/domain-analysis/src/extractor.rs:221-268 | on every source the depth counter equals the number of loop-owned open blocks, and the total is between n and n(n+1)/2 |
| `LoopMetrics.WaitingIsSurplus` | backend/domain-analysis/src/extractor.rs:231-271 | on every source, balanced or not, the headers waiting at a point are the largest excess of loop keywords over opening braces in a stretch up to there without a statement-ending line |
| `LoopMetrics.MachineMeasuresCode` | backend/domain-analysis/src/extractor.rs:231-271 | on any code with matching braces, plain blocks, loops without blocks, statement ends and stray keywords included: the stack is restored, every loop keyword counted, and the total is the true depths plus the headers waiting at each loop minus the loops around it that no brace was taken for |
| `LoopMetrics.SourceMeasured` | backend/domain-analysis/src/extractor.rs:215-279 | for source lines that are this code: the count is the number of loops iff no loop keyword strays, and the total is the sum of their depths iff waiting headers and strays make up for the loops without a brace |
| `LoopMetrics.TidyCodeMeasured` | backend/domain-analysis/src/extractor.rs:215-279 | count and total are true whenever every loop has a block of its own or a statement without braces that ends its line |
| `LoopMetrics.SharedBlockOvercounts` | backend/domain-analysis/src/extractor.rs:231-271 | two loops over one block and a loop beside them: 5 instead of 4 |
| `LoopMetrics.StatementEndUndercounts` | backend/domain-analysis/src/extractor.rs:269-271 | a statement end inside a block shared by two loops, and a loop after it: 5 instead of 6 |
| `LoopMetrics.DoLoopCountsTwice` | backend/domain-analysis/src/extractor.rs:252-263 | `do` and `while` of one loop are counted as two |
| `LoopMetrics.ClampNeverFires` | backend/domain-analysis/src/extractor.rs:242-264 | at every point the clamp is idle and the next loop nests between 1 and its number |
| `LoopMetrics.NoOverflow` | backend/domain-submissions/src/routes.rs:35-38 | the i32 counters cannot overflow on a source of at most 64 KiB |
| `PythonNesting.ReadLineExactly` | backend/domain-analysis/src/extractor.rs:184-204 | a line is indentation, content and trailing space; it is looked at unless empty or a comment; its depth is the size of the indentation; a header ends in a colon and a loop begins with its keyword |
| `PythonNesting.StripExactly` | backend/domain-analysis/src/extractor.rs:487-499 | a Python comment starts at the first `#` or `//` |
| `PythonNesting.PopDeeper` | backend/domain-analysis/src/extractor.rs:192-198 | popping leaves exactly the open headers shallower than the line |
| `PythonNesting.Scan` | backend/domain-analysis/src/extractor.rs:184-204 | each counted line's depth is one plus the headers it is nested in: those with only deeper lines since |
| `PythonNesting.ComputePythonNesting` | backend/domain-analysis/src/extractor.rs:180-207 | the largest depth of a block header, and at least 1 |
| `PythonNesting.ComputePythonLoopMetrics` | backend/domain-analysis/src/extractor.rs:281-325 | the number of loops and the average of their depths |
| `GradePromotion.GradeStore.PromoteGrades` | backend/domain-classes/src/service.rs:251-325 | the transaction applies `PromoteAll` to the selected grades |
| `GradePromotion.PromotionShape` | backend/domain-classes/src/service.rs:274-321 | a selected grade is promoted iff no grade of the campus had its next name in the new year and none promoted before it took the name; it then got a fresh successor and lost its users to it; nothing else changed |
| `GradePromotion.NewGradeExactly` | backend/domain-classes/src/service.rs:374-391 | the successor is one level up and active; its name is the next of the Chinese names, or reads as its level after `Grade` or `Year`, or stays |
| `GradePromotion.UsersConserved` | backend/domain-classes/src/service.rs:295-306 | every user keeps their grade or moves to a grade made by the call, exactly one level up, active, of that campus and year, under the next name |
| `GradePromotion.GradesNeverMerge` | backend/domain-classes/src/service.rs:295-306 | two users share a grade after the call iff they did before |
| `GradePromotion.DeactivatedGradesAreEmpty` | backend/domain-classes/src/service.rs:308-317 | a grade deactivated by the call holds no users |
| `GradePromotion.RepeatChangesNothing` | backend/domain-classes/src/service.rs:280-293 | repeating a call with two different years changes nothing |
| `UserCsv.ParseUserCsv` | backend/domain-imex/src/user_import.rs:46-303 | fails iff a required header is missing; otherwise one classified row per record up to 10000, plus one notice row if there are more |
| `UserCsv.FirstPass` | backend/domain-imex/src/user_import.rs:74-290 | the first pass checks each record and counts the usernames of exactly the rows that pass |
| `UserCsv.PassingRowIsSafe` | backend/domain-imex/src/user_import.rs:133-241 | a passing row has a non-empty username of at most 20 bytes that starts no formula, never the root role, and an administrator role only if the caller may assign it |
| `UserCsv.PassingRowExactly` | backend/domain-imex/src/user_import.rs:133-263 | a row passes iff its username and display name fit, its role text names an allowed role, and its campus and grade are numbers; it then holds just what its cells say |
| `UserCsv.SanitizedExactly` | backend/domain-imex/src/security.rs:105-110 | a cell loses its leading whitespace and then its leading formula characters, and nothing else |
| `UserCsv.PositionExactly` | backend/domain-imex/src/user_import.rs:334-343 | a column is the first header that reads so once trimmed |
| `UserCsv.ValidExactly` | backend/domain-imex/src/user_import.rs:267-300 | a row is valid iff it passes the field checks, its username is not known, and no other passing row has it |
| `UserCsv.FirstOccurrenceIsDuplicate` | backend/domain-imex/src/user_import.rs:293-300 | in a CSV that holds one record twice both rows are duplicates |
| `UserCsv.CreatedUsersDistinct` | backend/domain-imex/src/user_import.rs:305-323 | of the whole result, notice row included, the users handed on have pairwise distinct, unknown usernames |

## Left out

- Rounding, NaN and overflow of floating-point numbers.
- ZIP, JSON, CSV and UTF-8 encodings themselves; the ZIP writer is modelled as refusing a
  name it has already written.
- Computing a ranking is one step, although it runs several queries. Changes to a
  contest's schedule or problems during a run.
- LoopMetrics.MachineMeasuresCode: speaks of code whose braces match as tokens; braces in
  string literals and block comments, which the scanner reads like any others, can break
  that, and then only `WaitingIsSurplus` and `MetricsConsistent` apply.
- File names longer than a ZIP archive can hold.
- Deleting test cases, and with them their result rows, between judge callbacks.
- The effect of sorting with an order that is not transitive: `SortStems` is an insertion
  sort and agrees with any stable sort only when no stem straddles.
- LoopMetrics.NoOverflow: counts characters where the route counts bytes; every character
  is at least one byte, so the bound only becomes safer.
- PythonNesting.Scan: one loop stands for the two scans of the source, which differ only
  in which lines are counted and which open a block.
- A request cancelled between two of its steps, and an enqueue that reports an error after
  the message was added.
- Weak memory order of the preview counter; steps are sequentially consistent.
- Response building and per-item accounting of the two import handlers.
- `deactivate_grade`, `create_academic_year_grades` and class management.
- HTML escaping and highlighting of search results; search result ordering and paging.
- Centroids, LLM cards, plagiarism jobs and other batch work around the clustering.
- Function-name and recursion detection, Halstead and cyclomatic measures.
- Role tables, permission checks, authentication and password handling.
- Judge workers, queue consumers, the feature gateway, the monitor and the frontend.

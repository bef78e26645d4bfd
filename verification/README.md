# Verified models of the devsec core

This project models the parts of devsec whose correctness is hardest to see from the code, and
proves what they promise. `dafny verify dfyconfig.toml` checks all of it.

**Pipelines** (`internal/pipeline`). A pipeline is a list of stages with dependencies. `Pipelines`
holds validation with its depth-first cycle search, `Topological` Kahn's algorithm on an in-degree map,
`Execution` the sequential executor. `Parallel` is the parallel executor as a state machine: one action
is one step of the scheduler loop or of one stage's goroutine and is never larger than what the code
does under one lock acquisition, so that every interleaving is a run. `ParallelSafety` proves what holds
in every state of every run, `ParallelLiveness` deadlock freedom and termination, `Confluence` and
`Agreement` that parallel and sequential runs agree, and exactly when, `FailFast` exactly what fail-fast
keeps from running. Runners are arbitrary functions.

**Helm values** (`internal/helm`). `HelmTrees` is the right-biased deep merge on plain trees, with its
laws; `HelmValues` is the in-place merge on heap maps that may hold each other, proved against it.

**ML detector** (`internal/ml`). `Walking` is the budgeted directory walk, `TreePaths` what it reports,
`Caching` the bounded detection cache over a session with changing files, `Detection` the sequential
scan, `ConcurrentDetection`, `DetectionLiveness`, `ModelsLimit` and `FrameworksLimit` the worker pool as
a state machine, `Wire` the protobuf reader. `Samples`, `Kolmogorov` and `Percentiles` are the
statistics, over the reals.

**Compliance** (`internal/compliance`). `Identifiers` holds the CWE and CVE scanners, `CweIndex` the
weakness-to-control index, `Mapper` enrichment and assessment.

**Commands** (`internal/pipeline/runner.go`). `Tokenizer` is the quoting tokenizer of custom stages.

Some properties one would expect turn out false of the code. Lemmas say what does hold, mostly as an
exact condition, and give a concrete input where the failure is not plain from that condition:

- In parallel, a dependent of a failed stage can still run under fail-fast, because a result is published
  before its error is recorded. It can exactly when fewer of its dependencies err than there are workers,
  so never with one worker (`FailFastExactly`, `OneWorkerIsSafe`, `FailFastRace`). What fail-fast promises
  once the error is recorded is `FailFastSkips`.
- The final statuses of a parallel and a sequential run can differ, because only the parallel executor
  returns an error without fail-fast (`StatusesCanDiffer`, `StatusesAgreeExactly`).
- A dry run skips its stages, and Skipped is no status that a continue condition asks for, so under
  fail-fast it ends as failed behind the first stage that does not say Always (`DryRunStops`).
- The second of Detect's two walks reports nothing once the tree alone uses the file budget up, because
  both count on one counter (`SecondWalkStarves`, `BothWalksComplete`).
- The sequential scan can go over its limits: on frameworks with a notebook, on models with a SavedModel
  directory that comes when the limit is reached (`ScanForFrameworks`, `ScanForModels`).
- The concurrent scan can go over the limit on models, by less than the number of workers, exactly when
  there is more than one worker and more models than the limit (`LimitKeptExactly`, `ModelsNeverFarOver`),
  and over the limit on frameworks whenever the sequential scan does (`LimitNeedsRoom`, `OneWorkerExactly`).
- An edit between reading a file and taking its modification time leaves a stale entry in the cache that
  later scans take for valid (`StoredRightExactly`).
- A message with a declared length that is negative can send the parser back for ever (`ParserCanLoop`,
  `TooLongExactly`).
- The deep merge is associative only without a leaf between two maps (`AssociativeExactly`).
- With samples of different sizes and ties, the Kolmogorov-Smirnov loop can report a difference between
  distributions that agree everywhere (`TiesCanMislead`, `StatisticExactly`, `ExactWhenKinksCovered`).
- A severe finding behind a mild one with the same id is not counted, so the order of the findings can
  decide the status (`DuplicateIdHidesSeverity`, `NonCompliantExactly`, `OrderFreeExactly`), and a colon in
  a control's name can make it answer for another one (`ColonsConfuse`, `Misread`, `CorrectExactly`).

## Model

| member | source | states |
|---|---|---|
| Pipelines.Validate | internal/pipeline/pipeline.go:183-240 | validation accepts exactly the non-empty pipelines with distinct names, existing dependencies and no cycle, and answers with an error exactly if that is what is wrong: a missing or self dependency if it is the first of either kind, a cycle only when nothing else is |
| Pipelines.CycleSearch.Visit | internal/pipeline/pipeline.go:293-312 | the recursion stack is always the current search path; a repeat on it is a cycle, and a search without one leaves every visited name after all it depends on |
| Pipelines.CycleSearch.Search | internal/pipeline/pipeline.go:281-290 | the search answers true exactly when the graph is cyclic, in whatever order the map is ranged over |
| Pipelines.HasCycle | internal/pipeline/pipeline.go:271-290 | true exactly when some stage reaches itself by a non-empty path of dependencies |
| Graphs.ListedIsAcyclic | internal/pipeline/pipeline.go:271-312 | a listing with every name after all it depends on rules out cycles |
| Graphs.StuckIsCyclic | internal/pipeline/executor.go:426-428 | a non-empty set of names each depending on another one of it contains a cycle |
| Topological.RelaxStage | internal/pipeline/executor.go:412-423 | counting one name off a dependency list with repeats leaves the number of outstanding entries, and queues the stage exactly when none is left |
| Topological.TopologicalSort | internal/pipeline/executor.go:388-431 | returns every stage once, after everything it depends on, and fails exactly when the dependencies are cyclic |
| Execution.DetermineOverallStatus | internal/pipeline/executor.go:476-497 | Canceled if any result is, otherwise Failed if any is, otherwise Success |
| Execution.Run.ExecuteSequential | internal/pipeline/executor.go:152-189 | the stages run are a prefix of the order, each given the results before it; every stage but the last had no error and the status its condition asks for under fail-fast; the run ends as canceled only at a poll that said so, with a failed stage or an unmet condition only under fail-fast and for the last stage run, and without error only after all of them |
| Execution.EndsOneWay | internal/pipeline/executor.go:152-189 | how many stages run and with which error is fixed by order, runners and polls |
| Execution.AlwaysGoesOn | internal/pipeline/executor.go:462-473 | if every stage says Always, a fail-fast run ends only by an error or a cancellation |
| Execution.DryRunSkips | internal/pipeline/executor.go:321-337 | a dry run skips every stage without an error, whatever runners there are |
| Execution.DryRunStops | internal/pipeline/executor.go:170-186 | so under fail-fast a dry run stops behind the first stage whose condition is not Always |
| Execution.ValidateConfig | internal/pipeline/executor.go:68-88 | accepts exactly well-formed pipelines whose stage kinds all have runners, and refuses each other one for what is wrong with it |
| Execution.ExecutePipeline | internal/pipeline/executor.go:91-149 | an accepted pipeline runs along a topological order and ends as that order, the runners and the polls decide; with no cancellation it ends without error exactly if fail-fast is off or every stage lets it go on; its status is Failed with an error and the overall status without; any other pipeline runs nothing and says why |
| Parallel.FindReadyStages | internal/pipeline/executor.go:434-459 | the pending stages whose dependencies are all in `completed`, each once |
| Parallel.RunInvariant | internal/pipeline/executor.go:192-301 | the inductive invariant: every state of every run satisfies it, after cancellation too |
| ParallelSafety.EachStageInOnePlace | internal/pipeline/executor.go:207-296 | every stage is in exactly one of pending, in flight and completed, is handed to its runner at most once, and at most `maxWorkers` stages execute at once |
| ParallelSafety.CallsSeeAllDependencies | internal/pipeline/executor.go:269-277 | a runner's snapshot holds the final result of every direct and transitive dependency |
| ParallelSafety.HistoryOnlyGrows | internal/pipeline/executor.go:279-293 | completed results, calls and the first error never change once there; launched stages have all dependencies completed |
| ParallelSafety.FailFastSkips | internal/pipeline/executor.go:255-267 | a stage whose error check comes after the first error is never run and can only complete as Skipped |
| ParallelSafety.NormalReturnIsComplete | internal/pipeline/executor.go:279-301 | at a normal return executed and skipped stages partition the pipeline: every stage is completed, either with the result of its one call, which is also listed, or as Skipped because of an error under fail-fast |
| ParallelLiveness.StepsAreProgress | internal/pipeline/executor.go:225-301 | every step but an idle sleep lowers a natural number |
| ParallelLiveness.NeverStuck | internal/pipeline/executor.go:225-301 | deadlock freedom: until the executor has returned, a step other than a sleep is possible, full semaphore or not |
| ParallelLiveness.BusyStepsAreBounded | internal/pipeline/executor.go:225-301 | no run has more than 12 steps a stage plus 3, idle sleeps aside |
| ParallelLiveness.CanAlwaysFinish | internal/pipeline/executor.go:225-301 | every run under a live context can be continued to a normal return |
| Confluence.SequentialSolves | internal/pipeline/executor.go:152-189 | for runners that read only their dependencies' results, the sequential results are a fixed point: each is what its stage computes from them |
| Confluence.SolutionsAgree | internal/pipeline/executor.go:152-301 | there is only one such fixed point |
| Confluence.OrderDoesNotMatter | internal/pipeline/executor.go:152-189 | any two topological orders give the same results |
| Confluence.ParallelAgreesWithSequential | internal/pipeline/executor.go:192-301 | confluence: every complete interleaving without cancellation ends with the results of running every stage in a topological order, and calls every stage with the outcome it has there; under fail-fast, if no stage errs there |
| Confluence.StopsOnlyAtConditions | internal/pipeline/executor.go:170-186 | when no stage errs, the sequential executor stops early under fail-fast exactly behind a stage whose condition is not met |
| Agreement.StatusesAgreeExactly | internal/pipeline/executor.go:139-146 | the final statuses agree exactly when an error never comes without a Failed result nor beside a Canceled one |
| Agreement.StatusesAgree | internal/pipeline/executor.go:476-497 | so they agree for runners that err only with status Failed and never report Canceled |
| Agreement.StatusesCanDiffer | internal/pipeline/executor.go:139-146 | a pipeline that is Canceled sequentially and Failed in parallel |
| Agreement.OrderMattersWithoutLocality | internal/pipeline/executor.go:152-189 | a runner that reads more than its dependencies' results makes the order matter |
| FailFast.FewerErrorsThanWorkers | internal/pipeline/executor.go:249-299 | under fail-fast, in every state of every run, fewer of a called stage's direct and transitive dependencies have erred than there are workers |
| FailFast.OneWorkerIsSafe | internal/pipeline/executor.go:249-299 | with one worker no dependent of a failed stage ever runs |
| FailFast.FailFastExactly | internal/pipeline/executor.go:249-299 | for runners that read only their dependencies' results, a stage runs in some live run exactly when fewer of its dependencies err than there are workers, going by the results of running every stage in a topological order |
| FailFast.FailFastRace | internal/pipeline/executor.go:279-293 | the smallest instance: with two workers a dependent of a failed stage runs |
| HelmTrees.EmptyIsIdentity | internal/helm/values.go:100-120 | merging with the empty map on either side changes nothing |
| HelmTrees.MergeIsIdempotent | internal/helm/values.go:100-120 | merging a tree with itself changes nothing |
| HelmTrees.MergeAtPath | internal/helm/values.go:100-120 | at every path the merge has what the right tree has there, and otherwise what the left one has, unless the right one has a leaf on the way |
| HelmTrees.PathsTellTree | internal/helm/values.go:100-120 | trees that have the same at every path are the same, so that this says all about a merge |
| HelmTrees.CoveredVanishes | internal/helm/values.go:100-120 | the left tree leaves no trace exactly when the right one has all its paths |
| HelmTrees.AssociativeExactly | internal/helm/values.go:100-120 | merging is associative exactly when no path has a leaf in the middle tree and maps in both others, the right not covering the left |
| HelmTrees.MergeAllUnder | internal/helm/values.go:45-53 | what a fold of merges leaves under a key is the fold of what the overlays have under it |
| HelmTrees.AbsorbedExactly | internal/helm/values.go:100-120 | a merge changes nothing exactly when everything in the right tree is already in the left one, which is when base read through a shared submap is what it was |
| HelmValues.CopyMap | internal/helm/values.go:87-97 | a fresh map with the same values, submaps shared |
| HelmValues.MergeEntry | internal/helm/values.go:105-117 | one key is taken over: two maps are merged in the place of the old one, anything else replaces |
| HelmValues.MergeMaps | internal/helm/values.go:100-120 | on trees sharing no submaps the destination afterwards represents the deep merge, in place unless it was nil, and keeps its own submaps |
| HelmValues.MergeValues | internal/helm/values.go:45-53 | Merge is the left fold of the deep merge; base and overlays themselves are not written to, but the result goes on holding base's submaps where no overlay has anything but a map, and each stands afterwards for the fold of the overlays' submaps into it |
| Walking.BudgetIsPrefix | internal/ml/detector.go:1178-1265 | a budget cuts the reports off at the first point where it is used up and lets no more files through than are left of it |
| Walking.BudgetSuffices | internal/ml/detector.go:1178-1265 | nothing is cut off exactly when the budget lasts up to the last report |
| Walking.FileCountIsSize | internal/ml/detector.go:1248-1253 | the budget is spent on files, one each, and not on directories |
| Walking.Walker.WalkRecursive | internal/ml/detector.go:1178-1265 | from any file count the walk reports the budgeted prefix of the filtered, depth-limited preorder and counts its files |
| TreePaths.PreorderExactly | internal/ml/detector.go:1178-1265 | that preorder has one report for each way down the tree through readable directories that meets no filtered entry and stays within the depth limit, and no others, in the order of the listings with each directory before what is below it |
| TreePaths.ReportedExactly | internal/ml/detector.go:1178-1265 | a path is reported, with its kind and size, exactly when each of its names is in the listing come to so far, none is filtered, all but the last are readable directories, and it is no longer than the depth limit allows |
| TreePaths.DirectoriesFirst | internal/ml/detector.go:1255-1261 | the directory of anything reported was reported before it |
| TreePaths.SiblingsInOrder | internal/ml/detector.go:1211-1261 | what belongs to an earlier entry of a listing is reported before what belongs to a later one |
| TreePaths.EachPathOnce | internal/ml/detector.go:1178-1265 | no path is reported twice where no listing holds a name twice |
| Walking.WalkTwice | internal/ml/detector.go:286-317 | the counter never exceeds the limit over both walks of Detect |
| Walking.SecondWalkStarves | internal/ml/detector.go:286-317 | once the tree uses the budget up, the walk for models reports nothing |
| Walking.BothWalksComplete | internal/ml/detector.go:286-317 | both walks are complete exactly when the budget covers the tree twice, up to the last report |
| Caching.Detector.EvictOldest | internal/ml/detector.go:1905-1924 | removes one entry, of least modification time, unless the cache is empty |
| Caching.Detector.SetCacheEntry | internal/ml/detector.go:1849-1860 | stores the entry; a full cache loses exactly one entry, of least modification time, and the cache stays within its bound |
| Caching.Detector.DetectFile | internal/ml/detector.go:1927-2075 | a valid entry is the answer and leaves the cache alone; otherwise the file is read, and what is found is stored with the time and size taken afterwards |
| Caching.Detector.DetectWithCache | internal/ml/detector.go:1927-2075 | every file is reported as a scan without a cache would report it, in the file system at the check of its cache entry or at its reading, and the errors are the files that cannot be read or parsed there |
| Caching.StoredRightExactly | internal/ml/detector.go:2043-2060 | a new entry is right for the modification time and size stored with it exactly when, at the time these are taken, the file still holds what was read as far as the analysis can tell |
| Caching.FreshInOne | internal/ml/detector.go:1927-2075 | with no edit during the scan that is the cache-free scan of one file system |
| Caching.Session | internal/ml/detector.go:1849-2075 | over any sequence of scans and clearings, the files changing freely in between, every scan answers like one without a cache, as long as equal path, time and size mean equal content and no edit comes between reading a file and taking its time and size |
| Detection.AppendSource | internal/ml/detector.go:385-412 | a source file never takes the list over the limit, adds only matches, and all of them unless the limit is reached |
| Detection.ScanForFrameworks | internal/ml/detector.go:320-382 | reports only what is there, and all of it unless the limit is reached; the limit holds exactly when no notebook with something in it comes after as many frameworks as the limit |
| Detection.AddModels | internal/ml/detector.go:515-545 | a SavedModel directory is added whatever the limit; a model file only below it |
| Detection.FrameworksThereAre | internal/ml/detector.go:320-382 | the frameworks to be found are those that match in some source file or are in some notebook |
| Detection.ModelsThereAre | internal/ml/detector.go:508-558 | the models to be found are the model files and the SavedModel directories |
| Detection.ScanForModels | internal/ml/detector.go:508-558 | reports only what is there, each once, and all of it unless the limit is reached; the limit holds exactly when no SavedModel directory comes after as many models as the limit |
| Detection.Detect | internal/ml/detector.go:286-317 | finds everything when the budget covers the tree twice and the limits are not reached |
| ConcurrentDetection.ModelsNeverFarOver | internal/ml/detector.go:1763-1775 | in every state of every run the models list has at most `MaxModels` + workers - 1 entries |
| ModelsLimit.NoMoreThanThereAre | internal/ml/detector.go:1699-1777 | no state of any run lists more models than the walk reports |
| ModelsLimit.TwoGoOver | internal/ml/detector.go:1758-1775 | with two workers and more models than the limit, a run that lists one more than the limit |
| ModelsLimit.LimitKeptExactly | internal/ml/detector.go:1758-1775 | every run keeps the limit exactly when there is one worker or there are no more models than the limit |
| FrameworksLimit.OnlyWhatIsThere | internal/ml/detector.go:1780-1831 | every run lists only frameworks that are there, each no more often than it is there |
| FrameworksLimit.LateNotebookGoesOver | internal/ml/detector.go:1815-1831 | with any number of workers, a run over the limit when a notebook with something in it comes after as many frameworks as the limit |
| FrameworksLimit.LimitNeedsRoom | internal/ml/detector.go:1815-1831 | so the limit on frameworks holds in every run only if no notebook comes too late |
| FrameworksLimit.OneWorkerExactly | internal/ml/detector.go:1780-1831 | and with one worker exactly then, as in the sequential scan |
| ConcurrentDetection.StepConserves | internal/ml/detector.go:1699-1831 | below the limits no step loses or doubles anything among walk, channel, workers and lists |
| ConcurrentDetection.ConcurrentFindsEverything | internal/ml/detector.go:1633-1777 | every finished run that was not canceled lists exactly what there is to find, when the limits are not reached |
| ConcurrentDetection.ConcurrentAgreesWithDetect | internal/ml/detector.go:1633-1696 | on a tree the budget covers twice, every interleaving lists what Detect lists |
| DetectionLiveness.StepsAreProgress | internal/ml/detector.go:1633-1831 | every step lowers a natural number |
| DetectionLiveness.RunsAreBounded | internal/ml/detector.go:1633-1831 | no run has more steps than the work in its reports and workers |
| DetectionLiveness.NeverStuck | internal/ml/detector.go:1671-1684 | deadlock freedom: until walk, channel and workers are done some step is possible, canceled or not |
| DetectionLiveness.CanAlwaysEnd | internal/ml/detector.go:1671-1684 | every run can be continued until wg.Wait returns |
| Wire.ReadVarint | internal/ml/detector.go:1082-1100 | collecting seven bits at a time with or and shift, the sum of the bits at their weights modulo 2^64; the value and the byte count of the specification function |
| Wire.OrIn | internal/ml/detector.go:1089-1096 | or-ing seven shifted bits into those collected adds them at their weight, in the last byte too, where all but one of them leave the word |
| Wire.VarintRoundTrip | internal/ml/detector.go:1082-1100 | reading inverts the Base 128 encoding for every 64-bit value and any trailing bytes |
| Wire.ReadsSum | internal/ml/detector.go:1082-1100 | of any bytes, the shortest encoding or not, the value is the sum of the lower seven bits of each byte read at the weight of its place, modulo 2^64 |
| Wire.ReadExtent | internal/ml/detector.go:1082-1100 | nothing is read exactly when none of the first ten bytes ends a varint; otherwise it ends at the first byte below 0x80 |
| Wire.ParseOpsetImport | internal/ml/detector.go:1016-1079 | the parsing loop computes the specification function that the lemmas about messages characterise |
| Wire.OpsetRoundTrip | internal/ml/detector.go:1016-1079 | any encoded message of varint and length-delimited fields is read up to its last byte and yields its last domain and last version |
| Wire.MessageStores | internal/ml/detector.go:1068-1079 | an encoded message whose last domain is empty or spells ai.onnx sets the version to its last one and nothing else; any other one adds its last domain to the custom domains and does nothing else |
| Wire.MessagesStore | internal/ml/detector.go:1002-1079 | after any sequence of encoded messages the custom domains are those of the messages that have one, in order, and the version is that of the last ONNX message |
| Wire.RestDecides | internal/ml/detector.go:1024-1066 | a damaged field at the end leaves the metadata as they were before the message; bytes without a readable tag change nothing |
| Wire.TooLongExactly | internal/ml/detector.go:1042-1057 | the declared lengths kept out of the parser's model are exactly those that lead the position back behind the start of the payload |
| Wire.ParserCanLoop | internal/ml/detector.go:1042-1057 | eleven bytes on which it goes back to where the field began, so that the loop does not end |
| Kolmogorov.KolmogorovSmirnov | internal/ml/statistics.go:34-86 | the two-pointer loop reports the scaled statistic, divided by both sample sizes, and 0 for an empty sample |
| Kolmogorov.StatisticExactly | internal/ml/statistics.go:51-86 | a number bounds the statistic exactly when it bounds, at every value, the difference of the distribution functions and the difference after the shared copies of that value |
| Kolmogorov.NeverTooSmall | internal/ml/statistics.go:51-86 | the statistic is at least the true difference at every value |
| Kolmogorov.ExactWhenKinksCovered | internal/ml/statistics.go:51-86 | it is the supremum of the differences exactly when no intermediate point of a run of ties exceeds them all |
| Kolmogorov.ExactForEqualSizesOrCopies | internal/ml/statistics.go:51-86 | so it is for samples of one size, or when every shared value has as many copies in each |
| Kolmogorov.TiesCanMislead | internal/ml/statistics.go:51-86 | for [1, 1] against [1] it is one half although the distributions are equal |
| Kolmogorov.StatisticIsSymmetric | internal/ml/statistics.go:34-86 | swapping the samples changes nothing |
| Kolmogorov.StatisticInRange | internal/ml/statistics.go:34-86 | scaled back, the statistic lies between 0 and 1 |
| Samples.SortSorts | internal/ml/statistics.go:43-49 | the sorted copy is sorted and has the same elements |
| Percentiles.PercentileIsMonotone | internal/ml/statistics.go:463-482 | a larger p never gives a smaller percentile, outside 0 to 100 too |
| Percentiles.PercentileInRange | internal/ml/statistics.go:463-482 | every percentile lies between the first and the last element |
| Percentiles.PercentileSplitsSample | internal/ml/statistics.go:463-482 | at rank r, at least floor(r) + 1 elements are at most the percentile and at most that many are below it |
| Percentiles.StraightBetweenRanks | internal/ml/statistics.go:463-482 | between the ranks of two neighbours the percentile goes along the straight line from one to the other |
| Percentiles.MedianIsFiftiethPercentile | internal/ml/statistics.go:486-500 | the median is the 50th percentile of the sorted values, for even and odd sizes |
| Percentiles.IqrInRange | internal/ml/statistics.go:503-515 | the interquartile range is neither negative nor wider than the sample |
| Percentiles.IqrJoinsQuartiles | internal/ml/statistics.go:503-515 | it is the distance of the points one and three quarters of the way through the sorted sample |
| Identifiers.EmptyExactlyWithoutMatch | internal/compliance/mapper.go:369-506 | nothing is extracted exactly when no position matches |
| Identifiers.LeftmostIsExtracted | internal/compliance/mapper.go:369-506 | otherwise it is the leftmost match with all its digits |
| Identifiers.ExtractExactly | internal/compliance/mapper.go:369-506 | what is extracted is the first stretch of the text that is an id, at its longest; an id is CWE- and digits, or CVE-, four digits, a dash and four or more digits; without such a stretch it is nothing |
| Identifiers.WrittenIsExtracted | internal/compliance/mapper.go:369-506 | an id is extracted from the text around it if the prefix does not occur before it and no digit follows |
| Identifiers.ResumeSkipsNothing | internal/compliance/mapper.go:396-399 | resuming behind a failed prefix skips no match |
| Identifiers.ExtractCWEFromString | internal/compliance/mapper.go:369-404 | the scanning loop is the naive search at every position |
| Identifiers.ExtractCVEFromString | internal/compliance/mapper.go:438-506 | the scanning loop is the naive search at every position |
| Identifiers.ExtractIsIdempotent | internal/compliance/mapper.go:369-506 | an extracted id is an id from end to end and is extracted from itself |
| CweIndex.NormalizeSettles | internal/compliance/cwe.go:90-103 | normalising is idempotent and leaves extracted ids alone |
| CweIndex.SpellingsAgree | internal/compliance/cwe.go:90-103 | a bare number and both spellings with CWE have one normal form |
| CweIndex.SpacesAroundIgnored | internal/compliance/cwe.go:90-92 | spaces around an id do not change its normal form |
| CweIndex.CaseIgnored | internal/compliance/cwe.go:90-92 | nor does the case of its letters |
| CweIndex.CWEMapper.AddMapping | internal/compliance/cwe.go:62-75 | both maps go on saying what the sequence of added mappings says |
| CweIndex.CWEMapper.GetControls | internal/compliance/cwe.go:33-45 | the controls added for the weakness, in the order they were added |
| CweIndex.CWEMapper.GetCWEs | internal/compliance/cwe.go:48-59 | the weaknesses added for the control, in the order they were added |
| CweIndex.RefsInOrder | internal/compliance/cwe.go:62-75 | these controls are those of the mappings of the weakness, one each, in the order the mappings were added |
| CweIndex.CwesInOrder | internal/compliance/cwe.go:62-75 | and these weaknesses those of the mappings of the control |
| CweIndex.BothViewsAgree | internal/compliance/cwe.go:62-75 | a control has a weakness exactly as often as the weakness has the control |
| Mapper.Enrich | internal/compliance/mapper.go:65-119 | every finding gets the ids in its text and the keys of the controls indexed to them; too many findings and cancellation are the only errors |
| Mapper.IdsOfFinding | internal/compliance/mapper.go:344-435 | the ids in its text are the first one in the rule and the first one in the description, for vulnerabilities also the first one in the id of the finding |
| Mapper.MapCWEsToControls | internal/compliance/mapper.go:323-340 | the keys of all controls indexed to some of the weaknesses, once each |
| Mapper.AssessControl | internal/compliance/mapper.go:242-320 | the set-based loop computes the specification that AssessedExactly and the status lemmas characterise |
| Mapper.AssessedExactly | internal/compliance/mapper.go:259-319 | the ids reported are those of the first matches of their ids, in the order of the findings, and the two counts are the numbers of critical and of high ones among these |
| Mapper.ReportedIds | internal/compliance/mapper.go:259-294 | the reported ids are distinct and are those of the matching findings |
| Mapper.CountsAddUp | internal/compliance/mapper.go:285-300 | critical and high findings together are no more than all |
| Mapper.CompliantByKey | internal/compliance/mapper.go:242-340 | compliant exactly when no finding names a weakness listed by the control or indexed to a key that reads like the control's key or id |
| Mapper.CompliantExactly | internal/compliance/mapper.go:242-340 | a control whose framework and id hold no colon is compliant exactly when no finding names a weakness listed by the control or indexed to it, whatever the index holds |
| Mapper.CorrectExactly | internal/compliance/mapper.go:242-340 | a control is assessed like that for every index and every list of findings exactly when its framework and id hold no colon; the controls that ship with the program hold none |
| Mapper.Misread | internal/compliance/mapper.go:267-281 | a weakness indexed only to another control whose key reads like this one's key or id makes this one Partial |
| Mapper.NonCompliantExactly | internal/compliance/mapper.go:302-317 | non-compliant exactly when some first match of an id is critical or high |
| Mapper.NonCompliantWithDistinctIds | internal/compliance/mapper.go:259-317 | with distinct ids, non-compliant exactly when some matching finding is critical or high |
| Mapper.OrderFreeExactly | internal/compliance/mapper.go:242-320 | no reordering of the findings changes the status exactly when no critical or high finding matches, or some id has matching findings and all of them are critical or high |
| Mapper.OrderIsIrrelevant | internal/compliance/mapper.go:242-320 | in particular, with distinct ids any list of the same findings gives the same status |
| Mapper.AppendingNeverHelps | internal/compliance/mapper.go:302-317 | appending findings never improves a status |
| Mapper.DuplicateIdHidesSeverity | internal/compliance/mapper.go:259-294 | two findings with one id whose order decides between Partial and NonCompliant |
| Mapper.ColonsConfuse | internal/compliance/mapper.go:267-273 | the smallest instance: a control whose id holds a colon is Partial although nothing is indexed to it |
| Tokenizer.ParseCommand | internal/pipeline/runner.go:794-823 | the loop computes the specification function of the tokenizer |
| Tokenizer.ParseIsSplit | internal/pipeline/runner.go:794-823 | the tokens are the non-empty pieces between unquoted spaces, without active quotes |
| Tokenizer.TokensKeepEverything | internal/pipeline/runner.go:794-823 | no token is empty, and together they are the command minus active quotes and unquoted spaces |
| Tokenizer.ParseUndoesQuoting | internal/pipeline/runner.go:794-823 | words written with any mix of plain and quoted stretches and joined by spaces parse back |

## Left out

- Commands, terminal output, report formats, Kubernetes, policy engines, notifiers, metrics, signing and attestation: presentation, or thin layers over libraries.
- Time: stage timeouts, durations and timestamps. A context that is done is a nondeterministic step, or a parameter saying what each poll of it answers; the directory walk and the cached scan are modelled without it.
- Pipelines.Validate: leaves out the length and size limits, the kind names and the other checks of a single stage.
- Execution.ExecutePipeline: composes validation, sorting and the sequential executor; a parallel run is a state machine rather than a method, and its final status is `Agreement.ParallelStatus`.
- The parallel executor never looks at continue conditions; neither does its model.
- Error texts. The concurrent scan's error list is not compared with the sequential one's.
- Regular expressions and file formats: what a file's content matches is a function of the content. Confidence values, model metadata and hashes are not modelled.
- Caching.Detector.DetectWithCache: covers Python files and notebooks; the models it also lists do not go through the cache. The limit on frameworks within one file is not modelled: there are fewer patterns than the limit. An edit between reading a file and taking its time and size is kept out by the precondition, since the entry stored is then wrong (`Caching.StoredRightExactly`).
- Detection.Detect: says nothing about which entries are kept when a limit is reached, since that depends on the order in which maps are ranged over.
- Wire.ParseOpsetImport: its precondition keeps out messages with a declared length that is negative or leads beyond a signed 64-bit position. There the source goes back in the message, where it may read on from another place, not end (`Wire.ParserCanLoop`) or slice out of range and panic; the model says only which lengths these are (`Wire.TooLongExactly`).
- Kolmogorov.KolmogorovSmirnov: floating-point rounding, critical values and p-values. The library sort is the function `Samples.Sort`.
- CweIndex.NormalizeSettles: text is ASCII; Unicode spaces and case folding are not modelled. The default table of mappings is not copied: everything is proved for any sequence of added mappings.
- Mapper.Enrich: a nil list and an empty one are both the empty list. Grouping the assessments by framework, with its limit on controls, only repeats AssessControl.
- HelmValues.MergeMaps: stated for maps that share no submaps, as values read from separate files are.
- Report aggregation, coverage counters, SBOM lines, configuration checks and registries: they would add only easy members.

# OpenPine model

A Dafny model of the algorithms OpenPine relies on when it aligns, stores, publishes and compares
trading data, with proofs that they keep what they promise. `dafny verify dfyconfig.toml` checks
everything.

| module | what it models |
|---|---|
| `NumberTheory`, `BarIndexAlignment` | recovering the Pine bar index of a chart: periodic NA columns become congruences that a gcd/lcm loop merges (openpine/batch/runner.py) |
| `RunIdentity` | publishing a run identity once: any number of calls, each a sequence of system calls, interleaved with faults and crashes over a volatile and a durable directory (openpine/run_identity.py) |
| `DirectProvider` | paged download of klines with a page cap and a memoised listing start (openpine/data/direct_provider.py) |
| `Calendar`, `CandleStore` | month partition files behind a min/max manifest table (openpine/data/candle_storage.py) |
| `Paths`, `StackLock` | the length-prefixed byte stream of the package tree digest (openpine/stack_lock.py) |
| `Distribution` | pruned source selection and size caps (openpine/distribution.py) |
| `StackRules`, `Requirements`, `StackCandidate`, `StackSamples` | release candidates: the rules field by field, the requirement texts, two producers and three independent consumers, and inputs they accept or reject (scripts/, openpine/admission.py) |
| `Coverage` | the coverage report of a bar series (openpine/adapters/bars.py) |
| `TvOverlay` | layering chart and corpus prices over provider bars (openpine/batch/) |
| `ParityRules`, `Parity` | comparing TradingView exports with OpenPine exports (openpine/cli/compare.py) |
| `SealedStore` | content-addressed artifact directories under concurrent savers (openpine/artifacts/store.py) |
| `Achievements` | statistics, unlocks and events (openpine/achievements/engine.py) |
| `Sorting`, `Ties`, `Prelude` | stable sorting by an order and by a key, filtering, options and results |

State that the source updates in place is a class or a state machine: `DirectBinanceProvider`,
`CandleStorage` and `AchievementEngine` are classes whose methods name what they change;
`RunIdentity` and `SealedStore` are machines whose events are single system calls of any number of
concurrent calls. Loops are methods proved against specification functions. `StackRules` and
`ParityRules` say what the checks and comparisons decide without using the functions that decide it;
elsewhere the members named `...Exactly` do.

JSON text, regular expressions and digests are parameters. In `StackCandidate` digests are well
formed and never zero; in `SealedStore` they are also free of collisions, so a digest is its input.
Times are unbounded integers.

Where the code does less than one would expect:

- Two months written within one millisecond get the same manifest id, and the first month is
  unlisted (`CandleStore.SameMillisecondLosesAMonth`). `CandleStore.WrittenTimesReadExactly` says
  exactly which open times a read returns for any clock.
- `fetch_bars` reports "valid" whenever it has a bar. `DirectProvider.DirectBinanceProvider.FetchBars`
  says exactly when that happens while a listed bar is missing, and
  `DirectProvider.FailedPageReportsValid` is such a fetch.
- The artifact reader translates line endings. An artifact whose texts hold a carriage return does
  not read back (`SealedStore.ReadsBackExactly`, an equivalence).
- Of two savers of one payload that both find the name free, the second fails
  (`SealedStore.LosingTheRaceFails`). `SealedStore.SaveOutcomeExactly` gives the outcome of every save.
- When a separate AST artifact is given, no digest binds the tree text
  (`SealedStore.SecondTreeIsDropped`; `SealedStore.SecondTreeExactly` is the equivalence).
- Materialization does not exclude component names that differ only in `-` and `_`, which the
  resolver rejects (`StackCandidate.MaterializedLoadableExactly`, at an input
  `StackSamples.ClashIsMaterializedNotLoadable`). Finalization does.
- The unlock table's key contains a NULL, so it does not prevent a second row. The `NOT IN` of the
  query does, and that is what the proof of `Achievements.MetricStep` uses.
- Canonical trade order is independent of the given order only if equal keys mean equal rows
  (`Parity.OrderIgnoredExactly`, an equivalence). What the comparison reports for a reordered file
  depends on less: `Parity.ReorderedFileMatches`.

## Model

| member | source | states |
|---|---|---|
| `NumberTheory.LcmIsLeastCommonMultiple` | openpine/batch/runner.py:630 | the lcm is positive, is a multiple of both numbers and divides every common multiple |
| `NumberTheory.SolvableMeansGcd` | openpine/batch/runner.py:627-629 | if two congruences have a common solution, the gcd of their moduli divides the difference of their residues |
| `NumberTheory.SearchHits` | openpine/batch/runner.py:631-635 | Bezout: when the gcd test passes, some step of the progression from the residue, below the lcm, satisfies the next congruence |
| `BarIndexAlignment.NaPositions` | openpine/batch/runner.py:595-597 | lists exactly the missing rows, ascending |
| `BarIndexAlignment.ColumnConstraintIsPeriodicMask` | openpine/batch/runner.py:591-614 | every column with a periodic NA mask (three or more NA rows, period 2 to 128, no other NA) yields its congruence |
| `BarIndexAlignment.ColumnConstraintMeansMask` | openpine/batch/runner.py:591-614 | conversely, a column that yields a congruence has exactly such a mask |
| `BarIndexAlignment.ColumnConstraintExactly` | openpine/batch/runner.py:591-614 | the two together on the cells themselves: a column shows a period and a residue iff it yields that congruence |
| `BarIndexAlignment.DetectPeriod` | openpine/batch/runner.py:592-614 | one round of the column loop computes the column's congruence or skips it |
| `BarIndexAlignment.CollectConstraints` | openpine/batch/runner.py:589-614 | lists exactly the congruences of the periodic columns, in column order |
| `BarIndexAlignment.ConstraintListUnique` | openpine/batch/runner.py:589-614 | there is only one such list |
| `BarIndexAlignment.MergeColumns` | openpine/batch/runner.py:589-638 | column loop and merge loop together: the kept constraints and their whole solution set, also when no column is periodic |
| `BarIndexAlignment.GcdTestDecidesConsistency` | openpine/batch/runner.py:627-629 | the gcd test passes if and only if the constraint is consistent with all constraints kept so far |
| `BarIndexAlignment.MergeStep` | openpine/batch/runner.py:630-638 | a common solution below the lcm represents the whole solution set of the extended system |
| `BarIndexAlignment.FirstCandidate` | openpine/batch/runner.py:631-635 | the `next(...)` search always finds a value, below the combined modulus and satisfying both congruences |
| `BarIndexAlignment.MergeConstraints` | openpine/batch/runner.py:621-638 | the loop keeps exactly the greedily consistent constraints; 0 <= residue < modulus, the modulus is their lcm, and an integer solves all of them iff it is congruent to the residue |
| `BarIndexAlignment.GreedyConsistent` | openpine/batch/runner.py:619-638 | the kept constraints have a common solution |
| `BarIndexAlignment.GreedyMaximal` | openpine/batch/runner.py:619-638 | every skipped constraint contradicts the kept ones |
| `BarIndexAlignment.SatisfiesMeansAligned` | openpine/batch/runner.py:606-611 | a first bar index satisfies a column's congruence iff, between the first and last NA of the column, exactly the NA rows fall on multiples of the period |
| `BarIndexAlignment.InferFromPeriodicNa` | openpine/batch/runner.py:577-653 | an offset is inferred iff two or more columns are kept; it aligns all of them, and a first bar index aligns all of them iff it agrees modulo the reported modulus |
| `BarIndexAlignment.CollectCounters` | openpine/batch/runner.py:536-554 | lists every column that shows bar numbers, with its first value: outside the time, price and volume columns, named with "bar" in any case, two or more rows that read as consecutive numbers |
| `BarIndexAlignment.CounterStartExactly` | openpine/batch/runner.py:537-554 | a column is taken for a counter from a start iff it shows bar numbers from that start |
| `BarIndexAlignment.CountersAgree` | openpine/batch/runner.py:564-567 | the offset set has one element iff some first bar index is shown by all counting columns |
| `BarIndexAlignment.FirstVisible` | openpine/batch/runner.py:519-528 | the first bar at or after the chart start, or none if there is none |
| `BarIndexAlignment.InferBarIndexOffset` | openpine/batch/runner.py:513-574 | which of the four outcomes is returned, exactly: a counter offset iff some column shows bar numbers and all such columns agree, ambiguous iff they disagree; and that the offset makes every such column, or every kept periodic column, agree with the shifted bar index |
| `RunIdentity.ActKeepsInv` | openpine/run_identity.py:355-428 | each system call of a publishing call keeps the invariant and the target |
| `RunIdentity.CrashKeepsInv` | openpine/run_identity.py:387-428 | a crash with arbitrary loss of unsynced bytes and names keeps the invariant |
| `RunIdentity.FaultKeepsInv` | openpine/run_identity.py:423-428 | a failing system call and its cleanup keep the invariant and the target |
| `RunIdentity.RunKeepsInv` | openpine/run_identity.py:289-432 | the invariant holds after every interleaving of arrivals, steps, faults, write-backs and crashes |
| `RunIdentity.TargetIsOneCompleteBody` | openpine/run_identity.py:400-428 | at every point of every run a visible target is one caller's complete body or the older target unchanged |
| `RunIdentity.TargetNeverRebound` | openpine/run_identity.py:412-421 | without a crash a published target keeps its file and its bytes for ever |
| `RunIdentity.NormalReturnsAgree` | openpine/run_identity.py:387-428 | all calls that ever return normally carried equal payloads |
| `RunIdentity.ReturnedIdentitySurvives` | openpine/run_identity.py:387-428 | once a call has returned normally, its identity is durable and survives every later event, crashes included |
| `RunIdentity.UndisturbedCallIsExact` | openpine/run_identity.py:387-428 | an undisturbed finished call returned normally iff the published payload is its own, and otherwise ended in conflict |
| `RunIdentity.TemporaryNameRemoved` | openpine/run_identity.py:423-428 | without a crash, a finished call whose unlink did not fail leaves no temporary name, whatever else failed and whoever else ran |
| `RunIdentity.LateCallerDecided` | openpine/run_identity.py:396-398 | a caller that finds a published identity is decided by two system calls, normally if equal and in conflict if different, and leaves directory, files and every other call as they were |
| `RunIdentity.FirstCallerPublishes` | openpine/run_identity.py:396-428 | a caller that finds none and is left alone publishes its payload and returns; the directory is as before plus the target, without its temporary name |
| `DirectProvider.InRangeExact` | openpine/data/direct_provider.py:134 | what a server with a spaced listing holds in a closed range, and that the range is again spaced |
| `DirectProvider.NextPage` | openpine/data/direct_provider.py:179-184 | advancing the cursor past the last bar of a page leaves exactly the rest of the range |
| `DirectProvider.EstimateIsEnough` | openpine/data/direct_provider.py:75-93 | the bar and page estimates bound what any listed range can hold |
| `DirectProvider.EstimatesExactly` | openpine/data/direct_provider.py:75-93 | the bar estimate is the number of grid points from start to end, the page estimate the least number of pages of 1000 that hold them |
| `DirectProvider.MaxPages` | openpine/data/direct_provider.py:98-125 | the page cap is the estimate plus five, at least one, and larger than any range fills |
| `DirectProvider.SortedByTimeKeepsAscending` | openpine/data/direct_provider.py:200-202 | the final sort and deduplication changes nothing the loop collected |
| `DirectProvider.TakePage` | openpine/data/direct_provider.py:134-184 | one answered request: its bars are added, and either nothing before the end is left or the cursor stands at the next page |
| `DirectProvider.FetchPages` | openpine/data/direct_provider.py:123-184 | a prefix of the listed range, never stopped by the page cap; another page is asked for only after a full one that ends more than a bar before the end; when request k is the first to fail exactly the first 1000*k bars, otherwise everything that opens before the end |
| `DirectProvider.LeftExactly` | openpine/data/direct_provider.py:141-184 | a bar before the end is left behind iff the first unanswered request k would have brought one: bar 1000*k of the range opens before the end |
| `DirectProvider.MissesExactly` | openpine/data/direct_provider.py:141-184 | the same in terms of the listing: a listed bar of [start, end) is missing iff the collected prefix leaves one |
| `DirectProvider.CoverageOf` | openpine/data/direct_provider.py:204-213 | the report: delivered start and end of the bars, "valid" iff there is a bar |
| `DirectProvider.Download` | openpine/data/direct_provider.py:98-217 | page loop, sort and report together, from the clamped start |
| `DirectProvider.MemoSurvivesNewBars` | openpine/data/direct_provider.py:47-65 | a correct listing-start memo stays correct when bars are added |
| `DirectProvider.DirectBinanceProvider.constructor` | openpine/data/direct_provider.py:44-45 | the memo starts empty |
| `DirectProvider.DirectBinanceProvider.GetEarliestOpenTime` | openpine/data/direct_provider.py:47-65 | one lookup per key: a remembered answer is returned; a new one is the first open of the listing iff the lookup is answered and that open is not after the end; other keys are left alone |
| `DirectProvider.DirectBinanceProvider.EffectiveStart` | openpine/data/direct_provider.py:67-73 | the start is clamped to the known listing start, which changes neither the listed bars nor the range, for any later query of the key |
| `DirectProvider.DirectBinanceProvider.FetchBars` | openpine/data/direct_provider.py:95-217 | ascending listed bars of [start, end] with none skipped; all of [start, end) unless a request failed, and then exactly the pages before it; the reported start is the start clamped to the known listing start; the report is "valid" iff there is a bar, and "valid" while a listed bar is missing iff a page after the first is lost |
| `DirectProvider.FailedPageReportsValid` | openpine/data/direct_provider.py:141-142 | such a fetch: of 1001 listed bars the second request fails, the last bar is missing and the report is "valid" |
| `CandleStore.PartOf` | openpine/data/candle_storage.py:454-506 | the manifest of a write describes its file: minimum, maximum and count of the sorted rows, which are a permutation of the bars |
| `CandleStore.ApplyKeepsValid` | openpine/data/candle_storage.py:443-539 | every write keeps every manifest truthful, whatever the clock shows |
| `CandleStore.RunKeepsValid` | openpine/data/candle_storage.py:443-539 | so does every run of writes |
| `CandleStore.PrunedListIsFiltered` | openpine/data/candle_storage.py:594-620 | the pruned manifest list is the full list of the identity, in the same order, without the non-overlapping ones |
| `CandleStore.PruningLosesNoRow` | openpine/data/candle_storage.py:559-573 | the manifests pruned by min/max hold no row of the window |
| `CandleStore.PrunedRowsAreAllRows` | openpine/data/candle_storage.py:559-620 | reading through the index gives the rows of a full scan, in the same order |
| `CandleStore.DeduplicatedIsAscending` | openpine/data/candle_storage.py:192-201 | deduplication keeps exactly the open times of its input, each once, strictly ascending |
| `CandleStore.FullScanFinds` | openpine/data/candle_storage.py:541-582 | a read returns an open time iff it is in the window and an active file of the identity holds it |
| `CandleStore.TableExactly` | openpine/data/candle_storage.py:508-539 | which manifests a run leaves listed, for every clock: those that no later write of the same id or path replaced |
| `CandleStore.UntouchedWriteIsRead` | openpine/data/candle_storage.py:443-582 | the rows of a write whose manifest is still listed are found by every read of its window |
| `CandleStore.WrittenTimesAreRead` | openpine/data/candle_storage.py:401-441 | under an advancing clock every open time ever written is returned by every later read whose window contains it |
| `CandleStore.WrittenTimesReadExactly` | openpine/data/candle_storage.py:458-539 | for any clock, a read returns an open time iff some write holds it and no later write makes the same manifest id (clock reading and file name digest) or the same file |
| `CandleStore.ReturnedBarHasOrigin` | openpine/data/candle_storage.py:541-582 | a returned bar is the first at its time, close time defaulted to the open time, of a still listed write that begins no later than any other listed write holding that time |
| `CandleStore.RunConcat` | openpine/data/candle_storage.py:401-441 | writing after a run of writes is one longer run |
| `CandleStore.ReadsHistory` | openpine/data/candle_storage.py:541-582 | what a read returns, for a whole history of writes |
| `CandleStore.AdvancingClockListsAll` | openpine/data/candle_storage.py:458-489 | when the clock advances between writes, every write keeps answering for its open times |
| `CandleStore.SameMillisecondLosesAMonth` | openpine/data/candle_storage.py:487-489 | two months written in one millisecond share a manifest id, and the first month is no longer readable |
| `CandleStore.PartitionsConserve` | openpine/data/candle_storage.py:168-189 | the month partitions, concatenated, are a permutation of the input |
| `Calendar.MonthContains` | openpine/data/candle_storage.py:168-189 | the month of a time, by the Gregorian calendar, is the one between whose first and last millisecond it lies |
| `CandleStore.PartitionByMonth` | openpine/data/candle_storage.py:168-189 | the loop gives each month exactly its bars, in order, and no empty or repeated month |
| `CandleStore.DeduplicateRows` | openpine/data/candle_storage.py:192-201 | the loop keeps the first row of each open time and sorts |
| `CandleStore.CandleStorage.constructor` | openpine/data/candle_storage.py:245-268 | an empty valid store with no history |
| `CandleStore.CandleStorage.WritePartition` | openpine/data/candle_storage.py:443-506 | writes exactly one file and returns its manifest |
| `CandleStore.CandleStorage.InsertManifest` | openpine/data/candle_storage.py:508-539 | replaces the manifests of the same id or path, keeps all others |
| `CandleStore.CandleStorage.WriteMonths` | openpine/data/candle_storage.py:413-434 | one write per month, all rows counted, state equal to the run of those writes |
| `CandleStore.CandleStorage.WriteCandles` | openpine/data/candle_storage.py:372-441 | rows_written equals the number of candles, an unresolvable key changes nothing, and the history of the store grows by one write per month |
| `CandleStore.CandleStorage.ReadCandles` | openpine/data/candle_storage.py:541-582 | the read through the index equals the full scan, errors included; over any calls before it, it returns exactly the open times that a write of the history still answers for, strictly ascending, each bar the first at its time of a still listed write that begins no later than any other listed write holding the time |
| `CandleStore.CandleStorage.WriteMonth` | openpine/data/candle_storage.py:421-434 | one partition file and its manifest; the store stays truthful |
| `CandleStore.CandleStorage.ReadRows` | openpine/data/candle_storage.py:559-573 | the window rows of the listed files, or failure iff a file is missing |
| `StackLock.ValueOfBigEndian` | openpine/stack_lock.py:104-106 | a length below 256^k reads back from its k big-endian bytes |
| `StackLock.ParseInvertsStream` | openpine/stack_lock.py:101-107 | the framed stream decodes to exactly the framed entries |
| `StackLock.StreamInjective` | openpine/stack_lock.py:101-107 | different entry lists give different streams |
| `StackLock.Update` | openpine/stack_lock.py:104-107 | the four digest updates append one frame |
| `StackLock.TreeStream` | openpine/stack_lock.py:85-108 | the bytes fed to the digest are the frames of the sorted shipped files |
| `StackLock.SameSetSameOrder` | openpine/stack_lock.py:90-100 | the candidate list depends only on the set of shipped files |
| `StackLock.ShipsExactly` | openpine/stack_lock.py:90-98 | which files are shipped, in terms of their path |
| `StackLock.EqualStreamsMeanEqualTrees` | openpine/stack_lock.py:85-108 | two trees give the same stream iff they ship the same files with the same contents, where the lock file, cache directories and compiled modules are not shipped |
| `Distribution.PrunedIsExcluded` | openpine/distribution.py:103-119 | everything below a directory that the walk prunes is excluded anyway |
| `Distribution.PrunedWalkExactly` | openpine/distribution.py:220-239 | the pruned walk yields a file iff the plain walk does and no directory above it is pruned |
| `Distribution.PrunedWalkSelectsTheSame` | openpine/distribution.py:214-239 | after the exclusion filter the pruned and the plain walk give the same files in the same order |
| `Distribution.SelectionIgnoresPruning` | openpine/distribution.py:282-294 | the released file list is the one an unpruned walk would give |
| `Distribution.WalkExactly` | openpine/distribution.py:220-239 | the plain walk yields exactly the regular files of the tree, reached through real directories |
| `Distribution.ExcludedExactly` | openpine/distribution.py:103-119 | which paths are excluded, in terms of their components and the extension of the last |
| `Distribution.PruneExactly` | openpine/distribution.py:214-217 | which directories are pruned |
| `Distribution.CandidatesExactly` | openpine/distribution.py:220-239 | the candidates are the regular files of the tree without a pruned directory above them |
| `Distribution.SelectionExactly` | openpine/distribution.py:282-294 | what is released is exactly the regular files of the tree that are not excluded |
| `Distribution.SelectionOrdered` | openpine/distribution.py:292-293 | in the dictionary order of their POSIX spellings |
| `Distribution.ValidateSizeCaps` | openpine/distribution.py:249-279 | accepts iff both caps are positive and respected, returns the total, and reports the first offender |
| `Distribution.CopyBounded` | openpine/distribution.py:359-383 | copies every byte iff the file fits both caps; never writes past a cap |
| `Distribution.StreamFiles` | openpine/distribution.py:462-491 | streaming succeeds iff the streamed sizes pass the validated caps, and then archives every file whole |
| `StackCandidate.SealedIsIntact` | scripts/materialize_stack_candidate.py:41-50 | sealing stores a nonzero digest that later recomputation confirms, and changes no other field |
| `StackCandidate.OutputKeyClashIsDistributionClash` | scripts/resolve_stack_candidate.py:94-97 | names with the same output key are the same distribution |
| `StackCandidate.MaterializeCandidate` | scripts/materialize_stack_candidate.py:88-158 | succeeds iff template, timestamp, provenance, policy and every component row are well formed, field by field; the result has exactly the listed fields and a seal over them |
| `StackCandidate.CheckedRows` | scripts/materialize_stack_candidate.py:115-140 | the component loop succeeds iff every row passes, and builds one row per component |
| `StackCandidate.ContractSchemaHashes` | scripts/finalize_stack_candidate.py:74-104 | succeeds iff the schema catalogue is well formed, unrepeated and complete, and hashes each listed schema |
| `StackCandidate.IndexBy` | scripts/finalize_stack_candidate.py:150-169 | a dictionary-filling loop with a duplicate check succeeds iff all items pass and keys are distinct, and then indexes them |
| `StackCandidate.PairUp` | scripts/finalize_stack_candidate.py:150-176 | component and wheel indexes have equal key sets iff the distributions pair up one to one |
| `StackCandidate.IndexesPair` | scripts/finalize_stack_candidate.py:170-181 | equal key sets give the one-to-one pairing, and without them there is none |
| `StackCandidate.OnlyBinding` | scripts/finalize_stack_candidate.py:150-195 | the binding is unique, so a binding exists iff this one fits |
| `StackCandidate.BindComponents` | scripts/finalize_stack_candidate.py:150-195 | binds iff some one-to-one pairing of components with fitting wheels exists, and writes each wheel's name and digest into its row |
| `StackCandidate.FinalizeCandidate` | scripts/finalize_stack_candidate.py:134-201 | succeeds iff the source is intact, components and wheels correspond one to one by distribution name with equal versions, every requirement on the stack is an exact pin, and the contract schemas are there; the result is the source with wheel names and digests, schema hashes and a new seal |
| `StackCandidate.InternalPinsAreWheelVersions` | scripts/finalize_stack_candidate.py:107-131 | every requirement text of a bound wheel that names another component, in any spelling, reads as "==" and the version that component's wheel carries, with no URL |
| `Requirements.NormalizedAlike` | scripts/finalize_stack_candidate.py:32-33 | two names are one distribution iff they are equal up to case and the choice of -, _ and . |
| `Requirements.RequirementReads` | scripts/finalize_stack_candidate.py:107-131 | for every requirement text cut into name, specification and marker: the distribution it names, and that it passes against a version iff its specification without blanks is "==" and the version and there is no @ or git+ |
| `Requirements.EveryRequirementReads` | scripts/finalize_stack_candidate.py:113-117 | every text can be cut so |
| `Requirements.PlainRequirement` | scripts/finalize_stack_candidate.py:113-131 | the usual case: a name and a tail without marker, URL or white space other than blanks passes iff the tail without blanks is "==" and the version |
| `StackCandidate.BindableExactly` | scripts/finalize_stack_candidate.py:134-201 | the finalizer's checks decide its rule |
| `StackCandidate.LoadCandidate` | scripts/resolve_stack_candidate.py:56-122 | the resolver loop accepts exactly the manifests that meet its rule, field by field |
| `StackCandidate.WheelHashes` | scripts/install_candidate_wheelhouse.py:31-55 | accepts exactly the manifests whose rows name distinct wheel files with digests, and maps each file to its digest |
| `StackCandidate.VerifyLocalHashes` | scripts/install_candidate_wheelhouse.py:85-103 | accepts iff there is a wheel file, the wheel files found are exactly the expected ones, and each has the expected digest |
| `StackCandidate.WheelIdentities` | openpine/admission.py:118-139 | one identity per component, sorted by name, each with the component's version and wheel digest |
| `StackCandidate.DeploymentIdentity` | openpine/admission.py:93-181 | accepts exactly the manifests that meet the admission rule, field by field, and identifies each component once by name, version and wheel digest, in name order |
| `StackCandidate.MaterializedLoadableExactly` | scripts/resolve_stack_candidate.py:90-122 | the resolver accepts a freshly materialized manifest iff no two component names are equal up to - and _, which the producer does not check |
| `StackCandidate.ReleasedIsLoadable` | scripts/resolve_stack_candidate.py:56-122 | every materialized and finalized manifest is accepted by the resolver; the duplicate-distribution check rules out the output-key clash |
| `StackCandidate.ReleasedIsInstallable` | scripts/install_candidate_wheelhouse.py:31-103 | every such manifest is accepted by the installer, and so is the wheelhouse it was made from |
| `StackCandidate.ReleasedIsAdmissible` | openpine/admission.py:93-181 | every such manifest is accepted by admission |
| `StackCandidate.ReleasedPassesRules` | openpine/admission.py:93-181 | every such manifest meets the rules of resolver, installer and admission, field by field |
| `StackCandidate.BoundIdentity` | openpine/admission.py:122-139 | the admitted identity of a bound row is its version and the digest of its wheel's bytes |
| `StackCandidate.ReleasedIdentities` | openpine/admission.py:118-139 | whatever identity admission derives from a released manifest has, per component exactly once and nothing else, its version and the digest of the bytes of its bound wheel |
| `StackSamples.NamesMaterialize` | scripts/materialize_stack_candidate.py:88-158 | any component names with "openpine" among them are materialized |
| `StackSamples.ClashIsMaterializedNotLoadable` | scripts/resolve_stack_candidate.py:90-97 | a template with components openpine, a-b and a_b is materialized and the resolver rejects the manifest |
| `StackSamples.SampleIsReleased` | scripts/finalize_stack_candidate.py:134-201 | a two-component stack whose first wheel pins the second goes through both producers |
| `StackSamples.LoosePinIsNotFinalized` | scripts/finalize_stack_candidate.py:126-131 | the same wheelhouse with ">=" in place of "==" is not finalized |
| `StackSamples.SamplesExist` | scripts/materialize_stack_candidate.py:23-27 | patterns and texts that meet what these results ask for |
| `Coverage.GridStep` | openpine/adapters/bars.py:141-145 | a request's grid points are its start and the grid points one duration later |
| `Coverage.SlotExists` | openpine/adapters/bars.py:141-145 | every instant of the request lies in the slot of some grid point |
| `Coverage.SlotUnique` | openpine/adapters/bars.py:141-145 | and of only one |
| `Coverage.MissingCoversUndelivered` | openpine/adapters/bars.py:138-148 | an instant is in a missing interval iff its grid point was not delivered |
| `Coverage.MissingOrdered` | openpine/adapters/bars.py:138-148 | the missing intervals are nonempty, ordered, disjoint and inside the request |
| `Coverage.NothingMissingExactly` | openpine/adapters/bars.py:138-148 | no interval is missing iff every grid point was delivered |
| `Coverage.ValidExactly` | openpine/adapters/bars.py:149-157 | the status is "valid" iff there are bars, they strictly ascend and every grid point is delivered |
| `Coverage.ReportExactly` | openpine/adapters/bars.py:124-167 | each of the five statuses, the repeated times and when gaps are reported, in terms of the bars |
| `Coverage.DeliveredRange` | openpine/adapters/bars.py:161-162 | the delivered range is from the first bar's time to the greatest close of any bar |
| `Coverage.ReportTilesRequest` | openpine/adapters/bars.py:124-167 | gaps and slots of delivered grid points cover the request exactly, without overlap |
| `TvOverlay.LoadVisibleBars` | openpine/batch/tv_corpus.py:213-232 | the first prices seen per time are kept, conflicts counts the disagreeing rows, rows_loaded plus conflicts is all rows |
| `TvOverlay.MergeVisibleBars` | openpine/batch/tv_corpus.py:245-271 | each provider bar keeps its place and times and takes corpus prices where there are any; the count is of the bars hit |
| `TvOverlay.MergeTvVisibleBars` | openpine/batch/runner.py:465-503 | provider bars outside the chart times and all chart bars, sorted by time |
| `TvOverlay.LayeredOverlay` | openpine/batch/runner.py:429-439 | for any corpus map, with distinct times the merged series strictly ascends and takes each bar from chart, else corpus, else provider |
| `TvOverlay.LayeredTimes` | openpine/batch/runner.py:499-503 | its times are exactly the union of provider and chart times |
| `TvOverlay.OverlayBars` | openpine/batch/runner.py:414-440 | the whole overlay step: provider-only bars untouched, an error for strategies, otherwise exact counts and, with distinct times, an ascending series of chart bar, closed one duration later, else first-seen corpus prices, else provider bar |
| `Parity.CountCells` | openpine/cli/compare.py:542-592 | the nested loops count columns times rows cells and exactly the unequal ones |
| `Parity.NoMismatchExactly` | openpine/cli/compare.py:542-592 | no mismatch iff every pair of rows agrees in every common column |
| `Parity.CellTestsExactly` | openpine/cli/compare.py:548-577 | the cell tests of both comparisons decide agreement: both cells hold nothing, or neither does and they agree as numbers or as text |
| `Parity.CommonColumnsExactly` | openpine/cli/compare.py:446-448 | the common columns are exactly the shared value columns, each once |
| `Parity.Classify` | openpine/cli/compare.py:626-640 | each tag is present iff its condition holds; no tag iff no condition holds |
| `Paths.LexLeExactly` | openpine/cli/compare.py:448 | the recursive string comparison is the dictionary order |
| `Parity.KeyOrderIsLinear` | openpine/cli/compare.py:690-710 | the trade key order is total, transitive and antisymmetric |
| `Parity.KeyLeExactly` | openpine/cli/compare.py:690-710 | the key order compares entry, exit, status, direction, entry price, size from large to small, exit price and profit, in this order |
| `Parity.CanonicalIsTradeOrder` | openpine/cli/compare.py:683-712 | the canonical order is a permutation in key order with ties as given, or the given order when a trade column is missing |
| `Ties.EqualKeysKeepOrder` | openpine/cli/compare.py:697-712 | rows of equal key keep their given order |
| `Ties.SortedKeysAgree` | openpine/cli/compare.py:697-712 | all reorderings have the same keys at the same places of the canonical order |
| `Ties.AgreesWhenReorderedExactly` | openpine/cli/compare.py:683-712 | the canonical order agrees, in any given sense, with that of every reordering iff rows of equal key agree |
| `Parity.OrderIgnoredExactly` | openpine/cli/compare.py:683-712 | all reorderings of a trade list canonicalise alike iff rows that no key field separates are equal |
| `Parity.DistinctKeysIdentify` | openpine/cli/compare.py:697-712 | trades that some key field separates pairwise are such a case |
| `Parity.ReorderedFileMatches` | openpine/cli/compare.py:715-835 | a trade file matches all its reorderings iff it has a row, a compared column, and ties that agree in the compared columns |
| `Parity.IdentifiedTiesAgree` | openpine/cli/compare.py:749-790 | ties that are equal rows are such a case |
| `Parity.CompareByOrder` | openpine/cli/compare.py:715-865 | compares two stable trade orders, with exact cell and mismatch counts and tags; "match" iff the same columns, one at least, as many rows, one at least, and every pair of cells both hold nothing or both something that agrees, as numbers or as text without case |
| `Parity.TradesMatchExactly` | openpine/cli/compare.py:715-835 | a match in terms of fields, rows and cells |
| `Parity.RowsByTime` | openpine/cli/compare.py:465-489 | the index holds the last kept row of each window time; dropped, repeated and unreadable times are recorded exactly |
| `Parity.LatestTimeIsGreatest` | openpine/cli/compare.py:491-498 | the latest time is the greatest time in the window, absent iff there is none |
| `Parity.WellTimedExactly` | openpine/cli/compare.py:477-483 | no invalid row is recorded iff all times are readable, and no duplicate iff they are distinct |
| `Parity.SidesAgreeExactly` | openpine/cli/compare.py:527-611 | comparing the indexes over their common times is comparing all timed rows of the two files |
| `Parity.CompareSides` | openpine/cli/compare.py:513-640 | status "match" iff classification "match" iff columns and sides agree |
| `Parity.TimedAgreeExactly` | openpine/cli/compare.py:426-611 | a match by time in terms of fields, rows and cells |
| `Parity.CompareByTime` | openpine/cli/compare.py:426-640 | the same by time: "match" iff the column rule holds, all times are readable and distinct, both sides have the same times, one at least, after blank rows and a shared open bar are taken out, and every pair of cells agrees, as numbers or as text; exact counts and tags; a plot comparison is skippable iff no column is common |
| `Parity.Verdict` | openpine/cli/compare.py:1006-1103 | overall "match" iff plots, equity and trades all ran and matched; "mismatch" iff one failed; skipped plots are never a match |
| `SealedStore.UniversalKeepsExactly` | openpine/artifacts/store.py:69-71 | reading text back changes it iff it holds a carriage return |
| `SealedStore.UniversalExactly` | openpine/artifacts/store.py:69-71 | the translation of line endings, line by line |
| `SealedStore.VerifiedExactly` | openpine/artifacts/store.py:104-164 | what verification binds: artifact id, source, module, map and tree digests, and the recorded hash of every document that comes along |
| `SealedStore.ReadExactly` | openpine/artifacts/store.py:316-374 | exactly which directories can be read, what is read from them, and which error is raised |
| `SealedStore.ReadsBackExactly` | openpine/artifacts/store.py:316-374 | a complete directory reads back as saved iff code, source and tree text hold no carriage return; with one in code or source, the read fails verification |
| `SealedStore.NextKeepsInv` | openpine/artifacts/store.py:166-240 | every step of every saver keeps the store invariant |
| `SealedStore.PublishedIsOneCompleteSave` | openpine/artifacts/store.py:166-240 | in every reachable store a published directory holds all files of one saver that asked for that name, vouched for by its envelope |
| `SealedStore.PublishedNeverChanges` | openpine/artifacts/store.py:195-240 | a published directory never changes again |
| `SealedStore.SavedReadsBack` | openpine/artifacts/store.py:210-240 | a saver that published reads its own artifact back for ever after, iff its texts hold no carriage return |
| `SealedStore.ReadableExactly` | openpine/artifacts/store.py:316-374 | a complete directory can be read iff code and source hold no carriage return and the tree still reads, which for JSON it always does |
| `SealedStore.SaveOutcomeExactly` | openpine/artifacts/store.py:184-240 | the outcome of a save that raises nothing itself, over any interleaving: invalid iff its payload is; under a taken name decided by the published payload; under a free name saved iff no other saver publishes it, else failed |
| `SealedStore.LosingTheRaceFails` | openpine/artifacts/store.py:196-239 | two savers of one payload both find the name free: the second rename fails, although the store holds its payload |
| `SealedStore.ResaveIsNoOp` | openpine/artifacts/store.py:196-200 | a saver whose name is already published changes nothing over any continuation: without it the run has the same directories and the same other savers |
| `SealedStore.ResaveOutcomeExactly` | openpine/artifacts/store.py:196-200 | such a saver is told "already there" iff the published artifact can be read and has its envelope |
| `SealedStore.AlreadyThereReadsTheSame` | openpine/artifacts/store.py:196-200 | a saver told its envelope is already there finds its own code, source, map and envelope |
| `SealedStore.SecondTreeIsDropped` | openpine/artifacts/store.py:133-142 | with a separate AST artifact no digest binds the tree text, so a second save with another tree is accepted and its tree dropped |
| `SealedStore.SecondTreeExactly` | openpine/artifacts/store.py:133-142 | a second save of a published payload with another tree text is invalid iff the text does not parse, or parses differently while no AST artifact is given; otherwise it is taken for the published one iff that can be read |
| `Achievements.CheckKeepsClosed` | openpine/achievements/engine.py:197-242 | one check keeps the unlocked set closed under easier targets of the same metric and direction |
| `Achievements.SecondCheckIsIdle` | openpine/achievements/engine.py:197-242 | checking the same statistics again unlocks nothing |
| `Achievements.HistoryClosed` | openpine/achievements/engine.py:197-242 | the unlocked set is closed after any history of checks |
| `Achievements.UnlockedExactly` | openpine/achievements/engine.py:221-238 | a history unlocks an achievement iff some check in it met the target |
| `Achievements.MetricStep` | openpine/achievements/engine.py:204-238 | one metric's inserts add exactly the newly met achievements and never a second row |
| `Achievements.MetricsAddUp` | openpine/achievements/engine.py:204-238 | checking metrics one after another is checking them together |
| `Achievements.ReturnedExactly` | openpine/achievements/engine.py:221-242 | a check returns exactly the newly unlocked ids, each once |
| `Achievements.AchievementEngine.constructor` | openpine/achievements/engine.py:160-161 | an empty valid engine |
| `Achievements.AchievementEngine.UnlockedWhenMet` | openpine/achievements/engine.py:197-242 | at any point of the engine's history an achievement is unlocked iff some check so far met its target |
| `Achievements.AchievementEngine.RecomputeStats` | openpine/achievements/engine.py:164-194 | readable metrics are rewritten, the others keep their value |
| `Achievements.AchievementEngine.UnlockMetric` | openpine/achievements/engine.py:204-238 | appends one row per locked achievement of the metric that the value meets |
| `Achievements.AchievementEngine.CheckUnlocks` | openpine/achievements/engine.py:197-242 | the log only grows, by exactly what the statistics newly meet, and stays valid |
| `Achievements.AchievementEngine.Refresh` | openpine/achievements/engine.py:348-352 | statistics, returned ids and unlocks of a refresh, recorded as one more check of the history |
| `Achievements.AchievementEngine.RefreshTwice` | openpine/achievements/engine.py:348-352 | the second of two refreshes from unchanged sources returns no unlock |
| `Achievements.AchievementEngine.RecordEvent` | openpine/achievements/engine.py:355-398 | the event is appended and only its own metric is checked, with 0 when it is not readable |

## Left out

- Command line, reports, user interface, Telegram and daemon code: presentation and plumbing.
- Calls into pine2ast, ast2python, backtest_engine, marketdata_provider and openpine_contracts: parameters where a modelled function uses their result.
- openpine/compile/adapter.py, timezones, live preview and configuration: case splits without a property that spans them.
- Creation of the run-identities directory, symlink and file-type checks: the directory is durable and regular from the start.
- Uniqueness of the random part of temporary names: each call owns its temporary name.
- A page reply that fails with anything but a connection error, and a reply that does not parse: exceptions that leave the fetch without a result.
- The persistent bar cache around the page loop: the fetch is modelled with the cache off.
- `CandleStorage.detect_gaps`, row checksums, schema hashes and file sizes: not read by any modelled operation.
- The order of manifests with equal minimum (unspecified in SQL) is taken to be insertion order, and the sort of rows within a file to be stable.
- Write modes beyond the file name, and the provider and ingestion columns of a row.
- Git-tracked selection, hygiene errors and archive metadata of the source distribution: the fallback walk is modelled, over a tree whose symbolic links are entries it skips.
- Upper-to-lower case mapping outside ASCII in names and suffixes.
- `worker_policy` is carried through the pipeline but no consumer reads it.
- Floating-point rounding, infinities and NaN payloads: prices and trade numbers are reals or abstract values, and the tolerance test is any relation (reflexive where a proof needs it).
- Delta statistics, worst cell and per-column summaries of the comparison, and the conversion of TradingView trade exports before it.
- The unsealed branch of `save_artifact`, which overwrites in place.
- Failing SELECT or INSERT statements inside `check_unlocks`, tiers and progress views: the database is taken to answer.

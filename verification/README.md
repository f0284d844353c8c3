# ddshow: hierarchical sort and program statistics, in Dafny

This project models two pure computations in ddshow's analysis dataflow. For
each one it gives the value computed at a single logical time, with the
timely/differential runtime abstracted away.

- **The sort-by-key operator** (`src/dataflow/operators/sort.rs`). A
  collection of `(K, D)` updates becomes, per key `K`, one vector of all
  the `D`s, sorted by a user key. The collection is consolidated, and
  every element starts as a one-entry list `(d, 1)` tagged with its hash.
  Each bucket level re-keys the lists by `hash % 2^b` and reduces every
  group to one list, with diff 1. The reduce:
  - flattens the child lists, multiplying each outer diff into the inner
    diffs;
  - sorts the result by the user key;
  - compacts it, dropping zero diffs and summing neighbouring equal
    entries.

  After the last level, each `(d, r)` expands into `r` copies of `d`.
  Modules: `SortCore` (the list functions), `SortBy` (bucket levels, the
  core loop, `sort_by_named` and `hierarchical_sort_by_named`) and
  `SortScenarios` (the module's worked examples).
- **Worker and program statistics** (`src/dataflow/program_stats.rs`).
  Collections are finite maps from record to multiplicity (module `Bags`,
  with concat, filter, semijoin, antijoin and `count_total`). The pipeline:
  - operator addresses are split into operators, subgraphs and top-level
    dataflows;
  - channels are counted per worker, and so are distinct non-negatively
    shared operators (arrangements);
  - events and the event-time extent (max minus min) are counted per
    worker over both log streams;
  - the arrangement counts are back-filled for workers without any (as
    written, and as evidently intended: see "Findings");
  - everything is inner-joined by worker into `WorkerStats` rows;
  - the rows are folded into one `ProgramStats`: the number of workers, the
    sum of every count, and the longest runtime.

  `usize` casts are modelled as reduction modulo 2^64. Modules: `LogEvents`
  (the records) and `StatsAggregation` (the pipeline).

The hash, the user key and the log streams are parameters, and every
result holds for all of them.

## Model

| member | source | states |
|---|---|---|
| SortCore.Flatten | src/dataflow/operators/sort.rs:150-161 | The flattened list has as many entries as the child lists together. For every element, its signed sum of diffs is the sum over records of outer diff times inner sum. It holds exactly the elements of the child lists. |
| SortCore.FlattenNonZero | src/dataflow/operators/sort.rs:150-161 | If no outer or inner diff is zero, no flattened diff is zero. |
| SortCore.SortByKey | src/dataflow/operators/sort.rs:163 | The sorted list is non-decreasing under the key and is a permutation of its input. |
| SortCore.PermutationSums | src/dataflow/operators/sort.rs:163 | Permuting a list changes neither the net diff of any element nor the multiset of elements, so sorting loses no update. |
| SortCore.Compact | src/dataflow/operators/sort.rs:165-186 | Compaction keeps every element's net diff. It only removes elements and never lengthens the list. Every entry except possibly the last has a non-zero diff. It keeps key order. If equal elements were contiguous, no two neighbours hold equal data. A list that is already zero-free and neighbour-distinct comes back unchanged. |
| SortCore.Expand | src/dataflow/operators/sort.rs:109-115 | The expanded vector holds no element that the entry list lacks. |
| SortCore.Copies | src/dataflow/operators/sort.rs:113 | `(0..r)` yields exactly `r` copies of `d` when `r` is positive, and none otherwise. |
| SortCore.ExpandDropNonPositive | src/dataflow/operators/sort.rs:113-115 | Removing an entry with a non-positive diff does not change the expanded vector. So a zero diff left at the end by the compaction guard is harmless. |
| SortCore.ExpandCount | src/dataflow/operators/sort.rs:109-115 | When an element occurs in at most one entry, the expansion holds it exactly as often as its positive net diff, and not at all otherwise. |
| SortCore.ExpandSorted | src/dataflow/operators/sort.rs:109-115 | A key-sorted entry list expands to a key-sorted vector. |
| SortBy.ModPow2Refines | src/dataflow/operators/sort.rs:104 | Re-keying by `2^a` and then by `2^b`, with `b <= a`, is the same as re-keying by `2^b` once. So each level only merges groups of the previous one. |
| SortBy.BucketChoices | src/dataflow/operators/sort.rs:11-12 | The default exponents strictly decrease, stay below 64 (so the shift is defined) and end at 0. `sort_by_named`'s single exponent is 0 as well. |
| SortBy.SortBucket | src/dataflow/operators/sort.rs:149-188 | One bucket reduce emits a key-sorted list. Each element's net diff equals its net over the group, and the list holds no element the group lacks. Only the last diff can be zero. For a clean group it is zero-free and holds exactly the group's elements. |
| SortBy.BuildSortBucket | src/dataflow/operators/sort.rs:128-190 | A level keeps every element's net diff and invents no element. It emits records exactly when it receives some. Each output record has diff 1, a hash below the width and a sorted list, and the output hashes are distinct. A clean input gives a clean output with the same elements. |
| SortBy.Consolidate | src/dataflow/operators/sort.rs:100-102 | The consolidated snapshot carries no zero diff, and each element's net diff is its net over the updates. |
| SortBy.Initial | src/dataflow/operators/sort.rs:101-102 | Every consolidated element becomes one record: its hash, the one-entry list `(d, 1)` and the element's multiplicity as its diff, in input order. |
| SortBy.InitialFacts | src/dataflow/operators/sort.rs:101-102 | The initial records keep every element's net diff and hold exactly the consolidated elements. |
| SortBy.Rows | src/dataflow/operators/sort.rs:107-119 | One output row per record: the record's list expanded, with the record's diff. |
| SortBy.RowsCountNet | src/dataflow/operators/sort.rs:107-119 | When every list expands to as many copies of an element as its net diff in that list, the rows, weighted by their diffs, hold the element as often as the records' signed sum. |
| SortBy.RowsCountClean | src/dataflow/operators/sort.rs:107-119 | Records of diff 1 in which an element occurs at most once emit it, over all rows, as often as its positive signed sum. |
| SortBy.InitialRowsCount | src/dataflow/operators/sort.rs:100-119 | With no bucket level, the rows, weighted by their diffs, hold every element as often as its net diff over the updates. |
| SortBy.HierarchicalSortCore | src/dataflow/operators/sort.rs:91-122 | A row is emitted exactly when some element has a non-zero net diff. Every emitted vector is sorted by the key. With at least one level, every row has diff 1, and over all rows each element occurs exactly as often as its positive net diff, whatever the exponents. With no level, the rows weighted by their diffs hold each element's net diff. If the last exponent is 0, there is at most one row. |
| SortBy.SortByNamed | src/dataflow/operators/sort.rs:35-41 | With the single exponent 0: at most one row, with diff 1, sorted, holding the positive net multiset. There is no row exactly when everything nets to zero. |
| SortBy.HierarchicalSortByNamed | src/dataflow/operators/sort.rs:61-67 | With the default exponents: the same guarantees as `sort_by_named`. |
| SortScenarios.SortedUnique | src/dataflow/operators/sort.rs:239-242 | Two ascending vectors with the same elements are equal, so the sorted output is determined by its multiset. |
| SortScenarios.EnsureRetractionsPropagate | src/dataflow/operators/sort.rs:245-275 | Inserting 1 twice, removing it once and inserting 2 to 5 yields exactly the one vector `[1, 2, 3, 4, 5]`, whatever the hash. |
| SortScenarios.EnsureRetractionsPropagateAcrossTimestamps | src/dataflow/operators/sort.rs:277-312 | The updates of the three epochs yield exactly the one vector `[1, 2, 2, 3, 4, 5]`. |
| SortScenarios.FullyRetractValues | src/dataflow/operators/sort.rs:314-349 | Inserting and then removing 1 to 5 yields no row at all. |
| StatsAggregation.AsUsize | src/dataflow/program_stats.rs:176-181 | The cast is the identity on every value a `usize` can hold. |
| StatsAggregation.OnlyDataflows | src/dataflow/program_stats.rs:35-40 | The top-level subgraph addresses keep the operator address's multiplicity times the subgraph's, and no other record survives. |
| StatsAggregation.AddressPartition | src/dataflow/program_stats.rs:34-40 | With set-like subgraph addresses, operators and subgraphs are disjoint, together cover every operator address, and their sum is the operator collection. Subgraphs are the operator addresses that are also subgraph addresses. Dataflows are the top-level subgraphs. |
| StatsAggregation.DataflowAddrs | src/dataflow/program_stats.rs:43-53 | A worker gets a list exactly when it has a dataflow record with a non-zero diff. The list holds exactly its addresses with diff at least 1. |
| StatsAggregation.DataflowAddrsOf | src/dataflow/program_stats.rs:40-53 | With set-like inputs, a worker has a list exactly when it has a top-level dataflow, and the list is the set of those dataflows. |
| StatsAggregation.CountPerWorker | src/dataflow/program_stats.rs:55-67 | On a set-like collection, a worker is counted exactly when it has a record, and its count is the number of its records. |
| StatsAggregation.DerivedAddresses | src/dataflow/program_stats.rs:34-40 | With set-like inputs, the three derived collections are set-like. A worker's operators are its addresses outside the subgraphs, its subgraphs are those inside, and its dataflows are the top-level ones. |
| StatsAggregation.SharedOperators | src/dataflow/program_stats.rs:69-91 | A `(worker, operator)` pair is recorded exactly when that worker logged a trace share of that operator with a non-negative diff, once however often. |
| StatsAggregation.SharedOperatorsAppend | src/dataflow/program_stats.rs:72-86 | A negative share, a batch, a merge, a merge shortfall or a drop changes nothing. A non-negative share adds its pair, and repeating it adds nothing. |
| StatsAggregation.ArrangementTotals | src/dataflow/program_stats.rs:69-103 | With a differential stream, every arrangement count is positive. Without one, exactly the workers with a channel count get a row, and it is 0. |
| StatsAggregation.ArrangementTotalsMeaning | src/dataflow/program_stats.rs:69-103 | With a differential stream, a worker has an arrangement count exactly when it shared some operator non-negatively, and the count is the number of distinct such operators. Without one, every worker with channels has count 0 and no other worker has a row. |
| StatsAggregation.BackfillAsWritten | src/dataflow/program_stats.rs:105-110 | The back-fill as written. For a worker with channels, the rows are exactly its arrangement row, if any; nothing is added for it. For a worker without channels, the rows are its arrangement row and a zero row, and nothing if it has no arrangement row. |
| StatsAggregation.JoinedArrangements | src/dataflow/program_stats.rs:147-152 | The inner join with the channel counts takes, from a set of `(worker, count)` rows, exactly the workers with a channel count and a row, each with its row's count. |
| StatsAggregation.JoinedBackfillAsWritten | src/dataflow/program_stats.rs:105-152 | What the join takes from the as-written back-fill is the arrangement counts of the workers that have channels, and nothing else. |
| StatsAggregation.Backfill | src/dataflow/program_stats.rs:105-110 | The back-fill as intended: arrangement counts are kept, and every worker with channels but no arrangements gets 0. |
| StatsAggregation.CombineEvents | src/dataflow/program_stats.rs:265-283 | Every timely event is mapped once, and so is every differential event when that stream exists; the combined stream holds nothing else. The positions are a modelling choice (see "Left out"). |
| StatsAggregation.Tally | src/dataflow/program_stats.rs:112-119 | A worker is counted exactly when it occurs, and its count is its number of occurrences. |
| StatsAggregation.EventTotals | src/dataflow/program_stats.rs:112-119 | Every event count is positive, and every worker that logged a timely or a differential event has one. |
| StatsAggregation.EventTotalsSplit | src/dataflow/program_stats.rs:112-119 | A worker's event count is its timely events plus its differential events, and it has a count exactly when it logged at least one event. |
| StatsAggregation.Extent | src/dataflow/program_stats.rs:121-135 | A worker's `(max, min)` pair exists exactly when it logged an event. Every event time of the worker lies between the two, and both are attained. |
| StatsAggregation.EventTimes | src/dataflow/program_stats.rs:121-135 | The worker and event time of every timely event and, when that stream exists, of every differential event. |
| StatsAggregation.RuntimeTotals | src/dataflow/program_stats.rs:121-135 | A worker has a runtime pair exactly when it has an event count. The pair is the extent of its event times, and the maximum is at least the minimum. |
| StatsAggregation.JoinWorkers | src/dataflow/program_stats.rs:147-187 | A worker has a row exactly when it is in all eight joined collections. The row carries its id, each count cast to `usize`, its addresses and the runtime max minus min. |
| StatsAggregation.JoinInputs | src/dataflow/program_stats.rs:147-187 | Every joined row is keyed by its worker, who has a channel count, an event count and a row in the given arrangement counts; the row's arrangements are that count, cast. |
| StatsAggregation.JoinInputsRow | src/dataflow/program_stats.rs:147-187 | A joined row is the projection of the worker's entries in the eight joined collections. |
| StatsAggregation.WorkerStatsOf | src/dataflow/program_stats.rs:147-187 | The worker rows with the intended back-fill: every row is keyed by its worker, who has channels and events, and without a differential stream every row has zero arrangements. |
| StatsAggregation.WorkerStatsAsWritten | src/dataflow/program_stats.rs:105-187 | The worker rows with the back-fill as written: every row is keyed by its worker, who has channels, events and an arrangement count before the back-fill. |
| StatsAggregation.AsWrittenRow | src/dataflow/program_stats.rs:105-187 | A worker has a row as written exactly when it has one as intended and an arrangement count before the back-fill, and then the two rows are equal. |
| StatsAggregation.AsWrittenRestricts | src/dataflow/program_stats.rs:105-187 | The rows as written are the intended rows restricted to the workers with an arrangement count before the back-fill. So every field lemma about the intended rows holds for the rows as written. |
| StatsAggregation.WorkerPresence | src/dataflow/program_stats.rs:147-154 | With the intended back-fill and set-like inputs, a worker has a row exactly when it has a top-level dataflow, an operator that is not a subgraph, a channel and an event. Under the intended back-fill, arrangements never decide it. |
| StatsAggregation.WorkerPresenceAsWritten | src/dataflow/program_stats.rs:105-154 | As written, with set-like inputs, a worker has a row exactly when the intended conditions hold and, when there is a differential stream, it shared some operator with a non-negative `TraceShare`. |
| StatsAggregation.AddressFields | src/dataflow/program_stats.rs:155-185 | A row's dataflow addresses are the worker's top-level dataflows. Its dataflow, operator and subgraph counts are the sizes of those sets of addresses. |
| StatsAggregation.ChannelFields | src/dataflow/program_stats.rs:155-185 | A row counts the worker's channels. Its arrangements are the distinct operators it shared non-negatively, which is 0 without a differential stream or without such a share. |
| StatsAggregation.EventFields | src/dataflow/program_stats.rs:155-185 | A row counts the worker's events in both streams. Its runtime is the latest minus the earliest of their event times. |
| StatsAggregation.ProgramStatsOf | src/dataflow/program_stats.rs:189-260 | There are program statistics exactly when there is a worker row. `workers` counts the rows. The runtime is at least every worker's and equal to some worker's. |
| StatsAggregation.Accumulated | src/dataflow/program_stats.rs:189-260 | The accumulated difference of a non-empty set of rows counts the rows, and its runtime is at least every worker's and equal to some worker's. |
| StatsAggregation.AccumulatedInsert | src/dataflow/program_stats.rs:189-260 | Accumulating one more row is `Combine` of the accumulated difference and the row. |
| StatsAggregation.ProgramStatsSingle | src/dataflow/program_stats.rs:189-260 | One worker row gives program statistics with one worker and that row's own counts and runtime. |
| StatsAggregation.ProgramStatsInsert | src/dataflow/program_stats.rs:189-260 | Adding a worker row adds one worker and the row's counts, each cast to `usize`, and takes the max of the runtimes. So the fold is the componentwise `DiffPair` combine of its rows. |
| StatsAggregation.TwoWorkerProgram | src/dataflow/program_stats.rs:189-260 | Two equal workers, each with 1 dataflow, 3 operators, 1 subgraph, 2 channels, 10 events and a runtime of 400, give 2 workers, 2, 6, 2, 4, 0 arrangements, 20 events and a runtime of 400. |
| StatsAggregation.AggregateWorkerStats | src/dataflow/program_stats.rs:24-263 | As written: a worker has a row exactly when it has an intended row and an arrangement count before the back-fill, and the row is the intended one. Program statistics exist exactly when some worker row does, and they count the rows. |
| StatsAggregation.AggregateWorkerStatsIntended | src/dataflow/program_stats.rs:24-263 | With the intended back-fill: the worker rows of `WorkerStatsOf`, with program statistics that exist exactly when some row does and count the rows. |
| StatsAggregation.NoDifferentialNoArrangements | src/dataflow/program_stats.rs:97-103 | Without a differential stream, every worker row and the program statistics have zero arrangements. |
| StatsAggregation.AsWrittenDropsWorker | src/dataflow/program_stats.rs:105-110 | With the back-fill as written, a worker that shared no operator non-negatively has no row, whatever else it has. |
| StatsAggregation.AsWrittenLosesEverything | src/dataflow/program_stats.rs:105-110 | With the back-fill as written, a differential stream without one non-negative share gives no worker rows and no program statistics. With the intended back-fill, every row it keeps has zero arrangements. |

## Left out

- Time and incrementality. Epochs, logical times, the `region_named` scopes, data exchange between workers, arrangements and probes are not modelled. Every result describes one consolidated snapshot at one time.
- The sort is modelled for one outer key `K`: records of different keys never meet in one reduce. The user key (`DK: Ord`) is a function to `int`.
- `sort_unstable_by_key` is an insertion sort here. Every property only uses "sorted by key and a permutation", so the instability of the source's sort does not matter.
- The `sort_by` and `hierarchical_sort_by` wrappers only build a region name from the caller's location. That name is not modelled, and the `_named` variants are modelled in their place.
- `Hashable::hashed` is a free parameter `D -> nat`. Every sort result holds for every hash.
- StatsAggregation.DataflowAddrs: the per-worker list is a set. The order of the reduce's input (and therefore of the `Vec`) is not modelled.
- StatsAggregation.DataflowAddrsOf: stated only for set-like address collections (every record with diff 1), the shape ddshow's address streams have. With other multiplicities only `DataflowAddrs`'s own contract applies.
- StatsAggregation.CountPerWorker: stated only for set-like collections. With other multiplicities `count_total` sums the diffs, which `Bags.CountTotal` models but no lemma here characterises further.
- StatsAggregation.WorkerPresence: requires set-like address and channel collections, for the same reason.
- StatsAggregation.AddressFields: requires set-like address collections.
- StatsAggregation.ChannelFields: requires a set-like channel collection.
- StatsAggregation.WorkerPresenceAsWritten: requires set-like address and channel collections, like `WorkerPresence`.
- StatsAggregation.CombineEvents: the order of the combined stream is not modelled. Timely's `concat` interleaves the two streams; the model puts the timely events first. Every consumer is a `count_total`, which depends only on the multiset of records.
- StatsAggregation.BackfillAsWritten: the rows are a set, so for a worker without channels whose arrangement count is 0, the doubled `(worker, 0)` record counts once. The join drops such workers, so no worker row depends on it.
- `OperatorAddr::is_top_level` is defined outside the shown files. It is modelled as "at most one component", and its source is not part of this model.
- `Max`, `Min` and `DiffDuration` are modelled by their combine rules on integer nanoseconds. When all of a worker's event times are 0, the differential zero test could drop its runtime record. That corner of their `is_zero` is not modelled, because their definitions are not part of this model.
- Debug-build overflow panics of the `isize` sums are not modelled. The casts and sums are reduced modulo 2^64, as a release build computes them.
- `src/ui/mod.rs` (rendering, templates, JSON), `src/args.rs` (command-line parsing) and `src/bin/timely_test.rs` (a demo driver) are I/O and runtime plumbing and are left out.
- `ensure_sorting` draws random inputs and is not modelled as a scenario. Its property (every window of the output ascends) is `SortBy.HierarchicalSortByNamed`'s sortedness clause.

## Findings

| source | as written | input that shows it | evidently intended | confidence | as-written member | corrected member |
|---|---|---|---|---|---|---|
| src/dataflow/program_stats.rs:105-110 | The back-fill antijoins the arrangement counts against the workers that have channels. So it adds a `(worker, 0)` row only for workers that have arrangements but no channels, and none for channel workers without arrangements. | A differential stream with no non-negative `TraceShare` (for example an empty one), together with workers that have channels, dataflows, operators and events. | Every worker with channels but no arrangement row gets 0 arrangements and keeps its `WorkerStats` row. | not executed | StatsAggregation.AsWrittenLosesEverything | StatsAggregation.Backfill |

`StatsAggregation.AggregateWorkerStats` models the operator as written. It
joins the as-written back-fill rows (`WorkerStatsAsWritten`), and
`AsWrittenRestricts` shows that its rows are the corrected rows of the workers
that have an arrangement count. `WorkerPresenceAsWritten` states which workers
those are. `StatsAggregation.WorkerStatsOf` and
`AggregateWorkerStatsIntended` use the corrected back-fill.
`StatsAggregation.WorkerPresence` states its consequence: under the corrected
back-fill, arrangements never decide whether a worker has a row. The field
lemmas (`AddressFields`, `ChannelFields`, `EventFields`) are stated on the
corrected rows and, through `AsWrittenRestricts`, describe every row as
written too.

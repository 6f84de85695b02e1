# Usage metrics collector: a verified model

The repository samples CPU and memory counters on every node, pushes them to a collector, and turns
them into aggregated metrics. This project models the parts whose correctness is not visible in any
single function, and proves what they guarantee for all inputs and all runs:

- **The sampler's sliding window** (`Words`, `SampleSpec`, `WindowTheorems`, `WindowLimits`, `SampleCache`): a
  ring of polls, rates derived poll by poll from wrapping 64-bit counters, a filter on read, and an average
  that is either last-minus-first or the mean. Main results: `WindowTheorems.ReportedIff` for what the filter
  leaves, `WindowTheorems.AverageWithinPublished`, and `WindowLimits.LawHoldsIff` for the exact gaps between
  polls at which it holds whatever is read.
- **The exponential histogram** (`RealPowers`, `Histogram`), for any minimum base above one, compression and
  offset of either sign, and any real values. Main results: `EveryValueCountedOnce` and
  `CompressionMergesRuns`.
- **The aggregation pipeline** (`Labels`, `LabelSlots`, `Grouping`, `Operations`, `Pipeline`, `Chain`):
  label masks, overriders, filters, grouping, six operations with one shared sort and parallel workers,
  and chains of levels. Main results: `Chain.ChainIsComposed`, `Chain.ChainIsDirect`, `Chain.ChainExports`,
  `Pipeline.GroupSeries`, `Pipeline.SharingTheSortOnLevel`, `Operations.OrderStatistic`, `Labels.KeptIff` and
  `Labels.RemaskingHarmlessIff`.
- **The push and collect protocol** (`ConnectionTable`, `ResponseCache`, `Readiness`): every locked section
  is one step, and the laws hold for every interleaving of the steps. Main results:
  `EveryRunIsFaithful`, `MissesFreshOnlyIfOvertaken`, `ReadinessCounts`, `ServingOnlyAfterPage`.
- **Node view and container view** (`NodeView`): both add up to the same requests and limits.

Conventions. Times are natural numbers of nanoseconds, 0 being the unset time. Counters are 64-bit words
with explicit wrap-around. A rate is the exact floor of a quotient; what the platform makes of a float64
that fits no unsigned word is the parameter `outOfRange`. Quantities are integers in nano units, so the six
decimals of an average are steps of 1000. Labels are vectors of 122 slots (22 built-in, then 100
extension). Go's map iteration order and goroutine scheduling are arbitrary choices in the model, so each
contract holds for all of them. Clocks, DNS and gRPC results, and the environment are parameters.

Some properties one would expect are false of the code. Each of these has a concrete counterexample and
the exact condition under which it holds:

- The unsorted maximum starts from zero, so sharing a sort changes `max` on groups of negative values only
  (`NegativeGroupMax`, `SharingTheSortMax`).
- A fresh message can be missing from a read (`FreshMessageCanBeLost`), exactly when an expiry sweep was
  overtaken by a push (`MissesFreshOnlyIfOvertaken`).
- The watcher of a stopped stream can stop a newer stream to the same address
  (`LateWatcherStopsNewStream`), exactly when the address is connected again (`LateWatcher`).
- Re-masking a group key can change it (`CollidingMask`), exactly when a kept and a cleared slot share a
  name (`RemaskingHarmlessIff`); for the masks built at start-up, exactly when an extension label carries
  the name of a built-in one and only one of the two is selected (`BuiltMasksSeparateIff`).
- Last minus first is not always the growth of a counter: it is exactly when the growth is below 2^64
  (`Telescopes`), and otherwise the average can lie below all samples (`LongSpanBreaksTheLaw`). For given gaps
  between polls and any configuration, the average stays between two samples, whatever is read, exactly when
  the gaps are not `Breakable` (`LawHoldsIff`). They are breakable when the largest steps the filter accepts
  over the window add up to a full turn of the counter, and to the growth at the minimum rate on top if the
  minimum is positive, while every published sample has room for a rate above that one. Without a positive
  minimum, and with a maximum that admits a visible step over every gap, the first part decides
  (`PlainlyBreakable`).

Where code and comments disagree the model follows the code. The comment on the minimum CPU sample value
(pkg/api/samplerserverv1alpha1/types.go:110-111) says samples below it are dropped; the code compares it
only with the average. The formula in pkg/collector/local.go:146 adds one where the code does not. The log
text in pkg/sampler/server.go:373 speaks of a cancellation by the collector; only `stop` cancels that context.
Start-up validation (pkg/api/collectorcontrollerv1alpha1/types.go:1322-1333) does not count side-car
labels, so "at most 100 labels" is an assumption of its own.

## Model

| member | source | states |
|---|---|---|
| WindowTheorems.AverageWithinPublished | pkg/sampler/cache.go:541-592 | for every run of derived polls with increasing times, with resets, wraps and gaps, the published average of CPU or throttling lies between two published samples, if a full window grows by less than 2^64, size * max is below 2^64, and an unrepresentable rate converts to more than the maximum |
| WindowTheorems.FullWindowAverage | pkg/sampler/cache.go:548-556 | a window without gaps whose growth is below 2^64 publishes exactly that growth per second, unless it is below the minimum |
| WindowTheorems.ShortWindowAverage | pkg/sampler/cache.go:575-589 | a series with a gap publishes the integer mean of its published samples |
| WindowTheorems.RefusedWindowAverage | pkg/sampler/cache.go:575-589 | so does a series whose last-minus-first rate exceeds the maximum or, as a signed word, is below the minimum |
| WindowTheorems.PublishedSuffix | pkg/sampler/server.go:633-637 | published are all samples, or all but the first |
| WindowTheorems.SummaryFields | pkg/sampler/cache.go:541-573 | the remaining fields of a summary: the out-of-memory counts grow from first to last sample, the memory is the mean of the published samples; below two samples all is zero |
| WindowTheorems.AverageNeverExceedsMax | pkg/sampler/cache.go:119-130 | for arbitrary counters, times and configuration the published averages are at most the maximum |
| WindowTheorems.Telescopes | pkg/sampler/cache.go:554-556 | for any samples the wrapping difference of last and first equals the sum of the step differences iff that sum is below 2^64 |
| WindowTheorems.WrappedGrowth | pkg/sampler/cache.go:554-556 | and it always equals that sum modulo 2^64 |
| WindowTheorems.WholeRateIff | pkg/sampler/cache.go:554-556 | the last-minus-first rate of an unbroken window is the growth per second iff the growth is below 2^64 |
| WindowTheorems.ShortSpanFits | pkg/sampler/cache.go:575-589 | the growth is below 2^64 whenever a counter at the accepted maximum could not wrap within the span of the window |
| WindowTheorems.FullWindowUnbroken | pkg/sampler/cache.go:406-419 | in a window where every poll survives, each sample was derived against its neighbour |
| WindowTheorems.SampleLifetime | pkg/sampler/cache.go:375-381 | a valid sample is reported for exactly as many polls as the ring has slots, and never afterwards |
| WindowTheorems.ResetIsDropped | pkg/sampler/cache.go:461-472 | a counter reset of at most 2^63 makes the next sample fail the filter |
| WindowLimits.LawIsNotVacuous | pkg/sampler/cache.go:541-592 | the conditions of the window law are met by concrete polls |
| WindowLimits.LongSpanBreaksTheLaw | pkg/sampler/cache.go:548-556 | four concrete polls, derived one from the other four seconds apart, through a ring of three, whose average is below all published samples |
| WindowLimits.LawHoldsIff | pkg/sampler/cache.go:541-592 | for any gaps between polls, any number of polls that fills the ring and any configuration, the window law holds for everything that can be read iff the gaps are not breakable |
| WindowLimits.LawFailsEvery | pkg/sampler/cache.go:554-556 | on breakable gaps there are counters, polled at these gaps, whose average is below all published samples |
| WindowLimits.PlainlyBreakable | pkg/sampler/cache.go:575-589 | without a positive minimum, and where the filter admits a step of one over every gap, the gaps are breakable iff the largest accepted steps over the window add up to 2^64 |
| WindowLimits.LawHoldsEvery | pkg/sampler/cache.go:541-592 | on other gaps every run obeys the law, whatever its counters do |
| WindowTheorems.MeanOfKept | pkg/sampler/cache.go:558-584 | the fallback does not wrap and is the exact integer mean, between two samples |
| WindowTheorems.SurvivorsInOrder | pkg/sampler/cache.go:115-138 | what the filter leaves of a series is its acceptable samples, each once and in poll order |
| WindowTheorems.ReportedIff | pkg/sampler/cache.go:118-138 | in every run of derived polls, a sample is reported while its poll is in the window iff the poll before has one of the same series and from there CPU and throttling both grew by less than (maximum + 1) per second, in exact arithmetic, or time ran backwards |
| WindowTheorems.DerivedFields | pkg/sampler/cache.go:461-486 | the out-of-memory deltas of a derived sample undo the wrap-around, its memory is the reading, and its throttled share times the elapsed periods is the throttled periods |
| WindowTheorems.PeriodsRate | pkg/sampler/cache.go:461-486 | the period rates are the largest whole numbers per second that the wrapping growth reaches |
| Words.WordsWrap | pkg/sampler/cache.go:484-485 | sums and differences of words are those of the integers modulo 2^64, and adding back undoes a difference |
| SampleCache.SampleCache.constructor | pkg/sampler/cache.go:606-611 | an empty ring of the configured size |
| SampleCache.SampleCache.AddSample | pkg/sampler/cache.go:375-381 | the ring refines a list: the new poll is appended, and going back from the cursor the slots hold the latest polls |
| SampleCache.SampleCache.LastSampleFor | pkg/sampler/cache.go:407-419 | the sample of the latest poll, or the zero sample |
| SampleCache.SampleCache.DeriveSamples | pkg/sampler/cache.go:297-303 | every reading becomes a sample derived from the latest poll |
| SampleCache.SampleCache.FetchSample | pkg/sampler/cache.go:275-348 | appends a poll with exactly the series and the counters read, each sample derived from the latest poll, and keeps the run one in which every poll derives from its predecessor |
| SampleCache.SampleCache.Snapshot | pkg/sampler/cache.go:99-109 | visiting the ring from the slot after the cursor yields the last `size` polls, oldest first |
| SampleCache.SampleCache.FilePoll | pkg/sampler/cache.go:118-138 | one poll adds its acceptable sample to each series and nothing else |
| SampleCache.SampleCache.IndexSamples | pkg/sampler/cache.go:111-162 | groups exactly the surviving samples by series |
| SampleCache.SampleCache.SumPublished | pkg/sampler/cache.go:558-571 | the wrapping accumulators hold the exact sums modulo 2^64, and the count is positive |
| SampleCache.SampleCache.PopulateSummary | pkg/sampler/cache.go:541-592 | the summary is last-minus-first or the mean by the three-way test |
| SampleCache.SampleCache.GetAllSamples | pkg/sampler/cache.go:92-173 | for each series with a surviving sample in the window, its samples and their summary |
| SampleCache.SampleCache.ListPublished | pkg/sampler/server.go:633-645 | the lists sent hold exactly the published samples, converted |
| SampleCache.SampleCache.ListMetrics | pkg/sampler/server.go:592-655 | one response per series with a surviving sample: its published CPU, throttling and memory samples as int64, sorted if asked, with the averages and out-of-memory counts; no average exceeds the maximum and, under the window law, each lies between two samples sent |
| SampleCache.ResponseHolds | pkg/sampler/server.go:605-645 | a response field by field: the published CPU, throttling and memory samples, sorted iff asked, and the averages and out-of-memory counts of the summary |
| SampleCache.ResponseLaw | pkg/sampler/server.go:605-655 | the same for one response, after conversion and sorting, if the maximum fits a signed word |
| RealPowers.LogUp | pkg/collector/local.go:147 | the exact floor of the logarithm of a value not below the starting power |
| Histogram.ZeroCountAndMax | pkg/collector/local.go:126-136 | the number of values below the lower bound, and the largest value or minus infinity |
| Histogram.FillBuckets | pkg/collector/local.go:145-159 | no index is out of range, bucket i counts the values between its bounds, the last bucket is not empty and nothing lies above it |
| Histogram.AddHistogramValues | pkg/collector/local.go:109-162 | the whole histogram for the base of the configured minimum base and compression, also for no values, values below the bound, and saving only the maximum |
| Histogram.StoredSettings | pkg/collector/local.go:137-138 | compression and offset are stored in signed 32-bit words: as they are when they fit, and congruent modulo 2^32 otherwise |
| Histogram.EveryValueCountedOnce | pkg/collector/api/api.pb.go:405-409 | zero count plus all buckets is the number of values, and there are no buckets iff all values are below the bound |
| Histogram.OneBucket | pkg/collector/local.go:157-158 | a value lies between the bounds of exactly the bucket it is counted in |
| Histogram.BaseIsUnique | pkg/collector/local.go:119-120 | minimum base and compression, of either sign, determine the base |
| Histogram.CompressionSquaresBase | pkg/collector/local.go:119-120 | a number is the base at compression c+1 iff it is the square of the base at c, for c of either sign |
| Histogram.BaseAboveOne | pkg/collector/local.go:119-120 | a minimum base above one gives a base above one |
| Histogram.CompressionMergesRuns | pkg/api/collectorcontrollerv1alpha1/types.go:988-998 | for one minimum base, at compression c+k and offset o bucket i is the sum of the 2^k buckets from 2^k * i on at compression c and offset 2^k * o, with the same zero count and maximum |
| Histogram.CompressionMergesPairs | pkg/api/collectorcontrollerv1alpha1/types.go:988-998 | in particular one more compression merges the buckets in pairs |
| Histogram.CompressionHalvesBuckets | pkg/api/collectorcontrollerv1alpha1/types.go:988-992 | and there are half as many buckets, rounded up |
| Labels.NamesAndValuesAlign | pkg/collector/labels.go:591-619 | name list and value list have equal length and entry j of both belongs to the same slot |
| Labels.MaskedExport | pkg/collector/labels.go:591-606 | without overriders a group key exports the same values as the labels it was masked from |
| Labels.SameGroupIff | pkg/collector/labels.go:530-537 | a mask puts two series in the same group iff they agree on every slot it keeps |
| Labels.MaskTwiceIff | pkg/collector/builtin_labels.go:178-254 | masking by one mask first is invisible to another, for all labels, iff the other is coarser |
| Labels.OverrideValues | pkg/collector/labels.go:573-589 | rewrites the values in place, overrider by overrider, and records the replaced ones |
| Labels.ShownIs | pkg/collector/labels.go:573-580 | an overrider is shown exactly the listed names, each with the value of its last position |
| Labels.OneOverrider | pkg/collector/labels.go:581-588 | it replaces the values of all positions whose name it mentions, and the changes recorded are those to listed names |
| Labels.OverridersInTurn | pkg/collector/labels.go:573-589 | overriders act in turn, each on what the ones before left, and later changes win |
| Labels.OverridesAreRecorded | pkg/collector/labels.go:581-588 | after any overriders a value is the recorded change of its name, or was never touched |
| Labels.ListedOverride | pkg/collector/labels.go:540-553 | writing recorded changes to the slots and listing the values is listing them and replacing by name, at every position but a renamed `level` |
| Labels.FiltersJudgeWhatIsExported | pkg/collector/operations.go:91-106 | the vector the filters judge equals the exported one at every position, except `level` when an overrider changed it |
| Labels.KeptIff | pkg/collector/operations.go:107-147 | a level keeps a series iff every filter accepts it: each listed name has, at its last non-empty position, one of the listed values or else allows the empty one; names with a presence test have a value iff it asks for one; the cluster is listed if clusters are; and it is then filed under its group key |
| Labels.RemaskingHarmlessIff | pkg/collector/labels.go:530-553 | re-masking a group key changes nothing, for all overriders and labels, iff no cleared slot has the name of a kept one |
| Labels.CollisionLeaks | pkg/collector/extension_labels.go:2591-2601 | otherwise some overrider writes into the cleared slot |
| LabelSlots.AssignIds | pkg/collector/types.go:40-75 | over all kinds and side-cars the label ids are 0 to N-1 in order, without repeats |
| LabelSlots.IdIsPosition | pkg/collector/types.go:40-75 | the id of a label is its position, so no two labels share one |
| LabelSlots.IndexNames | pkg/collector/extension_labels.go:2892-2951 | visiting the kinds in any order yields the name of every id and nothing else |
| LabelSlots.MaskRegistry.constructor | pkg/collector/labels.go:113-115 | no masks yet |
| LabelSlots.MaskRegistry.InitMask | pkg/collector/labels.go:111-118 | a fresh id under which a mask built from the configuration is stored |
| LabelSlots.MaskRegistry.InitMasks | pkg/collector/types.go:83-94 | ids of all levels and sample sources are distinct and each resolves to its own mask, built from its own configuration |
| LabelSlots.BuildMaskBuilds | pkg/collector/labels.go:111-127 | the mask built for a level has its filters and its level name, the 22 built-in slots as selected, and each extension slot named by its id and kept iff that name is selected |
| LabelSlots.EveryLabelHasItsSlot | pkg/collector/extension_labels.go:1261-1264 | with at most 100 labels each owns a slot of its name, kept iff the mask selects the name |
| LabelSlots.KeptSlotsAreConfigured | pkg/collector/labels.go:121-127 | a mask that does not select the empty name keeps only slots of configured labels |
| LabelSlots.BuiltMasksSeparateIff | pkg/collector/labels.go:111-127 | a mask built at start-up satisfies the re-masking condition iff every extension label with a built-in name is selected exactly when that built-in label is kept |
| LabelSlots.DistinctNamesRemask | pkg/collector/labels.go:111-127 | in particular, if no extension label has a built-in name, re-masking never changes a key of a built mask, for any overriders and labels |
| LabelSlots.CollidingMask | pkg/collector/labels.go:121-127 | keeping the built-in `app` label and not selecting an extension of that name, re-masking changes a key |
| Grouping.BagWithout | pkg/collector/operations.go:88-150 | the bag of a group holds the values of each series filed under it, whichever series is taken first |
| Grouping.FoldThroughLevel | pkg/collector/collector.go:1259-1293 | folding the folded groups of one level equals folding the raw values by the composed grouping |
| Grouping.CollapseTwice | pkg/collector/collector.go:1259-1293 | so two levels of sum (or max) are one, series by series |
| Grouping.FoldMeans | pkg/collector/operations.go:35-48 | one more value is added, or replaces a smaller maximum, starting from zero |
| Grouping.AddUpIsTotal | pkg/collector/operations.go:35-38 | adding up a bag is the arithmetic sum of its values in any order |
| Operations.Aggregate | pkg/collector/operations.go:31-76 | each operation's result in terms of the bag of values, the arithmetic sum for sum, the fixed results on no values, and what the list holds afterwards |
| Operations.Reduce | pkg/collector/operations.go:35-58 | sum (the arithmetic one), both maxima, average, histogram and unknown operations |
| Operations.RoundIsNearest | pkg/collector/util.go:149-157 | averages are rounded to the nearest step, halves away from zero |
| Operations.OrderStatistic | pkg/collector/operations.go:59-70 | the value at rank i is the one with at least i+1 values not above and n-i not below, in any order of arrival |
| Operations.MedianMeans | pkg/collector/operations.go:65-70 | x is the median of n values iff more than (n-1)/2 of them are not above it and at most (n-1)/2 are below it |
| Operations.P95Means | pkg/collector/operations.go:59-64 | x is the 95th percentile iff more than 95% of n-1 are not above it and at most 95% of n-1 are below it |
| Operations.AverageMeans | pkg/collector/operations.go:50-58 | the average is a multiple of 1000 nano units at most 500 from the arithmetic mean |
| Operations.MedianP95MaxOrdered | pkg/collector/operations.go:39-70 | median <= p95 <= max, for the sorted and for the scanned maximum |
| Pipeline.SharingTheSortOnLevel | pkg/collector/operations.go:155-167 | with or without the shared sort a level has the same groups and the same values, hist up to order, max iff the group has a value that is not negative |
| Operations.SharingTheSortMax | pkg/collector/operations.go:39-49 | for max the two results agree iff some value is not negative |
| Operations.NegativeGroupMax | pkg/collector/operations.go:39-49 | on a group of -1 alone they are -1 and 0 |
| Pipeline.FileSeries | pkg/collector/operations.go:91-147 | the group of a series, or none if a filter drops it |
| Pipeline.GroupSeries | pkg/collector/operations.go:88-150 | every group holds the bag of the series filed under it, and together the groups hold every passing value once |
| Pipeline.SortGroups | pkg/collector/operations.go:155-167 | all groups are sorted iff some operation needs it |
| Pipeline.WorkerStep | pkg/collector/operations.go:185-190 | reducing a group in a worker leaves the shared list unchanged |
| Pipeline.RunWorkers | pkg/collector/operations.go:172-200 | in every interleaving of the workers each ends with the results of its own operation |
| Pipeline.AggregateMetric | pkg/collector/operations.go:80-205 | each operation has a result for exactly the groups that received a value, never an empty list, and it is the operation's outcome on the group's bag |
| Chain.ExportResults | pkg/collector/collector.go:1280-1339 | each result is exported once under its own operation, unless export is off, and one of them is handed on |
| Chain.CollectLevel | pkg/collector/collector.go:1259-1293 | what one level exports and hands on, including the skipped non-final multi-operation levels |
| Chain.AggregateAndCollect | pkg/collector/collector.go:1237-1346 | the exports are those of a chain in which each level works on what the previous one handed on |
| Chain.ChainExports | pkg/collector/collector.go:1259-1346 | for any levels: each level that exports has exactly one export per operation of its list and its single one, the outcome of that operation on what the previous level handed on, and there are no other exports; a level with a list that is not the last one exports nothing and hands on its input |
| Chain.ChainIsComposed | pkg/collector/collector.go:1259-1293 | an all-sum or all-max chain, with any masks, filters and overriders, exports at every level what one step gives on the raw metric, each series filed through all levels up to that one |
| Chain.ChainIsDirect | pkg/collector/builtin_labels.go:178-254 | so with coarsening masks and no filters or overriders it exports at every level what that level gives directly on the raw metric |
| Chain.SumKeepsTheTotal | pkg/collector/operations.go:35-38 | for any mask, filters and overriders, sum conserves the arithmetic total of the passing values |
| ConnectionTable.Server.constructor | pkg/sampler/server.go:110 | no connection and no live stream |
| ConnectionTable.Server.AddConnectionsIfMissing | pkg/sampler/server.go:330-379 | address by address: empty, present and failing ones are skipped, others get a new live stream |
| ConnectionTable.Server.RemoveConnections | pkg/sampler/server.go:382-391 | the streams of the given addresses are stopped and forgotten |
| ConnectionTable.Server.ShutdownAllConnections | pkg/sampler/server.go:394-401 | all streams in the table are stopped and the table is empty |
| ConnectionTable.RegisterConnects | pkg/sampler/server.go:330-379 | after registering, connected are the addresses that were and the non-empty ones that could be dialled; old connections stay, new ones have new live streams |
| ConnectionTable.RemoveDisconnects | pkg/sampler/server.go:382-391 | removing disconnects exactly the given addresses and stops exactly the streams to them |
| ConnectionTable.ShutDownStopsAll | pkg/sampler/server.go:394-401 | shutting down leaves no connection and no live stream |
| ConnectionTable.EveryRunIsFaithful | pkg/sampler/server.go:328-401 | in every interleaving the live streams are exactly those in the table, each under its own address |
| ConnectionTable.OneLiveStreamPerAddress | pkg/sampler/server.go:328-401 | hence at most one live stream per address, none to the empty one |
| ConnectionTable.LateWatcher | pkg/sampler/server.go:369-377 | a late watcher leaves the live streams alone iff its address has no connection |
| ConnectionTable.LateWatcherStopsNewStream | pkg/sampler/server.go:369-377 | a run in which it stops a newer stream |
| ResponseCache.Server.constructor | pkg/collector/utilization/sampler_collector.go:166 | an empty cache |
| ResponseCache.Server.CacheMetrics | pkg/collector/utilization/sampler_collector.go:420-424 | replaces the message of the node |
| ResponseCache.Server.ClearMetrics | pkg/collector/utilization/sampler_collector.go:413-417 | forgets the node |
| ResponseCache.Server.ReceiveMetrics | pkg/collector/utilization/sampler_collector.go:304-314 | a message without node name is dropped, others are stamped and cached |
| ResponseCache.Server.GetMetrics | pkg/collector/utilization/sampler_collector.go:389-410 | a copy, without the entries whose time plus the time to live lay before the clock when checked |
| ResponseCache.Server.GetNodeNames | pkg/collector/utilization/sampler_collector.go:373-386 | the nodes whose message was at most the time to live old when checked |
| ResponseCache.ReadsTheLastFreshMessage | pkg/collector/utilization/sampler_collector.go:389-410 | in every run a read returns for a node only the last message cached before it, fresh when checked |
| ResponseCache.MissesFreshOnlyIfOvertaken | pkg/collector/utilization/sampler_collector.go:261-274 | it misses a fresh last message iff a sweep that had copied an earlier expired one cleared the node after the newer push |
| ResponseCache.HoldsIff | pkg/collector/utilization/sampler_collector.go:412-424 | the cache holds a node iff its last message was not cleared since |
| ResponseCache.FreshMessageCanBeLost | pkg/collector/utilization/sampler_collector.go:265-270 | a run in which a fresh message is lost |
| Readiness.Collector.constructor | pkg/collector/collector.go:1563-1570 | ready and serving at once iff the percentage is zero |
| Readiness.Collector.RegistrationCycle | pkg/collector/collector.go:1635-1706 | one cycle, with the percentage over all nodes that have a sampler pod |
| Readiness.NodesAre | pkg/collector/collector.go:1639-1652 | a node counts iff any sampler pod is placed on it, running or not |
| Readiness.PctPassesIff | pkg/collector/collector.go:1652-1653 | a cycle passes iff 100 * results >= (minimum + 1) * samplers |
| Readiness.ReadinessCounts | pkg/collector/collector.go:1581-1692 | after any cycles, p of them passing: serving iff p exceeds the shorter wait, ready iff p exceeds the ready wait, and the counter stops one above it; negative waits count as zero |
| Readiness.ReadinessWithoutCounting | pkg/collector/collector.go:1565-1570 | with a percentage of zero both flags are set at once and stay, with a negative one neither ever is |
| Readiness.FlagsNeverRevert | pkg/collector/collector.go:1655-1679 | neither flag is withdrawn |
| Readiness.DeletionEnabledIff | pkg/collector/collector.go:1763 | pods can be deleted iff enough cycles passed and the ready wait is at least the deletion threshold |
| Readiness.ServingOnlyAfterPage | cmd/metrics-prometheus-collector/cmd/cmd.go:351-395 | in every interleaving the probe answers SERVING only after a page was stored whose scrape began and was collected with ServeResults already true |
| Readiness.ServingOnlyAfterCycles | pkg/collector/utilization/sampler_collector.go:249-258 | and only after more passing cycles than the ready wait, unless the percentage is zero |
| Readiness.ReadyImpliesServing | pkg/collector/collector.go:1678-1679 | in every interleaving, also between the two stores, IsReadyResult implies ServeResults |
| NodeView.IndexPods | pkg/collector/collector.go:1475-1481 | each node's list holds exactly the pods placed on it, in order |
| NodeView.NodeRequestsLimits | pkg/collector/values.go:534-561 | the sum over the containers of the pods that are not completed, absent resources counting zero |
| NodeView.CollectNodes | pkg/collector/collector.go:629-639 | one series per listed node, holding the sum over its pods |
| NodeView.CollectContainers | pkg/collector/values.go:63-79 | one series per container that names the resource, of pods that are not completed |
| NodeView.ContainerCounts | pkg/collector/values.go:534-561 | a container adds its request or its limit, or nothing for a resource it does not name |
| NodeView.PodCounts | pkg/collector/values.go:534-561 | a pod adds its containers to its own node, unless it succeeded or failed |
| NodeView.ContainerSeriesIff | pkg/collector/values.go:63-79 | a container series exists iff its container names the resource and its pod neither succeeded nor failed |
| NodeView.ContainerSeriesValue | pkg/collector/values.go:63-79 | with distinct names it holds what the container requests, or is limited to |
| NodeView.NodeViewEqualsContainerView | pkg/collector/values.go:533-561 | with distinct names the node series add up to the container series placed on a listed node |

## Left out

- Words.Div64: float64 rounding of rates and averages is not modelled; all quotients are exact floors.
- SampleCache.SampleCache.ListMetrics: the scheduling-period lists and averages, network fields and names of the response are not modelled; a node entry is modelled with the fields of a container entry, of which the code sends CPU and memory.
- SampleCache.SampleCache.FetchSample: merging cAdvisor network statistics, which can move a sample's time, and failing reads of cgroup files are not modelled; every reading is given with its time.
- SampleCache.SampleCache.PopulateSummary: the cAdvisor network averages are not modelled.
- WindowLimits.LawHoldsIff: assumes a window that spans at most 2^63 seconds and a ring of at most 2^63 slots, which no duration or slice of the platform exceeds, and like AverageWithinPublished that size * max is below 2^64.
- RealPowers.LogUp: the logarithm is exact; the floating point quotient of two logarithms may differ at bucket bounds.
- Histogram.AddHistogramValues: assumes a minimum base above one, for which the logarithm makes sense; the base itself, a root when compression is negative, is given with the settings and required to be the right one.
- Operations.Aggregate: lists are values; sorting in place is visible in the result `after`, sharing of backing arrays between slices is not modelled.
- Operations.OrderStatistic: the 95th percentile index is 95*(n-1)/100 in integers, not a float64 product.
- Labels.SameGroupIff: the 22 built-in struct fields are one vector, in the order in which the code lists them; the field-by-field code is not transcribed.
- Labels.OverrideValues: overriders are functions of the labels they are shown; one with memory or side effects is not modelled.
- Chain.AggregateAndCollect: the source filter, metric names and aliases, retention files and timers are not modelled.
- ConnectionTable.Server.AddConnectionsIfMissing: whether dialling succeeds is an input; sending and its retries only decide which addresses a failed push removes.
- ResponseCache.Server.GetMetrics: messages are compared by identity and time; their containers, and the clamping of usage to limits inside cached messages, are not modelled.
- Readiness.Collector.RegistrationCycle: the division by the number of sampler nodes panics when there are none, so at least one sampler pod is required; registering with and deleting pods is not modelled.
- Readiness.ServingOnlyAfterPage: leader election is not modelled, nor the exit after repeated scrape failures.
- NodeView.CollectContainers: utilization, quota, volume and scheduler values are not modelled; a series is identified by namespace, pod, container and node.
- Label extraction from Kubernetes objects, workload resolution, configuration defaulting and validation: branch-by-branch facts.
- Node taint matching, cgroup and containerd readers, gRPC and HTTP servers, the archiver and command lines.

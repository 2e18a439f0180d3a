# A verified model of the key visualizer, its key codec and the report comparison

The key visualizer of TiDB Dashboard keeps a heat map of traffic over key ranges and time. This project
models its engine in Dafny and proves what the engine is for; beside it, it models the encoding of keys
that the logical borders of the map rest on, and the comparison of two diagnosis reports.

**The histograms.** An axis is a row of key buckets with several columns of values. `Keys` gives keys their
lexicographic order, with a last key `""` for plus infinity. A coarsening of an axis is described by the
row boundaries it keeps (`Cuts`); `Focus`, `ColdRanges` and `Chunks` prove each operation of a chunk
against the partition it picks, and bound the number of rows `Divide` returns. `Axes` adds the columns, the
stored and displayed forms, and key ranges.

**Compaction.** `KeyUnion` builds the common key axis of several histograms, `Splitting` splits a histogram
onto it, by equal share or by the distance scale that `Distance`, `Scale` and `DistanceSplitter` compute.
`Planes` compacts planes, `Matrices` pixelates them, `Reduction` is the reduction of a full layer, and
`Existence` shows that every plane has one.

**The time series.** `Layers` is the chain of layers on values, `History` its closed form after any run,
`Timeline` the meaning of a range query, `Heat` the conservation of traffic over a run. `Ring`, `LayerStats`
and `Stats` are the ring buffers and the chain of objects, proved to act on the values as `Layers` says.
`Database` is the table the layers are mirrored in, `Service` answers a request from the store.

**Keys.** `Codec` is the memcomparable encoding (the MyRocks record format, section "Memcomparable
format"), `TableKeys` the table keys made of it, `Labelers` the border test.

**Reports.** `Tables` has labels and difference ratios, `DiffHeap` the bounded heap of the largest
differences, `OuterJoin` the full outer join on labels, `NewRows` the rows and header of its result,
`Sorting` the contract of sorting, `SubRows` the join of the sub rows of two rows, and `Compare` the
comparison of two tables.

How values are modelled: keys are byte sequences; 64-bit sums are naturals, with the column sums that the
source adds to each other bounded by 2^63; floats are reals; times are integers; a labeler is a function
from two keys to whether they lie in different logical ranges. On values the layers are generic in the axes
and in their compaction; the objects run `Reduction.ReduceAxes`, and `Existence` shows that this is one
definite function of the axes, which instantiates the value model.

Where the code departs from what one would expect, the model follows the code:

- With a target of 1, `Divide` divides by zero; `Chunks.DivideFailsOnlyAtOne` shows that this is the only
  such target, and members that divide ask for another one.
- A truncated distance level still adds the last weight to the sum, so a scale row sums to less than 1
  exactly when a level is truncated (`Scale.RowScaleSums`).
- A generated key carries `r` where reading a row looks for `_r`, so its row ID survives only when it is
  zero (`TableKeys.RowRoundTripFails`).
- Join labels separate cells by commas without escaping them, so labels tell rows apart exactly when commas
  can stand in at most one join column (`Tables.LabelsExact`).
- A row that only the first table has is padded by the number of join columns, counting duplicates, so it is
  as wide as the header exactly when the join columns are distinct (`NewRows.WidthOfFirst`).

## Model

| member | source | states |
|---|---|---|
| Keys.KeysRange | pkg/keyvisual/matrix/util.go:79-119 | ok exactly when some bucket intersects the range; then the indices hold at least one bucket and exactly the intersecting ones |
| Keys.IntersectsMeans | pkg/keyvisual/matrix/util.go:79-119 | a bucket intersects the range, by its bounds, exactly when some key lies in both |
| Keys.LessMeans | pkg/keyvisual/matrix/util.go:59-119 | keys are ordered by their first difference, and a prefix comes first |
| Cuts.SumsKeepTotal | pkg/keyvisual/matrix/axis.go:164-184 | coarsening keeps the total of a column |
| Cuts.SumsAdd | pkg/keyvisual/matrix/axis.go:164-184 | coarsening a sum of columns is the sum of the coarsened columns |
| Cuts.CoarsenTwice | pkg/keyvisual/matrix/axis.go:212-244 | two coarsenings in a row are one coarsening, keys and sums |
| Chunks.Reduce | pkg/keyvisual/matrix/axis.go:164-184 | for the keys a partition keeps, the values are the sums of its parts; the inclusion check passes; the scan by raw strings stays in bounds |
| Chunks.GetFocusRows | pkg/keyvisual/matrix/axis.go:187-207 | counts the buckets that the threshold rule closes; `Focus.FocusRowsCount` says which these are |
| Focus.FocusRowsCount | pkg/keyvisual/matrix/axis.go:187-207 | the estimate is the number of parts of the one partition whose parts end where a row, or the part so far, reaches the threshold, and at no row before |
| Focus.FocusRowsAntitone | pkg/keyvisual/matrix/axis.go:187-207 | the estimated number of rows never grows with the threshold |
| Focus.LowerThresholdMoreRows | pkg/keyvisual/matrix/axis.go:187-207 | from any two positions of the scan, the higher threshold closes at most one bucket more, and none more when it starts later |
| Focus.FocusRowsBounds | pkg/keyvisual/matrix/axis.go:187-207 | at least one row for every threshold, and exactly one above the column total |
| Chunks.FocusPass | pkg/keyvisual/matrix/axis.go:212-238 | the scan of `Focus` is the coarsening onto the boundaries its rule keeps; `Focus.OnlyBuckets` says which these are |
| Focus.RuleCutsAreBuckets | pkg/keyvisual/matrix/axis.go:212-238 | every kept bucket but the last ends at a hot row, or is hot, or has `ratio` rows, or ends at a border from its first key; and at no row inside it is one of these so |
| Focus.OnlyBuckets | pkg/keyvisual/matrix/axis.go:212-238 | these are the boundaries of the only partition of the rows into such buckets |
| Chunks.FocusExactly | pkg/keyvisual/matrix/axis.go:212-244 | `Focus` without merging keeps exactly the boundaries of that partition |
| Focus.MergedBucketsAreCold | pkg/keyvisual/matrix/axis.go:212-238 | a greedy bucket of two or more rows has only rows below the threshold, a total below twice the threshold, at most `ratio` rows and no row start across a border |
| Chunks.FocusBuckets | pkg/keyvisual/matrix/axis.go:212-244 | the same for every bucket `Focus` returns without merging, and buckets are never empty |
| Chunks.FocusChunk | pkg/keyvisual/matrix/axis.go:212-244 | `Focus` equals `Reduce` onto the keys it keeps, in both modes |
| Chunks.MeetTracks | pkg/keyvisual/matrix/axis.go:265-284 | after a logical range is met, the output holds exactly the boundaries the partition keeps so far, and the pending rows are the cold ones since |
| Chunks.MergeCold | pkg/keyvisual/matrix/axis.go:246-295 | the result is the coarsening of the input onto the boundaries that `ColdRanges` characterises |
| ColdRanges.MergeCutsAreGood | pkg/keyvisual/matrix/axis.go:246-295 | every bucket is a single row of a hot range, or a union of whole cold ranges of which all but the last stay within the limit together; neighbours stay apart only for cause |
| ColdRanges.OnlyGood | pkg/keyvisual/matrix/axis.go:246-295 | this is the only partition with such buckets |
| Chunks.FocusMerges | pkg/keyvisual/matrix/axis.go:212-295 | `Focus` with merging keeps the buckets of the first pass when they are fewer than the target, and otherwise merges them into the only partition of that kind, with a quarter of the threshold as the limit |
| ColdRanges.HotRangesIntact | pkg/keyvisual/matrix/axis.go:246-295 | every row of a logical range above the limit is a bucket of its own |
| Cuts.CutsNeverAddRows | pkg/keyvisual/matrix/axis.go:246-295 | a partition never has more buckets than rows |
| Chunks.LeastThreshold | pkg/keyvisual/matrix/axis.go:302-319 | the least threshold that leaves few enough rows, or one above the total |
| Chunks.ThresholdExactly | pkg/keyvisual/matrix/axis.go:302-319 | the threshold is the least one that leaves at most target*2/3 rows, or one above the total |
| Chunks.FindThreshold | pkg/keyvisual/matrix/axis.go:302-319 | the binary search ends with the threshold the linear search finds, and its midpoint sum does not overflow |
| Chunks.FreeRowsPositive | pkg/keyvisual/matrix/axis.go:302-321 | for a target of two or more the threshold meets the limit of target*2/3 rows and the divisor is positive |
| Chunks.DivideFailsOnlyAtOne | pkg/keyvisual/matrix/axis.go:321-321 | the divisor is zero exactly for target 1 |
| Chunks.RatioExactly | pkg/keyvisual/matrix/axis.go:320-321 | the ratio is the least number of rows of which the free rows take more than all rows |
| Chunks.Divide | pkg/keyvisual/matrix/axis.go:298-323 | the chunk itself, or its coarsening onto the boundaries of `Focus` with the found threshold and ratio |
| Chunks.DivideExactly | pkg/keyvisual/matrix/axis.go:298-323 | for every target from two to the row count the boundaries are those of `Focus` for that threshold and that ratio |
| Focus.ExtraCutsCostOneRow | pkg/keyvisual/matrix/axis.go:212-238 | rows exceed the estimate by at most one for each cut that only the ratio or only a border asked for |
| Focus.RatioCutsAreSpaced | pkg/keyvisual/matrix/axis.go:212-238 | each ratio cut closes a bucket of `ratio` rows, so there are at most rows/ratio of them |
| Focus.BorderCutsAreChanges | pkg/keyvisual/matrix/axis.go:212-238 | where borders are those of an equivalence, border cuts number at most the changes of class between adjacent rows |
| Chunks.DivideRowBound | pkg/keyvisual/matrix/axis.go:298-323 | at most target - 1 rows plus the changes of logical range, for every chunk, every target from two to the row count and either mode |
| Chunks.DivideBelowTarget | pkg/keyvisual/matrix/axis.go:298-323 | fewer rows than the target for a labeler without borders |
| Axes.Divide | pkg/keyvisual/matrix/axis.go:92-107 | an axis with no more rows than the target stays; else every column is coarsened onto the boundaries that `Divide` keeps of the base column |
| Axes.DividedRows | pkg/keyvisual/matrix/axis.go:92-107 | the divided axis has at most target - 1 rows plus the changes of logical range, or as many as it had when these are no more than the target |
| Axes.FocusOn | pkg/keyvisual/matrix/axis.go:73-88 | the same for a given threshold and ratio, with the boundaries that `Focus` keeps of the base column |
| Axes.DivideKeeps | pkg/keyvisual/matrix/axis.go:92-107 | the divided axis is valid, has the same ends and the same total in every column |
| Axes.DivideIntegrates | pkg/keyvisual/matrix/axis.go:92-107 | column 0 stays the sum of columns 1 and 2 |
| Axes.Range | pkg/keyvisual/matrix/axis.go:58-69 | always a valid axis: exactly the intersecting buckets with all columns, or the empty axis over the range |
| Axes.Shrink | pkg/keyvisual/matrix/axis.go:49-55 | every value is divided in place by the ratio, once for each column that shares its array |
| Axes.IntoStorageAxis | pkg/keyvisual/storage/region.go:18-51 | the columns after the base column: as they are for up to 3072 rows, else coarsened onto the boundaries the base column picks, to at most 3071 rows plus the changes of logical range |
| Axes.IntoResponseAxis | pkg/keyvisual/storage/region.go:54-73 | the column stored for the tag, or the bytes written and read together, comes to the front; the integration column takes its place, all other columns stay |
| Axes.IntegrationRecovered | pkg/keyvisual/storage/region.go:45-73 | storing an integrated axis and displaying it for any tag gives back every column of the divided axis, the dropped one included |
| Axes.Wash | pkg/keyvisual/storage/region.go:76-84 | exactly the rows with implausible written bytes are zeroed, in every column |
| Axes.WashIntegrates | pkg/keyvisual/storage/region.go:76-84 | washing keeps column 0 the sum of columns 1 and 2 |
| KeyUnion.MakeKeys | pkg/keyvisual/matrix/util.go:59-69 | the keys of the set, sorted, without duplicates |
| KeyUnion.CompactKeys | pkg/keyvisual/matrix/plane.go:96-118 | a valid axis whose boundaries are exactly those of the chunks, an unlimited end included |
| KeyUnion.EmbeddingExists | pkg/keyvisual/matrix/plane.go:96-126 | an axis whose boundaries all occur in another one has an ascending place for each of them there |
| KeyUnion.FindKey | pkg/keyvisual/matrix/average.go:35-46 | the scan for the next key by raw strings stops at its place and in bounds |
| Splitting.EmbedsPasses | pkg/keyvisual/matrix/util.go:39-49 | an embedded axis passes the inclusion check, and one of equal length is embedded as the identity |
| Splitting.CheckPartMeans | pkg/keyvisual/matrix/util.go:39-49 | the check holds exactly when the part lies within the keys of the axis and has no more boundaries |
| Splitting.Split | pkg/keyvisual/matrix/average.go:18-67 | every bucket gets its share of the row that covers it, set or added by the tag, all others stay; the path for equal lengths agrees with the general one |
| Splitting.SplitNeverAdds | pkg/keyvisual/matrix/average.go:53-63 | adding a split chunk raises the total by at most the total of the chunk |
| Splitting.AverageLoss | pkg/keyvisual/matrix/average.go:47-50 | the equal shares of a row sum to at most its value, and miss less than the number of parts |
| Splitting.AverageRoundTrip | pkg/keyvisual/matrix/average.go:18-67 | splitting and reducing back never increases a value and loses less than the number of parts |
| Splitting.SplitRoundTrip | pkg/keyvisual/matrix/average.go:18-67 | splitting and reducing back never increases a value, for every frugal share |
| Distance.UpdateLeftDis | pkg/keyvisual/matrix/distance.go:276-288 | zero where the axis has the key, else one more than the column to the left |
| Distance.UpdateRightDis | pkg/keyvisual/matrix/distance.go:290-301 | zero where the axis has the key, else the lesser of its own and one more than the column to the right |
| Distance.DistanceMatrix | pkg/keyvisual/matrix/distance.go:59-83 | every entry is what both passes give; on the union of the keys of the axes it is the least distance to an axis with the key, attained by one |
| Distance.LeftNearest | pkg/keyvisual/matrix/distance.go:69-77 | the left pass finds the nearest axis at or before, or shows that there is none |
| Distance.KeyHasAxis | pkg/keyvisual/matrix/plane.go:96-118 | every key of the compact axis is a key of some axis |
| Distance.PassesFindNearest | pkg/keyvisual/matrix/distance.go:59-83 | for every axis and every compact key both passes give the least distance to an axis with the key, attained by one; the virtual columns never win |
| Distance.ToBucketDis | pkg/keyvisual/matrix/distance.go:303-310 | a bucket is as far as the farther of its boundaries, and the maximum is returned |
| DistanceSplitter.BucketIsFarther | pkg/keyvisual/matrix/distance.go:303-310 | the bucket between two neighbouring keys is as far as the farther of them |
| DistanceSplitter.RankWeights | pkg/keyvisual/matrix/distance.go:243-262 | the weights of the sorted distances and the sum of terms, whatever the scratch table held |
| Scale.WeightMeans | pkg/keyvisual/matrix/distance.go:243-262 | with k distinct smaller distances, a part has weight 1 if k is 0, the k-th power if there are more than k levels and its distance first stands below the count, and 0 otherwise |
| Scale.TermMeans | pkg/keyvisual/matrix/distance.go:243-262 | a part adds the least weight up to its own that is not zero to the sum |
| DistanceSplitter.ScaleRow | pkg/keyvisual/matrix/distance.go:235-267 | every entry is the weight of its distance over the sum, and no other entry changes |
| DistanceSplitter.ScaleColumn | pkg/keyvisual/matrix/distance.go:207-269 | every row of the axis is scaled, independent of the scratch table, which grows until all distances fit |
| Scale.RankedSorted | pkg/keyvisual/matrix/distance.go:241-243 | the ranking is sorted and a permutation of the distances |
| Scale.WeightsDecrease | pkg/keyvisual/matrix/distance.go:245-262 | weights do not increase along the ranking |
| Scale.RowScaleSums | pkg/keyvisual/matrix/distance.go:240-266 | a row sums to at most 1, and to exactly 1 if and only if no level is truncated |
| Scale.RowScaleOrder | pkg/keyvisual/matrix/distance.go:240-266 | entries are not negative and do not increase with distance |
| DistanceSplitter.DistanceIsFrugal | pkg/keyvisual/matrix/distance.go:90-139 | the truncated shares of every row sum to at most its value, and a single part keeps it whole |
| DistanceSplitter.DistanceLossExact | pkg/keyvisual/matrix/distance.go:90-139 | the parts of a row miss less than one each of every value if and only if no level is truncated |
| DistanceSplitter.DistanceRoundTrip | pkg/keyvisual/matrix/distance.go:90-139 | splitting by distance and reducing back never increases a value, and loses less than the number of parts where no level is truncated |
| Planes.NewSplitter | pkg/keyvisual/matrix/distance.go:59-88 | every axis is scaled by the distances of its keys, which are the true nearest ones on the union of the keys; one scratch table serves all |
| Planes.ColumnNearest | pkg/keyvisual/matrix/distance.go:59-83 | the distances an axis is scaled by are those to the nearest axis with the key |
| Planes.AverageGives | pkg/keyvisual/matrix/average.go:47-50 | under the average strategy a part gets the value over the number of parts, rounded down |
| Planes.DistanceEntry | pkg/keyvisual/matrix/distance.go:235-267 | the entry of a part, times the sum of the terms of its row, is the weight of its distance by the rank it has in the row |
| Planes.DistanceGives | pkg/keyvisual/matrix/distance.go:90-139 | under the distance strategy a part gets its entry times the value of the row, rounded down |
| Planes.SplitGives | pkg/keyvisual/matrix/average.go:53-63 | what a split adds to a position is what the covering row gives it, and nothing outside the chunk |
| Planes.Compact | pkg/keyvisual/matrix/plane.go:96-126 | the boundaries of all chunks, every bucket the sum of what the chunks give it by the true nearest distances, and no more in total than they hold |
| Planes.CompactPlane | pkg/keyvisual/matrix/plane.go:35-53 | the same for every column, with the splitter of the base column |
| Planes.CompactionConserves | pkg/keyvisual/matrix/plane.go:96-126 | where no level is truncated, a compacted column holds all that the axes hold, but for less than one for each bucket and axis |
| Matrices.PixelRow | pkg/keyvisual/matrix/plane.go:77-81 | one row is the column of one axis, split and then reduced onto the kept keys, and totals no more than the column |
| Matrices.RowConserves | pkg/keyvisual/matrix/plane.go:56-94 | where no level is truncated, a row of the matrix shows all of its column, but for less than one for each bucket of the compact axis |
| Matrices.Pixel | pkg/keyvisual/matrix/plane.go:56-94 | the kept keys are those of the divided compact chunk, a valid axis with the same ends; every column of every axis is shown on them, and totals no more than it holds |
| Matrices.KeptRows | pkg/keyvisual/matrix/plane.go:56-94 | the matrix keeps all rows of the compact axis up to the target, and else those that `Divide` keeps, at most target - 1 plus the changes of logical range |
| Matrices.TouchesMeans | pkg/keyvisual/matrix/util.go:79-119 | some bucket intersects the range exactly when the axis as a whole touches it |
| Matrices.WiderTouches | pkg/keyvisual/matrix/matrix.go:39-51 | an axis with all boundaries of another one touches every range the other one does |
| Matrices.Range | pkg/keyvisual/matrix/matrix.go:39-51 | exactly the rows that intersect the range, for every column and every time |
| Matrices.DisplayPlane | pkg/keyvisual/storage/stat.go:286-295 | every stored axis is cut to the range and displayed for the tag; without axes the plane is empty; no base column grows |
| Matrices.Heatmap | pkg/keyvisual/service.go:284-285 | pixelating and cutting never reach the panic of `Matrix.Range`; the cells are those of the pixelated plane on the rows that intersect the range, and the wanted column shows no more than is stored |
| Service.Request | pkg/keyvisual/service.go:283-285 | in every state the store can be in, a request never panics, and its matrix shows exactly the stored intervals that meet the time range, on the keys that intersect the key range |
| Reduction.ShrinkAxis | pkg/keyvisual/matrix/axis.go:49-55 | every column holds the quotients by the ratio |
| Reduction.ReduceAxes | pkg/keyvisual/storage/stat.go:96-100 | compacted, displayed, stored again and shrunk, step by step; with what `ReductionMeans` says |
| Reduction.ReductionMeans | pkg/keyvisual/storage/stat.go:96-100 | a reduction is a valid axis that spans the same keys, no column totals more than the mean over the axes, and the 63-bit bound carries over |
| Reduction.ReductionRows | pkg/keyvisual/storage/stat.go:96-100 | a reduction keeps the union of the keys of the axes for up to 3072 rows, and else at most 3071 rows plus the changes of logical range |
| Reduction.ReductionUnique | pkg/keyvisual/storage/stat.go:96-100 | axes have one reduction, under either strategy and whatever the scratch tables held |
| Existence.ReductionExists | pkg/keyvisual/storage/stat.go:96-100 | every plane of stored axes has a reduction, under either strategy |
| Layers.Append | pkg/keyvisual/storage/stat.go:105-117 | the number of layers and their sizes are kept, and the first layer ends with the new sample |
| Layers.AppendChained | pkg/keyvisual/storage/stat.go:72-117 | ring times ascend strictly from the start of each layer, and each layer starts where the next one ends |
| History.RunOccupancy | pkg/keyvisual/storage/stat.go:72-117 | after any run layer k has given up its samples Ratio at a time, the last layer one at a time: it holds the newest it has received, all of it until it has been full, and from then on between Len-Ratio+1 and Len, the last layer Len |
| History.RunPassesOn | pkg/keyvisual/storage/stat.go:72-117 | after any run what a layer has given up is what the next one has received, Ratio samples as one |
| History.RunIsClosed | pkg/keyvisual/storage/stat.go:72-117 | after any run every layer is what a closed form gives for the history alone |
| History.RunChained | pkg/keyvisual/storage/stat.go:72-117 | after any run with ascending times the layers are contiguous and ascending, and the first ends with the last sample |
| History.LayerOfRun | pkg/keyvisual/storage/stat.go:72-117 | layer k holds the newest of what it has received, from a multiple of its step on |
| History.ReceivedCovers | pkg/keyvisual/storage/stat.go:72-102 | each sample of layer k stands for exactly the product of the earlier ratios of consecutive samples |
| History.CoverTime | pkg/keyvisual/storage/stat.go:72-102 | a covering sample ends with the last sample it covers |
| History.SamplesConserved | pkg/keyvisual/storage/stat.go:72-117 | samples kept, each counted for those it stands for, plus samples dropped are the samples appended |
| Heat.AppendHeat | pkg/keyvisual/storage/stat.go:72-117 | an append adds at most the heat of its sample to the layers |
| Heat.HeatNeverMade | pkg/keyvisual/storage/stat.go:72-117 | over any run the layers never hold more heat than was appended, and only good axes |
| Heat.KeyVisualReduces | pkg/keyvisual/storage/stat.go:96-100 | the reduction of the key visualizer is one definite function of the stored axes |
| Heat.TrafficNeverMade | pkg/keyvisual/storage/stat.go:72-117 | for any function that reduces so, no column ever shows more traffic than was recorded, and every stored axis stays valid and within the bound that `ReduceAxes` needs |
| Heat.KeyVisualTraffic | pkg/keyvisual/storage/stat.go:72-117 | so it is for the layers of the key visualizer, over any run |
| Ring.HeadMoved | pkg/keyvisual/storage/stat.go:76-78 | clearing the head slot and advancing the head removes the oldest sample and no other |
| Ring.TailWritten | pkg/keyvisual/storage/stat.go:112-116 | writing the tail slot and advancing the tail adds the newest sample and keeps the others |
| Ring.HeldSlice | pkg/keyvisual/storage/stat.go:156-164 | one slice, or two where the samples wrap, are exactly the selected samples |
| Ring.SearchTimes | pkg/keyvisual/storage/stat.go:134-139 | the binary search over the wrapped ring finds the first sample at or after the time |
| LayerStats.LayerStat.constructor | pkg/keyvisual/storage/stat.go:47-69 | an empty layer of the configuration, linked to the next one |
| LayerStats.LayerStat.PopMany | pkg/keyvisual/storage/stat.go:86-94 | the n oldest samples leave in order, and each time the marker row is deleted |
| LayerStats.LayerStat.ReduceOldest | pkg/keyvisual/storage/stat.go:96-100 | the oldest axes are compacted, displayed, stored again and shrunk to the one reduction they have, which is stored within the bound again |
| LayerStats.LayerStat.Reduce | pkg/keyvisual/storage/stat.go:72-102 | the chain and the table become what the value model says for the reduction of the key visualizer; the layer then has room |
| LayerStats.LayerStat.Append | pkg/keyvisual/storage/stat.go:105-117 | the whole chain and the whole table become what the value model says |
| LayerStats.LayerStat.Load | pkg/keyvisual/storage/stat_persist.go:78-111 | the layer holds the found rows after the first, as many as fit, and the other rows are deleted |
| LayerStats.LayerStat.SelectOwn | pkg/keyvisual/storage/stat.go:129-142 | the samples of this ring that meet the time range, at least one |
| LayerStats.LayerStat.Range | pkg/keyvisual/storage/stat.go:120-167 | exactly the intervals of the concatenated timeline that meet the time range, contiguous across layers and wraps; nothing stored changes |
| Timeline.SamplesAscend | pkg/keyvisual/storage/stat.go:120-167 | the concatenated timeline of contiguous layers ascends and ends with the first layer |
| Timeline.JoinAnswers | pkg/keyvisual/storage/stat.go:120-167 | the answer of the coarser layers and the selection of a layer join into the answer of both |
| Timeline.AnswerShape | pkg/keyvisual/storage/stat.go:120-167 | one more time than axes, or both empty, which happens exactly when no interval meets the range |
| Timeline.MeetsMeans | pkg/keyvisual/storage/stat.go:120-142 | an interval meets the time range exactly when some moment lies in both |
| Timeline.AnswerMeans | pkg/keyvisual/storage/stat.go:120-167 | an answer is the selected intervals in order, each axis between the times at which its interval starts and ends |
| Timeline.SamplesOfAll | pkg/keyvisual/storage/stat.go:120-167 | the samples of the timeline are those of all layers |
| Database.MirrorsPushed | pkg/keyvisual/storage/stat_persist.go:14-21 | a row for a sample later than all others keeps the rows of the layer its start marker plus its samples, exactly |
| Database.Db.FindOrderByTime | pkg/keyvisual/storage/model.go:76-84 | all rows of the layer, in time order |
| Database.AppendMirrors | pkg/keyvisual/storage/stat_persist.go:14-30 | an append keeps the rows of every layer its start marker plus its samples, exactly |
| Database.ListOfMirror | pkg/keyvisual/storage/stat_persist.go:64-111 | the rows of a mirrored layer, in time order, are its start and its ring |
| Stats.Stat.constructor | pkg/keyvisual/storage/stat.go:186-222 | a chain of empty layers of the configurations |
| Stats.RunPersisted | pkg/keyvisual/storage/stat_persist.go:14-30 | after any run of appends the table holds exactly the markers and samples of the layers |
| Stats.AppendPersisted | pkg/keyvisual/storage/stat_persist.go:14-30 | one append of a later sample keeps the table an exact copy |
| Stats.Stat.CreateStartMarkers | pkg/keyvisual/storage/stat_persist.go:40-52 | the empty table gets exactly one marker for each layer |
| Stats.Stat.DropRedundant | pkg/keyvisual/storage/stat_persist.go:72-76 | the rows of the layers beyond the configured ones are deleted, up to the first layer without rows, and all others stay |
| Stats.Stat.Restore | pkg/keyvisual/storage/stat_persist.go:33-114 | from the table of a run with a sample, every layer is rebuilt exactly and the table stays; otherwise the layers start empty with their markers |
| Stats.Stat.Append | pkg/keyvisual/storage/stat.go:266-268 | the layers and the table stay contiguous, ascending and exact copies of each other, and every axis in them stays a stored one within the bound |
| Stats.Feed | pkg/keyvisual/storage/stat.go:255-269 | any run of appends on the store leaves its layers and its table in the state of that run |
| Stats.Restart | pkg/keyvisual/storage/stat_persist.go:33-114 | a restart on the database of a run with a sample gives the state of that run |
| Stats.RestartedRun | pkg/keyvisual/storage/stat_persist.go:33-114 | a run, a restart on the same database and more appends leave the state of the one run of all the appends |
| Stats.Stat.RangeRoot | pkg/keyvisual/storage/stat.go:271-275 | in every consistent state, exactly the stored intervals that meet the time range |
| Codec.EncodeBytes | pkg/tidb/model/codec.go:168-189 | the loop computes the groupwise encoding |
| Codec.DecodeBytes | pkg/tidb/model/codec.go:114-151 | the loop computes the groupwise decoding, with its three errors, whatever the reused buffer held |
| Codec.EncodedLength | pkg/tidb/model/codec.go:153-189 | nine bytes for each group of eight, and one group more |
| Codec.EncodedAt | pkg/tidb/model/codec.go:153-189 | every byte of an encoding: the data in groups of eight padded with zeros, each followed by 255 less the number of bytes padded |
| Codec.DecodeStops | pkg/tidb/model/codec.go:114-151 | decoding stops at the first group that is not full, and fails there exactly when bytes are missing, the marker is below 247 or a padding byte is not zero |
| Codec.DecodeEncode | pkg/tidb/model/codec.go:114-189 | decoding inverts encoding with any bytes after it |
| Codec.EncodeDecode | pkg/tidb/model/codec.go:114-151 | whatever decodes is exactly the encoding of its value followed by the rest |
| Codec.EncodePrefixFree | pkg/tidb/model/codec.go:168-189 | no encoding is a prefix of another |
| Codec.EncodeOrder | pkg/tidb/model/codec.go:153-189 | encodings compare as the byte strings do |
| TableKeys.DecodeEncodeInt | pkg/tidb/model/codec.go:193-219 | decoding inverts encoding of signed integers with any bytes after it |
| TableKeys.EncodeIntOrder | pkg/tidb/model/codec.go:206-219 | encoded integers compare as signed integers do |
| TableKeys.KeyInfoBuffer.DecodeKey | pkg/tidb/model/codec.go:34-43 | the decoded key or an empty buffer, whatever the buffer held |
| TableKeys.ReadKey | pkg/tidb/model/codec.go:45-79 | from a key of a table, its table ID; an index ID only after `_i`; a row ID only after `_r` with nothing behind it, else a common handle |
| TableKeys.ReadOther | pkg/tidb/model/codec.go:45-79 | a key of neither kind, or too short for a table ID, has table, index and row ID 0 |
| TableKeys.KeyInfoBuffer.GenerateKey | pkg/tidb/model/codec.go:82-108 | the encoded table key, none for table ID 0, whatever the buffer held |
| TableKeys.RawKeyBytes | pkg/tidb/model/codec.go:82-108 | `t` and the table ID; for a row ID other than zero, `r` and the row ID |
| TableKeys.GeneratedKeyInfo | pkg/tidb/model/codec.go:34-108 | a generated key decodes to its table ID, and reads as neither a row nor an index |
| TableKeys.RowRoundTripFails | pkg/tidb/model/codec.go:61-108 | a row ID survives the round trip exactly when it is zero |
| TableKeys.GeneratedKeyOrder | pkg/tidb/model/codec.go:82-108 | generated keys sort by signed table ID, then no row first, then signed row ID |
| Labelers.TidbLabeler.CrossBorder | pkg/keyvisual/decorator/tidb.go:87-103 | whether the keys lie in different logical ranges, whatever the buffer held |
| Labelers.TableKeysBorder | pkg/keyvisual/decorator/tidb.go:87-103 | keys of tables cross a border exactly when the tables differ or the indexes do, where any key but that of an index counts as index 0 |
| Labelers.MetaBorder | pkg/keyvisual/decorator/tidb.go:87-103 | a meta key crosses a border to every key that is not a meta key, and to no other |
| Labelers.OtherKeysTogether | pkg/keyvisual/decorator/tidb.go:87-103 | no border lies between keys that do not decode, or to nothing of a table or of the meta data |
| Labelers.TidbDivideRowBound | pkg/keyvisual/decorator/tidb.go:87-103 | `Divide` returns at most target - 1 rows plus the number of adjacent rows in different logical ranges |
| Labelers.GeneratedKeyRange | pkg/keyvisual/decorator/tidb.go:87-103 | a border lies between two generated keys exactly when their tables differ |
| Tables.CheckIn | pkg/apiserver/diagnose/compare.go:731-738 | found exactly when the index is in the list |
| Tables.GenRowLabel | pkg/apiserver/diagnose/compare.go:740-749 | the join cells separated by commas; fails exactly on a row too short |
| Tables.LabelsDistinguish | pkg/apiserver/diagnose/compare.go:740-749 | where commas stand in at most one join column, labels agree exactly when the join cells do |
| Tables.CommasCollide | pkg/apiserver/diagnose/compare.go:740-749 | for any two different join columns there are rows with commas only there that share a label and differ in their join cells |
| Tables.LabelsExact | pkg/apiserver/diagnose/compare.go:740-749 | labels tell all rows of a width apart if and only if commas can stand in at most one join column |
| Tables.RatioZero | pkg/apiserver/diagnose/compare.go:673-686 | a ratio is zero exactly when the numbers agree |
| Tables.RatioSwaps | pkg/apiserver/diagnose/compare.go:673-686 | swapping the numbers negates the ratio |
| Tables.RatioMeans | pkg/apiserver/diagnose/compare.go:673-686 | from zero the ratio is the second number; between other numbers a rise by the ratio leads from the first to the larger second |
| Tables.RatioSign | pkg/apiserver/diagnose/compare.go:673-686 | for positive numbers it has the sign of the difference |
| Tables.DiffCells | pkg/apiserver/diagnose/compare.go:647-687 | every ratio is that of the numbers in its column, with zero for a cell that a row does not have |
| Tables.CalculateDiffRatio | pkg/apiserver/diagnose/compare.go:647-698 | every column's ratio, and the first largest ratio among columns with two non-zero numbers or, failing those, among columns with one; fails exactly when a compared cell is not a number |
| Tables.OverallLargest | pkg/apiserver/diagnose/compare.go:687-696 | the overall ratio is that of a column, no smaller than that of any column with two non-zero numbers, and where these all agree, than that of any column |
| Tables.OverallZero | pkg/apiserver/diagnose/compare.go:647-698 | the overall ratio is zero exactly when no compared column differs |
| DiffHeap.RootIsLeast | pkg/apiserver/diagnose/compare.go:535-551 | the root of the heap is a smallest row |
| DiffHeap.DiffRows.Push | pkg/apiserver/diagnose/compare.go:541-543 | the heap order is kept and the row added |
| DiffHeap.DiffRows.Pop | pkg/apiserver/diagnose/compare.go:545-551 | the heap order is kept and a smallest row removed |
| DiffHeap.DiffRows.AppendRow | pkg/apiserver/diagnose/compare.go:585-590 | the heap holds min(500, n) rows of the stream, and no dropped row is larger than a kept one |
| DiffHeap.DiffRows.AddRow | pkg/apiserver/diagnose/compare.go:553-583 | the stream grows by the entry of the row, or not at all when the ratio is zero |
| DiffHeap.EntryCells | pkg/apiserver/diagnose/compare.go:553-583 | the entry of a row that differs: its label, ratio and column, and the cells of the first and the second row there |
| DiffHeap.AppendAll | pkg/apiserver/diagnose/compare.go:585-590 | any stream leaves a heap of its largest rows |
| DiffHeap.LargestKept | pkg/apiserver/diagnose/compare.go:585-590 | for every size, the heap holds min(500, m) of the m rows of the stream that are at least that large |
| OuterJoin.TakePartner | pkg/apiserver/diagnose/compare.go:312-331 | the first row the map holds for a label is the one of the same rank, and both maps move on by one |
| OuterJoin.AllUsed | pkg/apiserver/diagnose/compare.go:325-331 | after the first pass the map of the first table is empty |
| OuterJoin.TakeLeftover | pkg/apiserver/diagnose/compare.go:338-349 | the second pass takes a row not used before, whatever label it picks |
| OuterJoin.JoinsNthWithNth | pkg/apiserver/diagnose/compare.go:310-368 | the n-th row of a label is joined with the n-th of that label, and a row without a partner has none |
| OuterJoin.LeftOnce | pkg/apiserver/diagnose/compare.go:310-337 | every row of the first table is in exactly one row of the join |
| OuterJoin.RightOnce | pkg/apiserver/diagnose/compare.go:310-368 | every row of the second table is in exactly one row of the join |
| OuterJoin.JoinSize | pkg/apiserver/diagnose/compare.go:310-368 | the join has the sum over the labels of the larger of the two counts as many rows |
| NewRows.GenNewRow | pkg/apiserver/diagnose/compare.go:599-645 | the first row's cells, the second row's cells that are not joined on and the ratios, with blanks for a missing row |
| NewRows.RowParts | pkg/apiserver/diagnose/compare.go:599-645 | a row is the cells of the first row, or the joined ones of the second where there is no first; then cells of the second row, or blanks; then the ratio of every compared column |
| NewRows.RowOthers | pkg/apiserver/diagnose/compare.go:599-645 | every cell of the second row that is not joined on stands after the first part, as many places on as there are such columns before it |
| NewRows.RankCounts | pkg/apiserver/diagnose/compare.go:599-645 | these places count the columns before that are not joined on |
| NewRows.GenHeader | pkg/apiserver/diagnose/compare.go:377-392 | the prefixed columns of both tables and the ratio columns, or the panic of a bad column |
| NewRows.HeaderCells | pkg/apiserver/diagnose/compare.go:377-392 | the names of the columns stand in the same places as their cells |
| NewRows.WidthWithSecond | pkg/apiserver/diagnose/compare.go:599-645 | a row that the second table has part in is as wide as the header |
| NewRows.WidthOfFirst | pkg/apiserver/diagnose/compare.go:620-631 | a row of the first table alone is as wide as the header exactly when the join columns are distinct |
| Compare.GetLabelMap | pkg/apiserver/diagnose/compare.go:419-429 | the rows of every label, in order; fails exactly without join columns or on a row too short |
| SubRows.IndexRows | pkg/apiserver/diagnose/compare.go:751-762 | the sub rows by label; fails exactly on a duplicate label or a row too short |
| SubRows.PairsJoin | pkg/apiserver/diagnose/compare.go:431-476 | every pair of sub rows is a sub row of the first row with that of its label, if there is one, or a sub row of the second whose label the first does not have |
| SubRows.AllSubsJoined | pkg/apiserver/diagnose/compare.go:431-476 | no sub row of either row is left out of the pairs |
| SubRows.SubEntryCells | pkg/apiserver/diagnose/compare.go:431-476 | a pair that differs is entered under its label with the cells of the first and the second sub row |
| SubRows.JoinSubs | pkg/apiserver/diagnose/compare.go:431-485 | the sub rows of both rows joined on their labels, compared, fed to the heap and sorted by how much they differ; fails exactly when a label is missing or duplicate, a compared cell is not a number or a row cannot be padded |
| SubRows.LargestFirst | pkg/apiserver/diagnose/compare.go:478-480 | sorted sub rows differ less and less |
| Sorting.SortBy | pkg/apiserver/diagnose/compare.go:393-405 | a permutation, in order wherever the comparison is a strict weak order of the elements |
| Compare.JoinRow | pkg/apiserver/diagnose/compare.go:431-522 | the joined row with its overall ratio, its joined and sorted sub rows, and the differences it feeds to the heap; fails exactly when the rows cannot be joined |
| Compare.WholeEntryCells | pkg/apiserver/diagnose/compare.go:498-506 | a row without sub rows that differs is entered under its label with the cells of the first and the second row |
| Compare.CompareTables | pkg/apiserver/diagnose/compare.go:293-417 | terminates, and fails exactly when the tables cannot be compared; otherwise its rows are those of the outer join, each made of the rows it joins, sorted, and the heap keeps the largest differences of the extended stream |
| Compare.FullTablesCompare | pkg/apiserver/diagnose/compare.go:293-417 | full tables of one shape with numbers in the compared cells and distinct join columns can always be compared |
| Compare.RowOrderOrders | pkg/apiserver/diagnose/compare.go:393-405 | the order of the joined rows is a strict weak order of the rows that are wide enough |
| Compare.RowsAscend | pkg/apiserver/diagnose/compare.go:393-405 | sorted rows ascend by their first join column, and where they agree there, by their first column |
| Compare.PrecedesMeans | pkg/apiserver/diagnose/compare.go:393-405 | strings are ordered by their first difference, and a prefix comes first |
| Compare.ComparisonWidth | pkg/apiserver/diagnose/compare.go:293-392 | every row is as wide as the header, for full rows of one shape and distinct join columns |

## Left out

- HTTP handlers, authentication, topology, clients, profiling, log search, the user interface: no part of the modelled logic.
- Goroutines and locks: every critical section and every scale task is one sequential step, and one scratch table serves all tasks in turn.
- The database behind the table, gob and failing database operations: the table is a map from layer and time to an axis, and its operations succeed, except inserting a row that is present. The tag that asks for a unique index (pkg/keyvisual/storage/model.go:18-19) is in a form gorm v2 does not read, so the source would store such a row twice; no theorem depends on this, because appended times are later than all before.
- The powers of the split ratio: given with the settings, positive and never increasing from 1 on.
- Rounding of floats: shares, weights and ratios are exact reals.
- 64-bit wrap-around: sums are unbounded, under the bound of 2^63 on the column sums that `Divide` searches over.
- More than 255 layers: the source counts layers in 8 bits, and its restore loop would wrap around.
- Interning of key strings and its daily rebuild: it returns equal strings.
- Labels, times and tags of the matrix: only keys and data are modelled.
- `Label` of the TiDB labeler, and the other labelers: they only name ranges.
- Contiguity after `Restore` with fewer layers or shorter rings than were stored: the source drops rows there; what is loaded and deleted is stated by `LayerStats.LayerStat.Load` and `Stats.Stat.DropRedundant`.
- The table made of the largest differences and the loop over pairs of tables (pkg/apiserver/diagnose/compare.go:104-205): presentation of what the heap holds.
- Parsing and printing of numbers in reports, the comment of the result table, and the unique-key join: parameters, presentation, or an easier case of the join here.
- Stats.Stat.constructor: the layers are built last first, so that each can refer to the next one from the start; the source links them afterwards.
- Compare.CompareTables: the comment of the result table is not modelled, and after an error the stream of differences is only said to have been added to.
- Compare.JoinRow: after an error the stream of differences is only said to have been added to.
- SubRows.JoinSubs: after an error the stream of differences is only said to have been added to; a sub row that cannot be padded stops it at once, where the source has fed all sub rows before it fails.

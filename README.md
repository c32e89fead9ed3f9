# K-Means clustering core

A Dafny model of the clustering engine of the K-Means server. It covers mixed
continuous/categorical data and Lloyd's algorithm over it.

- **Attributes.** A column is either continuous, with a `[min, max]` range used for
  min-max scaling, or discrete, with a finite domain of strings. Values are the
  datatype `Continuous(real) | Discrete(string)`.
- **Items and tuples.** An item pairs an attribute with a mutable value. Continuous
  items are at distance `|scaled(v) - scaled(w)|`; discrete items are 0 apart when
  equal and 1 otherwise. A tuple is a fixed array of items, and its distance to
  another tuple is the sum of the item distances.
- **The dataset.** It hands out rows as fresh tuples. Sampling chooses `k`
  pairwise different rows from a sequence of random draws. Prototypes are the
  mode of a discrete column (first value in domain order wins a tie, `""` when
  nothing counts) and the mean of a continuous one.
- **Clusters.** A cluster is a centroid tuple plus a set of row ids. A cluster set
  is an array of `k` clusters filled through a write cursor. Its nearest-cluster
  scan lets only a strictly smaller distance win, so ties go to the lowest index.
- **The miner.** Each pass moves every row, in index order, to the cluster of its
  nearest centroid while the centroids stay fixed, then recomputes every
  centroid. Passes repeat until one moves no row, and the pass count is
  returned.
- **Raw rows.** `Example` is a raw row of the database layer, with its
  lexicographic comparison.

The objects the source updates in place are classes: `Item`, `Tuple`, `Cluster`,
`ClusterSet`, `KMeansMiner` and `Example`. Each of their methods is proved
against a specification function on plain values. Those functions live in the
modules `Attributes` (distances), `DataSpec` (frequencies, prototypes, sampling),
`ClusterSets` (nearest centroid, settled rows) and `Miner` (the effect of moving
one row, and the passes of Lloyd's algorithm from the sampled rows: `Assign`,
`Step`, `Lloyd`). The properties of those functions are proved as lemmas.

Main results:
- `KMeansMiner.KMeans`: on success after `r` passes, the clusters and centroids
  in the heap are those of `r` passes of `Lloyd` from the sampled rows, and pass
  `r` is the first that moved no row (`Converged`). Every row sits in exactly one
  cluster, namely the one of its nearest final centroid (`AtNearest`,
  `AtNearestPartitions`). Every centroid is a fixed point of recomputation, and
  at least two passes ran. After a successful sampling the result is exactly
  `Run`, the outcome of the passes on plain values, and `RunOk`,
  `RunNoConvergence` and `RunUndefined` say pass by pass when each of the three
  outcomes happens. A failed sampling is propagated unchanged.
- `ClusterSet.NearestCluster` returns the cluster of `Nearest`. `Nearest` is a least
  distance with every earlier centroid strictly farther.
- `Data.Sampling` returns exactly `Sample`. Its rows differ pairwise, and it fails
  with `OutOfRangeSampleSize` exactly when `k <= 0` or `k` exceeds the row count.

## Model

| member | source | states |
|---|---|---|
| Attributes.AttributeKeepsNameAndIndex | ClientServer_K-Means-main/KMeansServer/src/data/Attribute.java:23-53 | `getName`, `getIndex` and `toString` return the name and index given at construction; a continuous attribute keeps its `min` and `max` |
| Attributes.Attribute.GetScaledValue | KMeansServer/src/data/ContinuousAttribute.java:38-40 | with `max > min`, the scaled value `r` satisfies `r * (max - min) == v - min`; `min` scales to 0, `max` to 1, and a value in `[min, max]` to `[0, 1]` |
| Attributes.ScaledValueMonotone | KMeansServer/src/data/ContinuousAttribute.java:38-40 | scaling never reverses the order of two values |
| Attributes.IteratorYieldsEachValueOnce | ClientServer_K-Means-main/KMeansServer/src/data/DiscreteAttribute.java:34-45 | the iterator yields every domain value at exactly one position, and the distinct-value count is the size of the domain set |
| Attributes.DistinctValuesCount | ClientServer_K-Means-main/KMeansServer/src/data/DiscreteAttribute.java:43-45 | a domain listed without repeats has as many distinct values as entries |
| Attributes.ContinuousDistance | KMeansServer/src/data/ContinuousItem.java:27-31 | the distance is non-negative, is 0 exactly for equal values, and times `max - min` equals the absolute difference of the raw values |
| Attributes.ContinuousDistanceSymmetric | KMeansServer/src/data/ContinuousItem.java:27-31 | swapping the two values keeps the distance |
| Attributes.ContinuousDistanceAtMostOne | KMeansServer/src/data/ContinuousItem.java:27-31 | two values within `[min, max]` are at most 1 apart |
| Attributes.DiscreteDistance | ClientServer_K-Means-main/KMeansServer/src/data/DiscreteItem.java:27-29 | the distance is 0 exactly when the strings are equal and 1 exactly when they differ |
| Attributes.DiscreteDistanceSymmetric | ClientServer_K-Means-main/KMeansServer/src/data/DiscreteItem.java:27-29 | the distance is symmetric and always 0 or 1 |
| Attributes.ItemDistance | KMeansServer/src/data/Item.java:62 | the distance chosen by the attribute's kind is non-negative and is 0 exactly for equal values |
| Attributes.ItemDistanceSymmetric | KMeansServer/src/data/Item.java:62 | item distance is symmetric for both kinds |
| Attributes.ItemDistanceAtMostOne | KMeansServer/src/data/Item.java:62 | values within their column's range are at most 1 apart |
| Attributes.TupleDistance | ClientServer_K-Means-main/KMeansServer/src/data/Tuple.java:60-66 | the sum of item distances is non-negative and is 0 exactly when the two value rows are equal |
| Attributes.TupleDistanceSymmetric | ClientServer_K-Means-main/KMeansServer/src/data/Tuple.java:60-66 | tuple distance is symmetric |
| Attributes.TupleDistanceAtMostLength | ClientServer_K-Means-main/KMeansServer/src/data/Tuple.java:60-66 | with every value in range, tuple distance is at most the number of attributes |
| Dataset.Item.constructor | KMeansServer/src/data/Item.java:28-43 | the getters return the attribute and value given at construction |
| Dataset.Item.Distance | KMeansServer/src/data/Item.java:62 | the item's distance to `a` is the item distance under the item's own attribute: non-negative, 0 exactly when `a` is the item's value, at most 1 in range |
| Dataset.Item.Update | KMeansServer/src/data/Item.java:72-74 | the value becomes the prototype of the item's attribute over the ids; an undefined prototype leaves it and is reported |
| Dataset.Tuple.constructor | ClientServer_K-Means-main/KMeansServer/src/data/Tuple.java:21-23 | a fresh array of the given length with every slot empty |
| Dataset.Tuple.GetLength | ClientServer_K-Means-main/KMeansServer/src/data/Tuple.java:30-32 | the length of the item array, which is fixed at construction |
| Dataset.Tuple.Add | ClientServer_K-Means-main/KMeansServer/src/data/Tuple.java:50-52 | slot `i` holds `c` afterwards and every other slot is unchanged |
| Dataset.Tuple.GetDistance | ClientServer_K-Means-main/KMeansServer/src/data/Tuple.java:60-66 | the accumulated sum equals `TupleDistance` of this tuple's values and the first positions of `t` |
| Dataset.Tuple.DistanceToRow | ClientServer_K-Means-main/KMeansServer/src/data/Tuple.java:78 | the distance to the tuple of row `r` is `TupleDistance` to that row, and this tuple is unchanged |
| Dataset.Tuple.AvgDistance | ClientServer_K-Means-main/KMeansServer/src/data/Tuple.java:75-83 | the result is `MeanDistance`: the sum of the distances to the rows of the ids over their number, None for no ids |
| Dataset.Data.constructor | KMeansServer/src/data/Data.java:43 | the row count is cached and equals the number of rows |
| Dataset.Data.GetNumberOfExamples | KMeansServer/src/data/Data.java:64-66 | the number of rows |
| Dataset.Data.GetNumberOfAttributes | KMeansServer/src/data/Data.java:73-75 | the number of attributes |
| Dataset.Data.GetAttributeValue | KMeansServer/src/data/Data.java:84-86 | the cell of the row and column, of the column's kind |
| Dataset.Data.GetAttribute | KMeansServer/src/data/Data.java:94-96 | the attribute of a column, which records that column as its index |
| Dataset.Data.GetItemSet | KMeansServer/src/data/Data.java:104-112 | a fresh tuple of fresh, distinct items; item `i` carries attribute `i` and the row's value in column `i` |
| Dataset.Data.Compare | KMeansServer/src/data/Data.java:156-161 | true exactly when the two rows agree in every column (hence reflexive and symmetric) |
| Dataset.Data.Taken | KMeansServer/src/data/Data.java:136-140 | true exactly when the drawn row equals one of the rows chosen so far |
| Dataset.Data.Sampling | KMeansServer/src/data/Data.java:121-146 | the result is `Sample`: k in-range, pairwise different rows kept from the draws, `OutOfRangeSampleSize` for k outside `[1, rows]` |
| Dataset.Data.ComputePrototype | KMeansServer/src/data/Data.java:170-175 | the prototype chosen by the attribute's kind, as `Prototype` defines it |
| Dataset.Data.ComputeDiscretePrototype | KMeansServer/src/data/Data.java:184-195 | the scan over the domain returns `DiscretePrototype`, the first value of strictly greatest frequency |
| Dataset.Data.ComputeContinuousPrototype | KMeansServer/src/data/Data.java:204-210 | the accumulated sum over the number of ids is `ContinuousPrototype`, None for no ids |
| Dataset.Frequency | ClientServer_K-Means-main/KMeansServer/src/data/DiscreteAttribute.java:55-61 | the count is the number of ids whose row holds `v` in the attribute's column |
| DataSpec.Count | ClientServer_K-Means-main/KMeansServer/src/data/DiscreteAttribute.java:55-61 | a frequency is at most the number of ids and is 0 for no ids |
| DataSpec.CountAddOne | ClientServer_K-Means-main/KMeansServer/src/data/DiscreteAttribute.java:57-59 | one more id adds one to the count exactly when its row holds the value |
| DataSpec.Frequencies | KMeansServer/src/data/Data.java:187-188 | one frequency per domain value, in domain order |
| DataSpec.FirstStrictMax | KMeansServer/src/data/Data.java:185-193 | the kept index has a positive, maximal count and every earlier count is strictly smaller; -1 exactly when every count is 0 |
| DataSpec.DiscretePrototypeIsFirstMode | KMeansServer/src/data/Data.java:184-195 | the discrete prototype is `""` with every frequency 0, or the first domain value of maximal, positive frequency |
| DataSpec.DiscretePrototypeOfNonEmptySet | KMeansServer/src/data/Data.java:184-195 | over a non-empty id set, the prototype is a domain value that occurs in some of the rows |
| DataSpec.SumOverRemove | KMeansServer/src/data/Data.java:206-208 | the sum over a set does not depend on the order the ids are visited in |
| DataSpec.SumOverBounds | KMeansServer/src/data/Data.java:206-209 | terms within `[lo, hi]` put the sum within `[n * lo, n * hi]` |
| DataSpec.ContinuousPrototype | KMeansServer/src/data/Data.java:204-210 | the mean is defined exactly for non-empty ids, and times their number gives the column sum |
| DataSpec.MeanWithinRange | KMeansServer/src/data/Data.java:204-210 | the mean of a column lies within the column's `[min, max]` |
| DataSpec.OwnedColumn | KMeansServer/src/data/Data.java:94-96 | an attribute of the dataset sits at the column its index names |
| DataSpec.Prototype | KMeansServer/src/data/Data.java:170-175 | the prototype has the attribute's kind and is undefined exactly for a continuous attribute over no ids |
| DataSpec.Recomputed | KMeansServer/src/mining/Cluster.java:54-60 | every centroid position holds its attribute's prototype, or its old value where that is undefined |
| DataSpec.RecomputedCentroid | KMeansServer/src/mining/Cluster.java:54-60 | with every prototype defined, the recomputed centroid does not depend on the old one and stays well formed and in range |
| DataSpec.RecomputedCompatible | KMeansServer/src/mining/Cluster.java:54-60 | recomputation keeps a centroid well formed and in range |
| DataSpec.Distances | ClientServer_K-Means-main/KMeansServer/src/data/Tuple.java:77-79 | one tuple distance per row |
| DataSpec.DistancesBounded | ClientServer_K-Means-main/KMeansServer/src/data/Tuple.java:77-79 | each distance from an in-range tuple to a row lies within `[0, number of attributes]` |
| DataSpec.MeanDistance | ClientServer_K-Means-main/KMeansServer/src/data/Tuple.java:75-83 | the mean distance is defined exactly for non-empty ids |
| DataSpec.MeanDistanceBounds | ClientServer_K-Means-main/KMeansServer/src/data/Tuple.java:75-83 | the mean distance lies within `[0, number of attributes]` |
| DataSpec.Accepted | KMeansServer/src/data/Data.java:130-143 | the kept draws are in range and no more than the draws |
| DataSpec.AcceptedStep | KMeansServer/src/data/Data.java:133-143 | a draw is kept exactly when its row differs from every row kept before |
| DataSpec.AcceptedDistinct | KMeansServer/src/data/Data.java:130-143 | the kept rows differ pairwise |
| DataSpec.AcceptedPrefix | KMeansServer/src/data/Data.java:130-143 | later draws never change the rows kept from earlier ones |
| DataSpec.Sample | KMeansServer/src/data/Data.java:121-146 | success gives k pairwise different rows in range; `OutOfRangeSampleSize` exactly for k outside `[1, rows]` |
| Examples.Example.constructor | ClientServer_K-Means-main/KMeansServer/src/database/Example.java:16 | a new row is empty |
| Examples.Example.Add | ClientServer_K-Means-main/KMeansServer/src/database/Example.java:23-25 | the value is appended and earlier positions keep theirs |
| Examples.Example.CompareTo | ClientServer_K-Means-main/KMeansServer/src/database/Example.java:45-53 | the result is the lexicographic comparison of the two rows with its sign reversed |
| Examples.CompareNumbers | ClientServer_K-Means-main/KMeansServer/src/database/Example.java:49 | the comparison of two numbers is -1, 0 or 1, 0 exactly when equal and negative exactly when the first is smaller |
| Examples.CompareStrings | ClientServer_K-Means-main/KMeansServer/src/database/Example.java:49 | the comparison of two strings is 0 exactly when they are equal |
| Examples.CompareValues | ClientServer_K-Means-main/KMeansServer/src/database/Example.java:49 | the comparison of two values of one kind is 0 exactly when they are equal |
| Examples.CompareStringsAntisymmetric | ClientServer_K-Means-main/KMeansServer/src/database/Example.java:49 | swapping two strings negates their comparison |
| Examples.CompareValuesAntisymmetric | ClientServer_K-Means-main/KMeansServer/src/database/Example.java:49 | swapping two values negates their comparison |
| Examples.FirstDifference | ClientServer_K-Means-main/KMeansServer/src/database/Example.java:48-50 | the first position where the rows differ, with agreement before it; -1 when they agree on all common positions |
| Examples.FirstDifferenceSymmetric | ClientServer_K-Means-main/KMeansServer/src/database/Example.java:48-50 | the first difference does not depend on the order of the rows |
| Examples.CompareToSelfIsZero | ClientServer_K-Means-main/KMeansServer/src/database/Example.java:45-53 | a row compares equal to itself |
| Examples.LexCompareZeroMeansPrefix | ClientServer_K-Means-main/KMeansServer/src/database/Example.java:45-53 | the comparison is 0 exactly when the other row is a prefix of this one |
| Examples.LexCompareMeansPrecedes | ClientServer_K-Means-main/KMeansServer/src/database/Example.java:45-53 | the lexicographic comparison is negative exactly when the first row comes first |
| Examples.LexCompareAntisymmetric | ClientServer_K-Means-main/KMeansServer/src/database/Example.java:45-53 | rows of equal length compare with opposite signs in the two directions |
| Examples.CompareToSignReversed | ClientServer_K-Means-main/KMeansServer/src/database/Example.java:49 | the row (1.0) comes before (2.0), yet the comparison as written gives 1 |
| Examples.Example.CompareToAsDocumented | ClientServer_K-Means-main/KMeansServer/src/database/Example.java:45-53 | negative exactly when this row comes first; 0 exactly when the other row is a prefix of this one |
| Clusters.Cluster.constructor | KMeansServer/src/mining/Cluster.java:35-39 | the given centroid and no rows |
| Clusters.Cluster.ComputeCentroid | KMeansServer/src/mining/Cluster.java:54-60 | the centroid becomes `Recomputed` of its old values over the cluster's rows and stays well formed; the result reports whether every prototype was defined |
| Clusters.Cluster.AddData | KMeansServer/src/mining/Cluster.java:68-71 | true exactly when `id` was not a row before; afterwards the rows are the old ones plus `id` |
| Clusters.Cluster.Contain | KMeansServer/src/mining/Cluster.java:79-81 | true exactly when `id` is one of the rows |
| Clusters.Cluster.RemoveTuple | KMeansServer/src/mining/Cluster.java:89-92 | the rows are the old ones without `id` |
| ClusterSets.ClusterSet.constructor | KMeansServer/src/mining/ClusterSet.java:30-36 | an array of `k` empty slots with the cursor at 0 |
| ClusterSets.ClusterSet.Create | KMeansServer/src/mining/ClusterSet.java:30-36 | a negative `k` is refused with `OutOfRangeSampleSize`; any other `k`, 0 included, gives `k` empty slots |
| ClusterSets.ClusterSet.Add | KMeansServer/src/mining/ClusterSet.java:43-46 | `c` is stored at the cursor, every other slot is unchanged, and the cursor moves on by one |
| ClusterSets.ClusterSet.Get | KMeansServer/src/mining/ClusterSet.java:55-57 | the cluster in slot `j` |
| ClusterSets.ClusterSet.AddCentroid | KMeansServer/src/mining/ClusterSet.java:69-70 | a new cluster with no rows, around a fresh tuple of the row, is stored at the cursor |
| ClusterSets.ClusterSet.InitializeCentroids | KMeansServer/src/mining/ClusterSet.java:66-72 | fails exactly as `Sample` fails, storing nothing and leaving the array as it was; otherwise fills every slot in sample order with a cluster with no rows around the sampled row |
| ClusterSets.ClusterSet.DistanceTo | KMeansServer/src/mining/ClusterSet.java:85 | the distance from the tuple to centroid `j` is `TupleDistance` |
| ClusterSets.ClusterSet.NearestCluster | KMeansServer/src/mining/ClusterSet.java:81-92 | the result is the cluster at index `Nearest` of the tuple over the centroids |
| ClusterSets.LowestIsLeast | KMeansServer/src/mining/ClusterSet.java:82-90 | a scan that moves only to a strictly smaller number ends on a least number, with every earlier one strictly greater |
| ClusterSets.Nearest | KMeansServer/src/mining/ClusterSet.java:81-92 | the nearest centroid is at least as near as every centroid, and every earlier centroid is strictly farther |
| ClusterSets.NearestBreaksTiesLow | KMeansServer/src/mining/ClusterSet.java:86 | among equally near centroids the lowest index is chosen |
| ClusterSets.NearestOfCentroid | KMeansServer/src/mining/ClusterSet.java:81-92 | a row equal to a centroid is nearest to the first centroid equal to it |
| ClusterSets.ClusterSet.CurrentCluster | KMeansServer/src/mining/ClusterSet.java:100-106 | the first cluster holding `id`, or null when none does; nothing changes |
| ClusterSets.FirstWith | KMeansServer/src/mining/ClusterSet.java:100-106 | the first index whose set holds `id`, -1 exactly when no set does |
| ClusterSets.ClusterSet.ComputeCentroidAt | KMeansServer/src/mining/ClusterSet.java:115 | centroid `j` is recomputed from its rows; every other centroid and all rows stay |
| ClusterSets.ClusterSet.UpdateCentroids | KMeansServer/src/mining/ClusterSet.java:113-117 | every centroid becomes `Recomputed` over its own rows, no rows change, and the result reports whether every prototype was defined |
| ClusterSets.AtNearestDetermines | ClientServer_K-Means-main/KMeansServer/src/mining/KMeansMiner.java:91-103 | two assignments of every row to its nearest centroid are equal |
| ClusterSets.AtNearestPartitions | ClientServer_K-Means-main/KMeansServer/src/mining/KMeansMiner.java:91-100 | once every row sits at its nearest centroid, every row sits in exactly one cluster |
| Miner.Moved | ClientServer_K-Means-main/KMeansServer/src/mining/KMeansMiner.java:94-99 | after the move, row `r` is in cluster `b` alone and every other row is where it was |
| Miner.MovedInPlace | ClientServer_K-Means-main/KMeansServer/src/mining/KMeansMiner.java:94-99 | moving a row to the one cluster already holding it changes nothing |
| Miner.MovedIn | ClientServer_K-Means-main/KMeansServer/src/mining/KMeansMiner.java:94-99 | moving a row keeps every cluster within the rows of the data |
| Miner.MovedDisjoint | ClientServer_K-Means-main/KMeansServer/src/mining/KMeansMiner.java:94-99 | moving a row keeps every row in at most one cluster |
| Miner.MovedSettles | ClientServer_K-Means-main/KMeansServer/src/mining/KMeansMiner.java:92-99 | moving a row to its nearest cluster settles it |
| Miner.SettledIffHeld | ClientServer_K-Means-main/KMeansServer/src/mining/KMeansMiner.java:94-95 | over disjoint clusters, a row is settled exactly when its nearest cluster already holds it |
| Miner.ScanStarts | ClientServer_K-Means-main/KMeansServer/src/mining/KMeansMiner.java:90 | before the first row nothing has moved and no change is recorded |
| Miner.ScanStep | ClientServer_K-Means-main/KMeansServer/src/mining/KMeansMiner.java:91-100 | moving row `r` extends the scan: the first `r + 1` rows are settled, later rows are untouched, and a change is recorded exactly when `r` was not already settled |
| Miner.ScanEnds | ClientServer_K-Means-main/KMeansServer/src/mining/KMeansMiner.java:90-100 | after the scan every row is settled, and a change was seen exactly when the old clusters were not at their nearest centroids |
| Miner.RecomputedStable | ClientServer_K-Means-main/KMeansServer/src/mining/KMeansMiner.java:102-103 | a centroid recomputed from a cluster with defined prototypes is unchanged by recomputing it again |
| Miner.Seeds | KMeansServer/src/mining/ClusterSet.java:66-72 | the first centroids are the sampled rows in sample order, well formed and in range |
| Miner.Assign | ClientServer_K-Means-main/KMeansServer/src/mining/KMeansMiner.java:91-100 | one cluster per centroid, each holding only rows of the data |
| Miner.AssignedAtNearest | ClientServer_K-Means-main/KMeansServer/src/mining/KMeansMiner.java:91-100 | the assigned clusters put every row in the one cluster of its nearest centroid |
| Miner.AtNearestIffAssigned | ClientServer_K-Means-main/KMeansServer/src/mining/KMeansMiner.java:91-100 | clusters put every row in the one cluster of its nearest centroid exactly when they are the assigned ones |
| Miner.Step | ClientServer_K-Means-main/KMeansServer/src/mining/KMeansMiner.java:91-102 | one pass recomputes every centroid from the rows assigned to it, and the centroids stay well formed and in range |
| Miner.Lloyd | ClientServer_K-Means-main/KMeansServer/src/mining/KMeansMiner.java:85-103 | the centroids after any number of passes from the sample are one per draw, well formed and in range |
| Miner.ClustersAfter | ClientServer_K-Means-main/KMeansServer/src/mining/KMeansMiner.java:83-100 | the clusters after any number of passes are one per draw and hold only rows of the data |
| Miner.FirstPassMoves | ClientServer_K-Means-main/KMeansServer/src/mining/KMeansMiner.java:83-95 | the first pass always moves a row, because every cluster starts with no rows |
| Miner.Ends | ClientServer_K-Means-main/KMeansServer/src/mining/KMeansMiner.java:87-104 | the loop's outcome read off per-pass flags from pass n on: a pass number between n and the last flag, or one of the two errors |
| Miner.EndsOk | ClientServer_K-Means-main/KMeansServer/src/mining/KMeansMiner.java:87-104 | the flags end in success at pass k exactly when pass k is defined and still and every pass from n to k went on |
| Miner.EndsNoConvergence | ClientServer_K-Means-main/KMeansServer/src/mining/KMeansMiner.java:87-104 | the flags end in `NoConvergence` exactly when every pass from n on is defined and moves a row |
| Miner.EndsUndefined | ClientServer_K-Means-main/KMeansServer/src/mining/KMeansMiner.java:87-104 | the flags end in `UndefinedPrototype` exactly when some pass from n on is undefined and every pass before it went on |
| Miner.DefinedFlags | KMeansServer/src/mining/ClusterSet.java:113-117 | flag m says whether every prototype of the clusters after m passes is defined, for m up to the budget |
| Miner.StillFlags | ClientServer_K-Means-main/KMeansServer/src/mining/KMeansMiner.java:103 | flag m says whether pass m moved no row, for m up to the budget |
| Miner.RunOk | ClientServer_K-Means-main/KMeansServer/src/mining/KMeansMiner.java:83-104 | the loop succeeds after k passes exactly when k is within the budget, pass k moved no row with every prototype defined, and every earlier pass from the first moved a row with every prototype defined; then k >= 2 |
| Miner.RunNoConvergence | ClientServer_K-Means-main/KMeansServer/src/mining/KMeansMiner.java:83-104 | the loop runs out of passes exactly when every pass of the budget moved a row with every prototype defined |
| Miner.UndefinedFirstAt | KMeansServer/src/mining/ClusterSet.java:113-117 | "pass k is the first to leave a prototype undefined" reads the same on the flags and on the passes |
| Miner.RunUndefined | ClientServer_K-Means-main/KMeansServer/src/mining/KMeansMiner.java:83-104 | the loop stops with `UndefinedPrototype` exactly when some pass of the budget left a prototype undefined and every pass before it moved a row with every prototype defined |
| Miner.LloydPass | ClientServer_K-Means-main/KMeansServer/src/mining/KMeansMiner.java:87-103 | a pass from where the loop stands after n passes, still going on, leaves it standing after n + 1: the change flag is set exactly when pass n + 1 moved a row, the defined flag exactly when its prototypes are all defined, and the outcome still to come is unchanged |
| Miner.RunEnds | ClientServer_K-Means-main/KMeansServer/src/mining/KMeansMiner.java:103-104 | where the loop stops, its outcome is `Run`'s: `UndefinedPrototype` if a prototype is undefined, success with the pass count if no row moved, `NoConvergence` otherwise |
| Miner.LloydSettles | ClientServer_K-Means-main/KMeansServer/src/mining/KMeansMiner.java:102-104 | after convergence the centroids are those of the pass before, every row sits in the cluster of its nearest centroid, and every centroid is a fixed point of recomputation |
| Miner.KMeansMiner.constructor | ClientServer_K-Means-main/KMeansServer/src/mining/KMeansMiner.java:25-27 | a fresh cluster set with room for `k` clusters and none stored |
| Miner.KMeansMiner.Create | ClientServer_K-Means-main/KMeansServer/src/mining/KMeansMiner.java:25-27 | a negative `k` is refused with `OutOfRangeSampleSize` |
| Miner.KMeansMiner.GetC | ClientServer_K-Means-main/KMeansServer/src/mining/KMeansMiner.java:70-72 | the miner's cluster set |
| Miner.KMeansMiner.Locate | ClientServer_K-Means-main/KMeansServer/src/mining/KMeansMiner.java:92-93 | the cluster of the row's nearest centroid and the first cluster holding the row; nothing changes |
| Miner.KMeansMiner.Shift | ClientServer_K-Means-main/KMeansServer/src/mining/KMeansMiner.java:94-99 | the clusters become `Moved`; the centroids stay; a change is reported exactly when the nearest cluster did not hold the row |
| Miner.KMeansMiner.MoveRow | ClientServer_K-Means-main/KMeansServer/src/mining/KMeansMiner.java:92-99 | the row moves to the cluster of its nearest centroid, as `Moved` says, and a change is reported exactly when that cluster did not hold it |
| Miner.KMeansMiner.Reassign | ClientServer_K-Means-main/KMeansServer/src/mining/KMeansMiner.java:90-100 | every row ends at its nearest centroid, with the centroids fixed; a change is reported exactly when the clusters were not already there, and no change means no row moved |
| Miner.KMeansMiner.Pass | ClientServer_K-Means-main/KMeansServer/src/mining/KMeansMiner.java:88-102 | the clusters become `Assign` over the old centroids and the centroids become `Step` of them; a change is reported exactly when the clusters differ from the old ones, and `allDefined` exactly when every prototype of the new clusters is defined |
| Miner.KMeansMiner.Round | ClientServer_K-Means-main/KMeansServer/src/mining/KMeansMiner.java:87-103 | from where the loop stands after n passes, the clusters and centroids in the heap are those of n + 1 passes of `Lloyd` from the sample, with the change and defined flags those of pass n + 1 |
| Miner.KMeansMiner.Iterate | ClientServer_K-Means-main/KMeansServer/src/mining/KMeansMiner.java:83-104 | the result is exactly `Run`'s outcome for the sample; on success after k passes the heap holds the clusters and centroids of k passes, pass k moved no row and every prototype is defined; the cluster objects and their rows stay the same |
| Miner.KMeansMiner.KMeans | ClientServer_K-Means-main/KMeansServer/src/mining/KMeansMiner.java:82-105 | a sampling error is returned as is; otherwise the result is exactly `Run`'s, so success, `NoConvergence` and `UndefinedPrototype` each happen exactly when `RunOk`, `RunNoConvergence` and `RunUndefined` say; success after r passes means the clusters and centroids are those of r passes of `Lloyd` from the sampled rows, pass r is the first that moved no row (so r >= 2), every row sits in the one cluster of its nearest final centroid, and every centroid is a fixed point of recomputation |

## Left out

- The JDBC constructor of `Data` and the database layer are not part of this model. A `Data` is built from rows and attributes that satisfy `WellFormedData`.
- Serialisation of the miner (the file-loading constructor and `salva`), the network server and the client are not part of this model.
- The `toString` renderings of `Data`, `Cluster`, `ClusterSet`, `Item`, `Attribute` and `Example` only format strings, so they are not modelled. The one exception is `Attribute.toString`, which returns the name.
- The random generator seeded from the clock is replaced by a sequence of draws supplied by the caller.
- `Dataset.Data.Sampling` fails with `DrawsExhausted` when the draws run out. The source's generator never runs out, so there it would keep drawing.
- Values and distances are `real`. IEEE rounding, NaN and infinities are not modelled.
- `Attributes.Attribute.GetScaledValue` requires `max > min`. The source divides by `max - min` without a guard, and a constant column would give NaN.
- `Dataset.Item.Update` keeps the old value and reports it when the mean of an empty cluster is asked for. The source stores NaN (0/0) there.
- `Miner.KMeansMiner.KMeans` stops with `UndefinedPrototype` when a pass leaves a cluster with no rows over a dataset with a continuous column. The source would go on with NaN centroids.
- `Dataset.Tuple.AvgDistance` returns None for an empty id set, where the source divides 0 by 0.
- `Miner.KMeansMiner.KMeans` takes a pass budget `maxPasses` and fails with `NoConvergence` when it is used up. The source loops until a pass moves no row, and convergence is not proved.
- `Miner.KMeansMiner.KMeans` requires an empty cluster set, so each miner runs it once. A second call in the source writes past the end of the array.
- Items, tuples and examples hold values of the kind their attribute fixes. A mismatch, which the source would meet as a `ClassCastException`, is excluded by preconditions (`Fits`, `Compatible`, `Comparable`).
- `Examples.Example.CompareTo` requires that the other row is not longer unless the rows differ earlier. Otherwise the source indexes past the end of this row.
- The iteration order of a discrete domain is the order of the `HashSet` that holds it. The model keeps it as a fixed sequence without repeats and does not assume it is lexicographic.
- Java `int` widths of counts and ids are unbounded integers here. They never exceed a collection's size.
- Several methods are source methods split into steps for the proof, not separate source operations: `Taken` and `Compare` inside `sampling`; `DistanceTo` and `DistanceToRow` inside the distance loops; `AddCentroid`, `ComputeCentroidAt`, `Locate`, `Shift`, `MoveRow`, `Reassign` and `Pass` inside `initializeCentroids`, `updateCentroids` and `kmeans`.
- `ClusterSets.ClusterSet.NearestCluster` changes nothing, but its contract states only that the centroids and their well-formedness are unchanged, not the clusters' rows. Its caller recovers the rows from the frame with the two-state lemma `AllKept`.
- `Examples.CompareStrings` compares characters as Unicode scalar values. Java's `compareTo` compares UTF-16 code units, so the two can disagree in sign when one string has a character at or above U+E000 and the other a character outside the Basic Multilingual Plane at the same position. The returned magnitude also differs whenever a character outside the Basic Multilingual Plane decides the result: Java counts it as two code units, so "a" against "a😀" gives -2 in Java and -1 here. `Examples.Example.CompareTo` and `Examples.Example.CompareToAsDocumented` inherit this through it.
- `Examples.Example.Get`, `Dataset.Tuple.Get` and `Clusters.Cluster.GetCentroid` are plain accessors with no contract of their own.

## Findings

| source | as written | input that shows it | evidently intended | confidence | as-written member | corrected member |
|---|---|---|---|---|---|---|
| ClientServer_K-Means-main/KMeansServer/src/database/Example.java:49 | at the first differing position it returns `ex[i].compareTo(this[i])`, the reverse of the documented sign | this = (1.0), ex = (2.0): this comes first, yet the result is 1 | negative when this row comes first: `this[i].compareTo(ex[i])` | high; not executed | Examples.CompareToSignReversed | Examples.Example.CompareToAsDocumented |

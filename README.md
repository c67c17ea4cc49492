# Bias-aware hierarchical clustering, modelled in Dafny

This project models the estimator `BiasAwareHierarchicalClustering` of the
unsupervised bias detection tool (Misztal-Radecka and Indurkhya, 2021,
"Bias-Aware Hierarchical Clustering for detecting the discriminated groups
of users in recommendation systems").

`fit` works as follows:

- It puts every point in cluster 0, and the whole dataset becomes the first entry of a min-heap.
- It then runs a bounded loop. Each pass pops the open cluster whose outcome `y` is most dispersed.
- The pass asks the subclass's `_split` to cut that cluster in two.
- The cut is accepted when both sides have at least `min_cluster_size` points and the better side's discrimination score is at least the parent's. A tie accepts.
  - The discrimination score is formula (1) of the paper: mean of `y` outside the group minus mean of `y` inside it, over the whole dataset.
- On acceptance, side 1 is relabelled in place to the next free label and both sides are pushed back.
- Otherwise the popped cluster is finished.
- At the end, the finished and the still-open clusters are ranked by decreasing score and renamed so that a cluster's rank is its label.
- The centroid of every cluster is computed.

`predict` sends every query row to the nearest centroid by squared Euclidean distance, taking the first centroid on ties.

Files:

- `wrappers.dfy`: `Option` and `Result`.
- `stats.dfy`: counts, sums and means over a selection mask, the discrimination score, and the variance. The variance is the heap key.
- `permutation.dfy`: permutations of `0 .. n-1`, stated with multisets.
- `heap.dfy`: heap entries `(key, label, score)`, their tuple order, and the position `heappop` takes.
- `ranking.dfy`: finalisation, namely sorting by descending score and the relabelling `mapping`.
- `centroids.dfy`: `calc_centroids`, and the nearest-centroid search of `predict`.
- `bahc.dfy`: the split step, the loop invariant, `fit`, `predict`, and the estimator class.

The estimator is a class. Its fields `nClusters`, `labels`, `scores` and `centroids` correspond to `n_clusters_`, `labels_`, `scores_` and `centroids_`.

Inside `fit`, the label array is an `array<nat>` that the split step relabels in place. The heap and the finished list are sequences that each pass reassigns.

The oracle `_split` is a constant function of the class. It maps the rows of a cluster to one side per row: `false` is side 0 and `true` is side 1.

Outcomes and features are `real`. The heap key is minus the variance rather than minus the standard deviation. The square root is monotone, so the pop order is the same.

Input errors are modelled as an error result. They are, in order:

- the shape checks of `_validate_data`: an empty dataset, ragged rows, rows without features, and `X` and `y` of different lengths;
- in `predict`, a call before `fit`, which in the source is the `AttributeError` on the missing `centroids_` (`_bahc.py` line 154);
- in `predict`, a query whose width differs from the fitted one, which in the source is a NumPy broadcasting error (`_bahc.py` line 163).

The loop of `fit` is also described as a run of states. A `LoopState` holds the labels, `n_clusters_`, the finished clusters with their scores, and the heap.

- `Start` is the state before the loop.
- `Next(a, k)` is the state after a pass pops entry `k` of `a`. It accepts the cut exactly when both sides have at least `min_cluster_size` points and the better score is at least the popped one.
- `PassStep(a, b)` holds when `b` is `Next(a, k)` for the least entry `k` of `a`'s heap, which is the entry `heappop` takes.
- `IsRun` is a sequence of states that starts at `Start` and takes one `PassStep` at a time.
- `Complete` holds when a run stops as the loop does: after `n_iter` passes, or earlier once the heap is empty.
- `fit` returns such a complete run. Its final labels group the points exactly as the run's last state does. Such a run is unique.

## Model

| member | source | states |
|---|---|---|
| Stats.DiscriminationScore | unsupervised_bias_detection/clustering/_bahc.py:96-101 | formula (1), mean of `y` outside the group minus mean inside, over the whole dataset, is positive exactly when the group's mean is below the whole dataset's mean and zero exactly when they are equal |
| Stats.ScoreAgainstWhole | unsupervised_bias_detection/clustering/_bahc.py:96-101 | the rest's mean exceeds the group's exactly when the whole dataset's mean does, and equals it exactly when that mean does |
| Stats.SumComplement | unsupervised_bias_detection/clustering/_bahc.py:96-101 | the outcome sums inside a group and outside it add up to the whole dataset's sum |
| Stats.ComplementScoresOpposite | unsupervised_bias_detection/clustering/_bahc.py:96-101 | a group and its complement have opposite discrimination scores (formula (1)), both well defined when both are nonempty |
| Stats.MeanWithin | unsupervised_bias_detection/clustering/_bahc.py:98 | the mean of `y` over a nonempty group lies between any lower and upper bound of the group's outcomes |
| Stats.Variance | unsupervised_bias_detection/clustering/_bahc.py:105-107 | the dispersion of a nonempty side (variance in place of `np.std`) is never negative, so every pushed key is at most 0 |
| Stats.ConstantGroupHasZeroVariance | unsupervised_bias_detection/clustering/_bahc.py:105-107 | a side with constant outcome has that outcome as mean and dispersion zero |
| Permutation.PermutationFacts | unsupervised_bias_detection/clustering/_bahc.py:123-124 | a permutation of `0 .. n-1` contains every label and repeats none, which makes `mapping[clusters] = arange(n)` well defined |
| Permutation.PermutationReordered | unsupervised_bias_detection/clustering/_bahc.py:120-121 | reordering a permutation of the labels, as `clusters[indices]` does, gives a permutation |
| Permutation.PermutationSplitLabel | unsupervised_bias_detection/clustering/_bahc.py:106-110 | replacing a label of a permutation of `0 .. n-1` by itself and the fresh label `n` gives a permutation of `0 .. n` |
| Permutation.PermutationExtend | unsupervised_bias_detection/clustering/_bahc.py:108-110 | adding the fresh label `n_clusters_` to the labels `0 .. n-1` gives the labels `0 .. n` |
| ClusterHeap.Remove | unsupervised_bias_detection/clustering/_bahc.py:85 | popping an entry leaves the other entries: one fewer, and the same multiset less the popped one |
| ClusterHeap.LabelsOfRemove | unsupervised_bias_detection/clustering/_bahc.py:85 | popping an entry removes exactly its label from the heap's labels |
| ClusterHeap.PopIndex | unsupervised_bias_detection/clustering/_bahc.py:85 | `heappop` takes the least entry in `(key, label, score)` order: the largest dispersion, then the smallest label, and the whole-dataset entry whenever it is present |
| ClusterHeap.PrecedesAntisymmetric | unsupervised_bias_detection/clustering/_bahc.py:85 | two entries that each come first in heap order are the same entry, so the least entry is one entry |
| Ranking.SortByScoreDescending | unsupervised_bias_detection/clustering/_bahc.py:120-122 | the finished clusters are reordered, as a permutation, into non-increasing score order |
| Ranking.RankMapping | unsupervised_bias_detection/clustering/_bahc.py:123-124 | `mapping` is the inverse of the ranking: `mapping[clusters[r]] == r` for every rank `r`, every entry is below `n`, and no entry repeats |
| Ranking.Finalise | unsupervised_bias_detection/clustering/_bahc.py:117-125 | the ranked clusters are a permutation of the finished ones with non-increasing scores and the highest score first; `labels_[i] == mapping[labels[i]] < n`; final label `r` means the `r`-th ranked cluster |
| Bahc.GroupCountIsSize | unsupervised_bias_detection/clustering/_bahc.py:43-46 | the row count that divides a centroid's sum is the number of points the cluster's mask selects |
| Centroids.UniqueLabels | unsupervised_bias_detection/clustering/_bahc.py:37-40 | `np.unique`: strictly increasing, and it holds exactly the labels in use |
| Centroids.UniqueOfFullRange | unsupervised_bias_detection/clustering/_bahc.py:37-40 | when the labels in use are exactly `0 .. n-1`, `np.unique` gives `0 .. n-1` |
| Centroids.GroupCountPositive | unsupervised_bias_detection/clustering/_bahc.py:43 | a label in use selects at least one row, so its mean is defined |
| Centroids.CalcCentroids | unsupervised_bias_detection/clustering/_bahc.py:23-48 | one column per distinct label; column `i` holds, feature by feature, the mean of the rows carrying the `i`-th smallest label |
| Centroids.CentroidWithinGroup | unsupervised_bias_detection/clustering/_bahc.py:46 | each coordinate of a centroid lies between the smallest and largest value of that feature in its cluster |
| Centroids.SquaredDistanceFacts | unsupervised_bias_detection/clustering/_bahc.py:163-166 | the squared distance is never negative, and it is zero exactly between equal rows |
| Centroids.ArgMin | unsupervised_bias_detection/clustering/_bahc.py:169 | `argmin` returns a position of a smallest value, and every earlier position holds a strictly larger value |
| Centroids.NearestCentroids | unsupervised_bias_detection/clustering/_bahc.py:153-169 | for each query row, the index of a centroid at minimal squared distance, and the first such index |
| Centroids.NearestOfCentroid | unsupervised_bias_detection/clustering/_bahc.py:160-169 | a query row equal to a centroid goes to the first centroid equal to it, which is not after that one |
| Centroids.NearestIsUnique | unsupervised_bias_detection/clustering/_bahc.py:169 | only one index is the first nearest centroid, so `predict` is deterministic: the same row always gets the same label |
| Bahc.Max | unsupervised_bias_detection/clustering/_bahc.py:102 | `max(score0, score1)` is one of the two scores and at least each of them |
| Bahc.IndicesOf | unsupervised_bias_detection/clustering/_bahc.py:86 | `np.nonzero(labels == label)[0]` is increasing, holds only points carrying the label, and holds all of them |
| Bahc.Gather | unsupervised_bias_detection/clustering/_bahc.py:87 | `X[cluster_indices]` has one row per index, and gathering every index in order gives the dataset itself |
| Bahc.Select | unsupervised_bias_detection/clustering/_bahc.py:89-90 | `cluster_indices[np.nonzero(cluster_labels == side)[0]]` holds exactly the cluster positions the oracle put on that side, and stays increasing, so no point is counted twice |
| Bahc.SelectCount | unsupervised_bias_detection/clustering/_bahc.py:89-92 | `len(indices1)` is the number of rows the oracle put on side 1, `len(indices0)` the number on side 0 |
| Bahc.IndicesOfEvery | unsupervised_bias_detection/clustering/_bahc.py:86 | while every label is 0, the popped cluster is the whole dataset, `0 .. N-1` in order |
| Bahc.SelectDisjoint | unsupervised_bias_detection/clustering/_bahc.py:89-90 | no point is on both sides |
| Bahc.SplitPartitionsCluster | unsupervised_bias_detection/clustering/_bahc.py:86-90 | whatever the oracle answers, `indices0` and `indices1` are disjoint and together are the points carrying the popped label |
| Bahc.Relabel | unsupervised_bias_detection/clustering/_bahc.py:109 | `labels[indices1] = n_clusters_`: only positions in `indices1` change, every one of them takes the new label, and the length is kept |
| Bahc.RelabelSide | unsupervised_bias_detection/clustering/_bahc.py:109 | `labels[indices1] = n_clusters_` in place: side 1 takes the new label and every other point keeps its label |
| Bahc.RelabelMasks | unsupervised_bias_detection/clustering/_bahc.py:109 | after relabelling, the popped label names exactly side 0, the new label names exactly side 1, and every other cluster keeps its points |
| Bahc.WholeDatasetSplitNeverWorse | unsupervised_bias_detection/clustering/_bahc.py:96-102 | when the two sides are complements in the whole dataset, the better of their scores is at least 0 |
| Bahc.TwoClustersOpposite | unsupervised_bias_detection/clustering/_bahc.py:96-101 | with two final clusters their scores are opposite and the higher one, ranked first, is at least 0 |
| Bahc.Pushed | unsupervised_bias_detection/clustering/_bahc.py:105-108 | a pushed entry `(-std, label, score)` carries its label and a dispersion key at most 0, comes after the whole-dataset entry in heap order, and its score is positive exactly when its side's mean is below the whole dataset's |
| Bahc.UnrankedAlone | unsupervised_bias_detection/clustering/_bahc.py:79-108 | the whole-dataset entry `(None, 0, 0)` is only ever on the heap alone, with one cluster and nothing finished, so `heappop` never compares `None` with a number |
| Bahc.InitialInvariant | unsupervised_bias_detection/clustering/_bahc.py:71-79 | all labels 0, no finished cluster and the single entry `(None, 0, 0)` satisfy the loop invariant with one cluster |
| Bahc.RejectKeepsInvariant | unsupervised_bias_detection/clustering/_bahc.py:111-116 | finishing the popped cluster with unchanged labels keeps the loop invariant: labels below `n`, finished and open labels a permutation of `0 .. n-1`, and every score and key those of its cluster's points |
| Bahc.OpenLabelsDistinct | unsupervised_bias_detection/clustering/_bahc.py:79-116 | under the loop invariant, no label is on the heap twice: two entries with the same label are at the same position |
| Bahc.LeastUnique | unsupervised_bias_detection/clustering/_bahc.py:85 | under the loop invariant only one position holds the least entry, so `heappop` has one choice |
| Bahc.AcceptLabels | unsupervised_bias_detection/clustering/_bahc.py:106-110 | pushing the popped label and the fresh label in place of the popped entry turns the permutation of `0 .. n-1` into one of `0 .. n` |
| Bahc.AcceptOthers | unsupervised_bias_detection/clustering/_bahc.py:109-110 | relabelling side 1 leaves the score of every finished and every other open cluster that of its (unchanged) points |
| Bahc.AcceptPushed | unsupervised_bias_detection/clustering/_bahc.py:105-110 | the two pushed entries carry the dispersion and discrimination score of the points that their labels name after relabelling |
| Bahc.AcceptKeepsInvariant | unsupervised_bias_detection/clustering/_bahc.py:104-110 | an accepted split keeps the loop invariant with one more cluster; the two pushed entries carry their sides' dispersion and score |
| Bahc.AllEntries | unsupervised_bias_detection/clustering/_bahc.py:117-118 | the finished clusters followed by the open ones carry each label `0 .. n-1` once, each with its cluster's score |
| Bahc.FinalClusters | unsupervised_bias_detection/clustering/_bahc.py:117-125 | after ranking, every final label is in use; final label `r` has the `r`-th ranked score, which is its discrimination score once a split was accepted; with one cluster the ranking is `[(0, 0)]` |
| Bahc.CheckFitInput | unsupervised_bias_detection/clustering/_bahc.py:66-68 | training data is accepted exactly when it is a nonempty rectangular table with at least one feature and one outcome per row |
| Bahc.CheckQuery | unsupervised_bias_detection/clustering/_bahc.py:149-151 | a query is accepted exactly when it is a nonempty rectangular table with at least one feature |
| Bahc.RankClusters | unsupervised_bias_detection/clustering/_bahc.py:117-125 | the final labels are below `n` and all in use, the final scores are non-increasing, and each is its cluster's discrimination score (or `[0]` when one cluster remains); two points share a final label exactly when they shared a label in the loop, as `mapping[labels]` with an injective `mapping` gives |
| Bahc.Conclude | unsupervised_bias_detection/clustering/_bahc.py:117-129 | as `RankClusters`, including the same grouping of points, and centroid `r` is the mean of the rows with final label `r` |
| Bahc.BiasAwareHierarchicalClustering.constructor | unsupervised_bias_detection/clustering/_bahc.py:19-21 | stores `n_iter`, `min_cluster_size` and the oracle; the estimator starts unfitted |
| Bahc.BiasAwareHierarchicalClustering.Sides | unsupervised_bias_detection/clustering/_bahc.py:86-90 | the two sides of the popped cluster are within the dataset, disjoint and together the cluster; when both are nonempty, each is a proper part of the dataset, so formula (1) is defined |
| Bahc.BiasAwareHierarchicalClustering.Bisect | unsupervised_bias_detection/clustering/_bahc.py:86-116 | the split is accepted exactly when both sides have at least `min_cluster_size` points and `max(score0, score1) >= score` (a tie accepts); then side 1 takes the new label and both sides are pushed with their dispersion and score; otherwise the labels are unchanged and nothing is pushed |
| Bahc.BiasAwareHierarchicalClustering.Iterate | unsupervised_bias_detection/clustering/_bahc.py:85-116 | one pass keeps the loop invariant and adds a cluster exactly when both sides have at least `min_cluster_size` points and `max(score0, score1) >= score` (a tie accepts). Then side 1 takes the label `n_clusters_`, the popped entry is replaced by the two sides' entries, and the finished list is unchanged. Otherwise the popped `(label, score)` is appended to the finished list, the labels are unchanged and only the popped entry leaves the heap |
| Bahc.BiasAwareHierarchicalClustering.StepKeepsInvariant | unsupervised_bias_detection/clustering/_bahc.py:91-116 | both outcomes of the acceptance test keep the loop invariant |
| Bahc.BiasAwareHierarchicalClustering.OutcomeIsNext | unsupervised_bias_detection/clustering/_bahc.py:85-116 | the pass outcome as `Iterate` reports it, branch by branch, is the state `Next` gives for the popped entry |
| Bahc.BiasAwareHierarchicalClustering.RunExtend | unsupervised_bias_detection/clustering/_bahc.py:80-116 | appending `Next` of the last state at its least entry to a run gives a run |
| Bahc.BiasAwareHierarchicalClustering.NextKeepsInvariant | unsupervised_bias_detection/clustering/_bahc.py:85-116 | `Next` at any entry of the heap keeps the loop invariant, whether the cut is accepted or refused |
| Bahc.BiasAwareHierarchicalClustering.PassStepKeepsInvariant | unsupervised_bias_detection/clustering/_bahc.py:80-116 | a pass keeps the loop invariant |
| Bahc.BiasAwareHierarchicalClustering.PassStepFunctional | unsupervised_bias_detection/clustering/_bahc.py:80-116 | from a state that keeps the invariant, a pass has one outcome: `heappop`'s choice and the cut are determined |
| Bahc.BiasAwareHierarchicalClustering.RunPrefixAgree | unsupervised_bias_detection/clustering/_bahc.py:69-116 | two runs on the same data agree state by state as far as both go, and every state of a run keeps the loop invariant |
| Bahc.BiasAwareHierarchicalClustering.RunNotLonger | unsupervised_bias_detection/clustering/_bahc.py:80-83 | a run that makes no more than `n_iter` passes is no longer than a complete run, because a complete run stops only at `n_iter` passes or on an empty heap, and no pass starts from an empty heap |
| Bahc.BiasAwareHierarchicalClustering.RunDeterministic | unsupervised_bias_detection/clustering/_bahc.py:69-116 | a complete run of the loop is unique: `fit`'s loop state is a function of the data, `n_iter`, `min_cluster_size` and the oracle |
| Bahc.BiasAwareHierarchicalClustering.Pass | unsupervised_bias_detection/clustering/_bahc.py:80-116 | one pass pops the least entry in `(key, label, score)` order (the most dispersed open cluster) and extends the run by one `PassStep` from the old state; the invariant, the counts and "two clusters or more exactly when the first cut fits" are kept |
| Bahc.BiasAwareHierarchicalClustering.PassIsNext | unsupervised_bias_detection/clustering/_bahc.py:85-116 | what `Pass` ensures fixes its new state: `Next` of the old state at the popped entry. So a cut is accepted exactly when both sides have at least `min_cluster_size` points and `max(score0, score1) >= score` (a tie accepts); otherwise the popped `(label, score)` is finished |
| Bahc.BiasAwareHierarchicalClustering.InitialProgress | unsupervised_bias_detection/clustering/_bahc.py:69-79 | before the first pass the run is the start state alone, which keeps the invariant |
| Bahc.BiasAwareHierarchicalClustering.LoopEnd | unsupervised_bias_detection/clustering/_bahc.py:80-83 | when the loop stops, after `n_iter` passes or on an empty heap, its run is complete, and the invariant and the counts of `Grow` hold of the last state |
| Bahc.BiasAwareHierarchicalClustering.RunPasses | unsupervised_bias_detection/clustering/_bahc.py:80-116 | the loop leaves the last state of a run, stopped after `n_iter` passes or on an empty heap |
| Bahc.BiasAwareHierarchicalClustering.FirstSidesSizes | unsupervised_bias_detection/clustering/_bahc.py:86-92 | on the first pass the two sides have as many points as the oracle put on each side of the whole dataset |
| Bahc.BiasAwareHierarchicalClustering.FirstSplitNeverWorse | unsupervised_bias_detection/clustering/_bahc.py:96-102 | the sides of the first split are complements, so the better score is at least the initial score 0: only the size test can refuse the first split |
| Bahc.BiasAwareHierarchicalClustering.FirstPassDecides | unsupervised_bias_detection/clustering/_bahc.py:79-116 | after the first pass there are two clusters exactly when the oracle's cut of the whole dataset gives both sides `min_cluster_size` points; otherwise the heap is empty |
| Bahc.BiasAwareHierarchicalClustering.PassKeepsGrowth | unsupervised_bias_detection/clustering/_bahc.py:84-116 | every later pass keeps that link: the cluster count never falls back to one, and with one cluster after the first pass the heap stays empty |
| Bahc.BiasAwareHierarchicalClustering.Grow | unsupervised_bias_detection/clustering/_bahc.py:69-116 | the loop's outputs are the last state of a complete run (`IsRun`, `Complete`), and they keep the invariant with `1 <= n_clusters_ <= n_iter + 1`. Accepted splits (`n_clusters_ - 1`) plus refused ones (`len(clusters)`) are at most `n_iter`, and they are exactly `n_iter` unless the heap ran empty. Finished plus open clusters are `n_clusters_`. With `n_iter = 0` the whole dataset is the only, still open, entry. With `n_iter >= 1` there are two clusters or more exactly when the first cut of the whole dataset gives both sides `min_cluster_size` points |
| Bahc.BiasAwareHierarchicalClustering.RunExplainsLabels | unsupervised_bias_detection/clustering/_bahc.py:117-125 | renaming the clusters of the run's last state, as the ranking does, keeps the grouping of points the run produced |
| Bahc.BiasAwareHierarchicalClustering.Fit | unsupervised_bias_detection/clustering/_bahc.py:50-131 | refused input changes nothing. Otherwise: `1 <= n_clusters_ <= n_iter + 1` (1 when `n_iter = 0`); `labels_` takes exactly the values `0 .. n_clusters_-1`; `scores_` is non-increasing and `scores_[r]` is the discrimination score of cluster `r` (`[0]` with all labels 0 for one cluster); each centroid is the mean of its cluster's rows; with `n_iter >= 1` there are two clusters or more exactly when the first cut fits the size test; with two clusters the scores are opposite and the first is at least 0; the refused and the still-open clusters add up to `n_clusters_`, accepted plus refused splits are at most `n_iter`, and exactly `n_iter` unless no open cluster remains; `labels_` groups the points exactly as the last state of a complete run of the loop does, and that run is unique (`RunDeterministic`) |
| Bahc.BiasAwareHierarchicalClustering.PredictError | unsupervised_bias_detection/clustering/_bahc.py:149-154 | a query is answered exactly when it is a nonempty rectangular table, the estimator is fitted and the widths match; shape errors come before "not fitted" (the missing `centroids_`), which comes before a width mismatch |
| Bahc.BiasAwareHierarchicalClustering.Predict | unsupervised_bias_detection/clustering/_bahc.py:133-172 | refused or unfitted input gives its error; otherwise each row gets a label below `n_clusters_`, that of a nearest centroid and the first such; the fitted state is not changed |

## Left out

- The concrete `_split` (a KMeans subclass) is not part of this model. The oracle is any function that returns one side per row; its state and randomness are not modelled.
- `paper_analysis/run_experiment.py` is not part of this model. It is an experiment harness: random data, model training, statistical tests, parallel runs and CSV output.
- Floating point: outcomes and features are reals. There is no rounding, NaN or infinity.
- The square root of `np.std` is not modelled. The key is minus the variance, which gives the same pop order.
- sklearn's `_validate_data` is modelled only as the shape checks listed above. Type conversion, sparse input and the other checks are left out.
- A query whose width differs from the fitted one is an error here. In the source it is a NumPy broadcasting error, except that a width of 1 on either side broadcasts silently.
- Bahc.BiasAwareHierarchicalClustering.constructor: requires `min_cluster_size >= 1` and an oracle that answers one side per row. The source checks neither; with 0, an empty side gives a NaN mean, which the real-number model cannot express.
- Bahc.BiasAwareHierarchicalClustering.constructor: `n_iter` is a natural number. A negative `n_iter` behaves like 0 in the source (`range` is empty) and is not modelled.
- The unsigned 32-bit label arrays are modelled as unbounded naturals. Labels stay at most `n_iter`, so wrap-around needs more than 2^32 iterations and is not modelled.
- Ranking.SortByScoreDescending: promises only a permutation in non-increasing score order. The order of equal scores from `np.argsort`'s quicksort is not modelled.
- ClusterHeap.PopIndex: models which entry `heappop` returns, not the heap's list layout.
- Centroids.CalcCentroids: the centroid table is kept as its columns, one row of features per cluster, rather than as a `(features, clusters)` array.

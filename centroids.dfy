/**
 * The centroid table computed after a fit and the nearest-centroid
 * prediction that uses it. A data set is a sequence of rows of features;
 * the centroid table is kept as its columns, one feature vector per
 * distinct label, in increasing label order.
 */
module Centroids {

  import opened Permutation
  import Stats

  type Row = seq<real>

  /** Every row has `d` features. */
  predicate Rectangular(X: seq<Row>, d: nat)
  {
    forall i :: 0 <= i < |X| ==> |X[i]| == d
  }

  /** Number of points carrying label `c`. */
  function GroupCount(labels: seq<nat>, c: nat): (r: nat)
    ensures r <= |labels|
  {
    if labels == [] then 0
    else GroupCount(labels[..|labels| - 1], c) + (if labels[|labels| - 1] == c then 1 else 0)
  }

  /** Sum of feature `f` over the rows carrying label `c`. */
  function FeatureSum(X: seq<Row>, labels: seq<nat>, c: nat, f: nat): real
    requires |X| == |labels| && forall i :: 0 <= i < |X| ==> f < |X[i]|
  {
    if X == [] then 0.0
    else
      FeatureSum(X[..|X| - 1], labels[..|labels| - 1], c, f)
      + (if labels[|labels| - 1] == c then X[|X| - 1][f] else 0.0)
  }

  /** Mean of feature `f` over the rows carrying label `c` (the label must be in use). */
  function GroupMean(X: seq<Row>, labels: seq<nat>, c: nat, f: nat): real
    requires |X| == |labels| && forall i :: 0 <= i < |X| ==> f < |X[i]|
    requires GroupCount(labels, c) > 0
  {
    FeatureSum(X, labels, c, f) / GroupCount(labels, c) as real
  }

  /** A label in use is carried by at least one point. */
  lemma {:induction false} GroupCountPositive(labels: seq<nat>, c: nat)
    requires c in labels
    ensures GroupCount(labels, c) > 0
  {
    var last := labels[|labels| - 1];
    if last != c {
      assert labels == labels[..|labels| - 1] + [last];
      GroupCountPositive(labels[..|labels| - 1], c);
    }
  }

  predicate StrictlyIncreasing(s: seq<nat>)
  {
    forall i, j :: 0 <= i < j < |s| ==> s[i] < s[j]
  }

  /** The labels below `k` that occur in `labels`, in increasing order. */
  function LabelsBelow(labels: seq<nat>, k: nat): (u: seq<nat>)
    ensures StrictlyIncreasing(u)
    ensures forall v :: v in u <==> v < k && v in labels
    ensures forall i :: 0 <= i < |u| ==> u[i] < k
  {
    if k == 0 then [] else LabelsBelow(labels, k - 1) + (if k - 1 in labels then [k - 1] else [])
  }

  /** One more than the largest label (zero for no labels). */
  function LabelBound(labels: seq<nat>): (b: nat)
    ensures forall i :: 0 <= i < |labels| ==> labels[i] < b
  {
    if labels == [] then 0
    else
      var b := LabelBound(labels[1..]);
      if labels[0] < b then b else labels[0] + 1
  }

  /** `np.unique(labels)`: the distinct labels in increasing order. */
  function UniqueLabels(labels: seq<nat>): (u: seq<nat>)
    ensures StrictlyIncreasing(u)
    ensures forall v :: v in u <==> v in labels
  {
    LabelsBelow(labels, LabelBound(labels))
  }

  /** The distinct labels of a labelling that uses exactly `0 .. n-1` are `0 .. n-1`. */
  lemma {:induction false} UniqueOfFullRange(labels: seq<nat>, n: nat)
    requires forall i :: 0 <= i < |labels| ==> labels[i] < n
    requires forall c :: 0 <= c < n ==> c in labels
    ensures UniqueLabels(labels) == Range(n)
  {
    var u := UniqueLabels(labels);
    forall k | 0 <= k <= n
      ensures LabelsBelow(labels, k) == Range(k)
    {
      LabelsBelowFull(labels, n, k);
    }
    var b := LabelBound(labels);
    if b > n {
      LabelsBelowStable(labels, n, b);
    } else if b < n {
      LabelsBelowStable(labels, b, n);
    }
  }

  lemma {:induction false} LabelsBelowFull(labels: seq<nat>, n: nat, k: nat)
    requires forall c :: 0 <= c < n ==> c in labels
    requires k <= n
    ensures LabelsBelow(labels, k) == Range(k)
  {
    if k > 0 {
      LabelsBelowFull(labels, n, k - 1);
      assert Range(k) == Range(k - 1) + [k - 1];
    }
  }

  /** Raising the bound past every label changes nothing. */
  lemma {:induction false} LabelsBelowStable(labels: seq<nat>, lo: nat, hi: nat)
    requires lo <= hi
    requires forall i :: 0 <= i < |labels| ==> labels[i] < lo
    ensures LabelsBelow(labels, hi) == LabelsBelow(labels, lo)
  {
    if hi > lo {
      LabelsBelowStable(labels, lo, hi - 1);
      assert hi - 1 !in labels;
    }
  }

  /**
   * `calc_centroids`: column `i` of the table is the per-feature mean of the
   * rows carrying the `i`-th smallest label.
   */
  method CalcCentroids(X: seq<Row>, labels: seq<nat>, d: nat) returns (cols: seq<Row>)
    requires |X| == |labels| && Rectangular(X, d)
    ensures |cols| == |UniqueLabels(labels)|
    ensures forall i :: 0 <= i < |cols| ==> |cols[i]| == d
    ensures forall i :: 0 <= i < |cols| ==> GroupCount(labels, UniqueLabels(labels)[i]) > 0
    ensures forall i, f :: 0 <= i < |cols| && 0 <= f < d ==>
      cols[i][f] == GroupMean(X, labels, UniqueLabels(labels)[i], f)
  {
    var u := UniqueLabels(labels);
    cols := [];
    for i := 0 to |u|
      invariant |cols| == i
      invariant forall q :: 0 <= q < i ==> |cols[q]| == d && GroupCount(labels, u[q]) > 0
      invariant forall q, f :: 0 <= q < i && 0 <= f < d ==> cols[q][f] == GroupMean(X, labels, u[q], f)
    {
      var c := u[i];
      var count: nat := 0;
      var sums: seq<real> := seq(d, _ => 0.0);
      for r := 0 to |X|
        invariant |sums| == d
        invariant count == GroupCount(labels[..r], c)
        invariant forall f :: 0 <= f < d ==> sums[f] == FeatureSum(X[..r], labels[..r], c, f)
      {
        assert X[..r + 1][..r] == X[..r] && labels[..r + 1][..r] == labels[..r];
        if labels[r] == c {
          count := count + 1;
          sums := seq(d, f requires 0 <= f < d => sums[f] + X[r][f]);
        }
      }
      assert X[..|X|] == X && labels[..|labels|] == labels;
      GroupCountPositive(labels, c);
      cols := cols + [seq(d, f requires 0 <= f < d => sums[f] / count as real)];
    }
  }

  /** Summed feature values between `lo` and `hi` give a sum between `count*lo` and `count*hi`. */
  lemma {:induction false} FeatureSumWithin(X: seq<Row>, labels: seq<nat>, c: nat, f: nat, lo: real, hi: real)
    requires |X| == |labels| && forall i :: 0 <= i < |X| ==> f < |X[i]|
    requires forall i :: 0 <= i < |X| && labels[i] == c ==> lo <= X[i][f] <= hi
    ensures Stats.Times(GroupCount(labels, c), lo) <= FeatureSum(X, labels, c, f) <= Stats.Times(GroupCount(labels, c), hi)
  {
    if X != [] {
      var m := |X| - 1;
      assert forall i :: 0 <= i < m ==> X[..m][i] == X[i] && labels[..m][i] == labels[i];
      FeatureSumWithin(X[..m], labels[..m], c, f, lo, hi);
    }
  }

  /** A centroid lies inside the bounding box of its cluster, feature by feature. */
  lemma CentroidWithinGroup(X: seq<Row>, labels: seq<nat>, c: nat, f: nat, lo: real, hi: real)
    requires |X| == |labels| && forall i :: 0 <= i < |X| ==> f < |X[i]|
    requires GroupCount(labels, c) > 0
    requires forall i :: 0 <= i < |X| && labels[i] == c ==> lo <= X[i][f] <= hi
    ensures lo <= GroupMean(X, labels, c, f) <= hi
  {
    FeatureSumWithin(X, labels, c, f, lo, hi);
    Stats.QuotientWithin(FeatureSum(X, labels, c, f), GroupCount(labels, c), lo, hi);
  }

  /** Squared Euclidean distance between a row and a centroid. */
  function SquaredDistance(x: Row, c: Row): real
    requires |x| == |c|
  {
    if x == [] then 0.0 else (x[0] - c[0]) * (x[0] - c[0]) + SquaredDistance(x[1..], c[1..])
  }

  /** The distance is never negative, and it is zero exactly between equal rows. */
  lemma {:induction false} SquaredDistanceFacts(x: Row, c: Row)
    requires |x| == |c|
    ensures SquaredDistance(x, c) >= 0.0
    ensures SquaredDistance(x, c) == 0.0 <==> x == c
  {
    if x != [] {
      SquaredDistanceFacts(x[1..], c[1..]);
      Stats.SquareNonNegative(x[0] - c[0]);
      if SquaredDistance(x, c) == 0.0 {
        Stats.ProductZero(x[0] - c[0], x[0] - c[0]);
        assert x == [x[0]] + x[1..] && c == [c[0]] + c[1..];
      }
    }
  }

  /** `argmin`: the first position of a smallest value. */
  method ArgMin(ds: seq<real>) returns (k: nat)
    requires |ds| > 0
    ensures k < |ds|
    ensures forall j :: 0 <= j < |ds| ==> ds[k] <= ds[j]
    ensures forall j :: 0 <= j < k ==> ds[j] > ds[k]
  {
    k := 0;
    for i := 1 to |ds|
      invariant k < i
      invariant forall j :: 0 <= j < i ==> ds[k] <= ds[j]
      invariant forall j :: 0 <= j < k ==> ds[j] > ds[k]
    {
      if ds[i] < ds[k] {
        k := i;
      }
    }
  }

  /** The row-wise argmin is the index of a nearest centroid. */
  predicate IsNearest(x: Row, cols: seq<Row>, k: nat)
    requires forall j :: 0 <= j < |cols| ==> |cols[j]| == |x|
  {
    && k < |cols|
    && (forall j :: 0 <= j < |cols| ==> SquaredDistance(x, cols[k]) <= SquaredDistance(x, cols[j]))
    && (forall j :: 0 <= j < k ==> SquaredDistance(x, cols[j]) > SquaredDistance(x, cols[k]))
  }

  /**
   * `predict` on a validated query: the distance table is filled one
   * centroid column at a time, then every row takes the first index of
   * its nearest centroid.
   */
  method NearestCentroids(Xq: seq<Row>, cols: seq<Row>, d: nat) returns (labels: seq<nat>)
    requires |cols| > 0 && Rectangular(cols, d) && Rectangular(Xq, d)
    ensures |labels| == |Xq|
    ensures forall i :: 0 <= i < |Xq| ==> IsNearest(Xq[i], cols, labels[i])
  {
    var distances: seq<seq<real>> := [];
    for k := 0 to |cols|
      invariant |distances| == k
      invariant forall q :: 0 <= q < k ==> |distances[q]| == |Xq|
      invariant forall q, i :: 0 <= q < k && 0 <= i < |Xq| ==> distances[q][i] == SquaredDistance(Xq[i], cols[q])
    {
      distances := distances + [seq(|Xq|, i requires 0 <= i < |Xq| => SquaredDistance(Xq[i], cols[k]))];
    }
    labels := [];
    for i := 0 to |Xq|
      invariant |labels| == i
      invariant forall p :: 0 <= p < i ==> IsNearest(Xq[p], cols, labels[p])
    {
      var row := seq(|cols|, q requires 0 <= q < |cols| => distances[q][i]);
      assert forall q :: 0 <= q < |cols| ==> row[q] == SquaredDistance(Xq[i], cols[q]);
      var k := ArgMin(row);
      assert IsNearest(Xq[i], cols, k);
      labels := labels + [k];
    }
  }

  /** Only one index is the first nearest centroid, so `predict` gives the same labels for the same rows. */
  lemma NearestIsUnique(x: Row, cols: seq<Row>, k1: nat, k2: nat)
    requires forall q :: 0 <= q < |cols| ==> |cols[q]| == |x|
    requires IsNearest(x, cols, k1) && IsNearest(x, cols, k2)
    ensures k1 == k2
  {
    assert SquaredDistance(x, cols[k1]) == SquaredDistance(x, cols[k2]);
  }

  /**
   * A query row that coincides with a centroid is assigned the first
   * centroid equal to it, which is never after that centroid.
   */
  lemma NearestOfCentroid(x: Row, cols: seq<Row>, k: nat, j: nat)
    requires forall q :: 0 <= q < |cols| ==> |cols[q]| == |x|
    requires IsNearest(x, cols, k)
    requires j < |cols| && cols[j] == x
    ensures cols[k] == x && k <= j
    ensures forall q :: 0 <= q < k ==> cols[q] != x
  {
    SquaredDistanceFacts(x, cols[j]);
    SquaredDistanceFacts(x, cols[k]);
  }
}

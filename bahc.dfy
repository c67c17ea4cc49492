/**
 * Bias-aware hierarchical clustering (Misztal-Radecka and Indurkhya, 2021).
 *
 * `fit` starts with every point in cluster 0 and repeatedly takes the open
 * cluster whose outcome is most dispersed, asks a splitting oracle to cut
 * it in two, and keeps the cut when both sides are large enough and one of
 * them discriminates at least as much as the parent. Clusters that are not
 * cut, and those still open when the iterations run out, are ranked by
 * decreasing discrimination score and renamed so that rank is label.
 * `predict` sends a new point to its nearest centroid.
 */
module Bahc {

  import opened Wrappers
  import opened Stats
  import opened Permutation
  import opened ClusterHeap
  import opened Ranking
  import opened Centroids

  /** Inputs the estimator refuses. */
  datatype InputError =
    | EmptyDataset        // no rows
    | RaggedRows          // rows of different lengths
    | NoFeatures          // rows without features
    | LengthMismatch      // `X` and `y` have different numbers of rows
    | NotFitted           // `predict` before `fit`
    | DimensionMismatch   // query rows do not have the fitted number of features

  /** The larger of two scores. */
  function Max(a: real, b: real): (r: real)
    ensures r >= a && r >= b && (r == a || r == b)
  {
    if a >= b then a else b
  }

  /** The points carrying label `c`, as a selection over the dataset. */
  function MemberMask(l: seq<nat>, c: nat): (m: seq<bool>)
    ensures |m| == |l|
    ensures forall i :: 0 <= i < |l| ==> (m[i] <==> l[i] == c)
  {
    seq(|l|, i requires 0 <= i < |l| => l[i] == c)
  }

  /** The size of cluster `c` used by the centroids is the number of points its mask selects. */
  lemma {:induction false} GroupCountIsSize(l: seq<nat>, c: nat)
    ensures GroupCount(l, c) == CountTrue(MemberMask(l, c))
  {
    if l != [] {
      var n := |l| - 1;
      GroupCountIsSize(l[..n], c);
      assert MemberMask(l, c) == MemberMask(l[..n], c) + [l[n] == c];
      CountAppend(MemberMask(l[..n], c), l[n] == c);
    }
  }

  /** `np.nonzero(labels == c)[0]`: the positions carrying label `c`, in increasing order. */
  function IndicesOf(l: seq<nat>, c: nat): (r: seq<nat>)
    ensures StrictlyIncreasing(r)
    ensures forall j :: 0 <= j < |r| ==> r[j] < |l| && l[r[j]] == c
    ensures forall i :: 0 <= i < |l| && l[i] == c ==> i in r
  {
    if l == [] then []
    else
      var n := |l| - 1;
      var front := IndicesOf(l[..n], c);
      assert forall i :: 0 <= i < n ==> l[..n][i] == l[i];
      front + (if l[n] == c then [n] else [])
  }

  /** The rows at the given positions, in that order. */
  function Gather(X: seq<Row>, idx: seq<nat>): (rows: seq<Row>)
    requires forall j :: 0 <= j < |idx| ==> idx[j] < |X|
    ensures |rows| == |idx|
    ensures idx == Range(|X|) ==> rows == X
  {
    seq(|idx|, j requires 0 <= j < |idx| => X[idx[j]])
  }

  /** `idx[np.nonzero(sub == side)[0]]`: the entries of `idx` that the split put on `side`. */
  function Select(idx: seq<nat>, sub: seq<bool>, side: bool): (r: seq<nat>)
    requires |sub| == |idx|
    ensures forall v :: v in r <==> exists j :: 0 <= j < |idx| && idx[j] == v && sub[j] == side
    ensures StrictlyIncreasing(idx) ==> StrictlyIncreasing(r)
  {
    if idx == [] then []
    else
      var n := |idx| - 1;
      var front := Select(idx[..n], sub[..n], side);
      assert forall j :: 0 <= j < n ==> idx[..n][j] == idx[j] && sub[..n][j] == sub[j];
      assert StrictlyIncreasing(idx) ==> forall q :: 0 <= q < |front| ==> front[q] < idx[n] by {
        if StrictlyIncreasing(idx) {
          forall q | 0 <= q < |front|
            ensures front[q] < idx[n]
          {
            assert front[q] in front;
          }
        }
      }
      front + (if sub[n] == side then [idx[n]] else [])
  }

  /** `len(indices1)` is the number of rows the split put on side 1, `len(indices0)` the number on side 0. */
  lemma {:induction false} SelectCount(idx: seq<nat>, sub: seq<bool>)
    requires |sub| == |idx|
    ensures |Select(idx, sub, true)| == CountTrue(sub)
    ensures |Select(idx, sub, false)| == CountTrue(Not(sub))
  {
    if idx != [] {
      var n := |idx| - 1;
      SelectCount(idx[..n], sub[..n]);
      assert sub == sub[..n] + [sub[n]];
      assert Not(sub) == Not(sub[..n]) + [!sub[n]];
      CountAppend(sub[..n], sub[n]);
      CountAppend(Not(sub[..n]), !sub[n]);
    }
  }

  /** When every point carries label `c`, the cluster is the whole dataset, in order. */
  lemma {:induction false} IndicesOfEvery(l: seq<nat>, c: nat)
    requires forall i :: 0 <= i < |l| ==> l[i] == c
    ensures IndicesOf(l, c) == Range(|l|)
  {
    if l != [] {
      var n := |l| - 1;
      IndicesOfEvery(l[..n], c);
      assert Range(n + 1) == Range(n) + [n];
    }
  }

  /** No position of a cluster ends up on both sides of its split. */
  lemma SelectDisjoint(idx: seq<nat>, sub: seq<bool>)
    requires |sub| == |idx| && StrictlyIncreasing(idx)
    ensures forall v :: !(v in Select(idx, sub, false) && v in Select(idx, sub, true))
  {
    forall v | v in Select(idx, sub, false)
      ensures v !in Select(idx, sub, true)
    {
      var j0 :| 0 <= j0 < |idx| && idx[j0] == v && !sub[j0];
      forall j1 | 0 <= j1 < |idx| && idx[j1] == v
        ensures !sub[j1]
      {
        assert !(j0 < j1) && !(j1 < j0);
      }
    }
  }

  /**
   * In `fit`, whatever `_split` answers, `indices0` and `indices1` are
   * disjoint and together they are the points carrying label `c`.
   */
  lemma SplitPartitionsCluster(l: seq<nat>, c: nat, sub: seq<bool>)
    requires |sub| == |IndicesOf(l, c)|
    ensures var ci := IndicesOf(l, c);
      && (forall i :: 0 <= i < |l| ==> (l[i] == c <==> i in Select(ci, sub, false) || i in Select(ci, sub, true)))
      && (forall v :: !(v in Select(ci, sub, false) && v in Select(ci, sub, true)))
  {
    var ci := IndicesOf(l, c);
    SelectDisjoint(ci, sub);
    forall v | v in Select(ci, sub, false) || v in Select(ci, sub, true)
      ensures v < |l| && l[v] == c
    {
      var j :| 0 <= j < |ci| && ci[j] == v;
    }
    forall i | 0 <= i < |l| && l[i] == c
      ensures i in Select(ci, sub, false) || i in Select(ci, sub, true)
    {
      var j :| 0 <= j < |ci| && ci[j] == i;
      assert sub[j] ==> i in Select(ci, sub, true);
    }
  }

  /** Every position a side holds is a point of the dataset. */
  lemma SideWithinDataset(l: seq<nat>, c: nat, sub: seq<bool>, side: bool)
    requires |sub| == |IndicesOf(l, c)|
    ensures forall j :: 0 <= j < |Select(IndicesOf(l, c), sub, side)| ==> Select(IndicesOf(l, c), sub, side)[j] < |l|
  {
    var ci := IndicesOf(l, c);
    var s := Select(ci, sub, side);
    forall j | 0 <= j < |s|
      ensures s[j] < |l|
    {
      assert s[j] in s;
      var q :| 0 <= q < |ci| && ci[q] == s[j] && sub[q] == side;
    }
  }

  /** A side and the rest of the dataset are both nonempty when the other side is nonempty too. */
  lemma SideIsProper(n: nat, side: seq<nat>, other: seq<nat>)
    requires |side| > 0 && |other| > 0
    requires side[0] < n && other[0] < n
    requires forall v :: !(v in side && v in other)
    ensures Proper(Mask(n, side))
  {
    var m := Mask(n, side);
    CountPositive(m, side[0]);
    assert other[0] !in side;
    CountPositive(Not(m), other[0]);
  }

  /** `labels[indices1] = self.n_clusters_`: the positions in `side` take label `c`; every other point keeps its label. */
  function Relabel(l: seq<nat>, side: seq<nat>, c: nat): (r: seq<nat>)
    ensures |r| == |l|
    ensures forall i :: 0 <= i < |l| && r[i] != l[i] ==> i in side && r[i] == c
    ensures forall i :: 0 <= i < |l| && i in side ==> r[i] == c
  {
    seq(|l|, i requires 0 <= i < |l| => if i in side then c else l[i])
  }

  /** `labels[indices1] = c`, in place. */
  method RelabelSide(a: array<nat>, side: seq<nat>, c: nat)
    requires forall j :: 0 <= j < |side| ==> side[j] < a.Length
    modifies a
    ensures a[..] == Relabel(old(a[..]), side, c)
  {
    for j := 0 to |side|
      invariant forall i :: 0 <= i < a.Length ==> a[i] == if i in side[..j] then c else old(a[i])
    {
      assert side[..j + 1] == side[..j] + [side[j]];
      a[side[j]] := c;
    }
    assert side[..|side|] == side;
  }

  /**
   * After an accepted split of cluster `cut` into `s0` and `s1`, the points
   * labelled `cut` are exactly side 0, the new label `n` is exactly side 1,
   * and every other cluster keeps its points.
   */
  lemma RelabelMasks(l: seq<nat>, n: nat, cut: nat, s0: seq<nat>, s1: seq<nat>)
    requires cut < n && forall i :: 0 <= i < |l| ==> l[i] < n
    requires forall i :: 0 <= i < |l| ==> (l[i] == cut <==> i in s0 || i in s1)
    requires forall v :: !(v in s0 && v in s1)
    ensures MemberMask(Relabel(l, s1, n), cut) == Mask(|l|, s0)
    ensures MemberMask(Relabel(l, s1, n), n) == Mask(|l|, s1)
    ensures forall c :: c != cut && c != n ==> MemberMask(Relabel(l, s1, n), c) == MemberMask(l, c)
  {
    var r := Relabel(l, s1, n);
    assert MemberMask(r, cut) == Mask(|l|, s0);
    assert MemberMask(r, n) == Mask(|l|, s1);
    forall c | c != cut && c != n
      ensures MemberMask(r, c) == MemberMask(l, c)
    {
      assert forall i :: 0 <= i < |l| ==> (r[i] == c <==> l[i] == c);
    }
  }

  /**
   * `score0` and `score1` in `fit`: when the two sides cover the whole dataset (the
   * first split), their scores are opposite, so the better one is at least
   * the whole dataset's score of zero and the size test alone decides.
   */
  lemma WholeDatasetSplitNeverWorse(y: seq<real>, inside: seq<bool>)
    requires |y| == |inside| && Proper(inside)
    ensures Proper(Not(inside))
    ensures Max(DiscriminationScore(y, inside), DiscriminationScore(y, Not(inside))) >= 0.0
  {
    ComplementScoresOpposite(y, inside);
  }

  /**
   * With two final clusters each is the other's complement, so their scores
   * are opposite and the first, the higher, is at least 0.
   */
  lemma TwoClustersOpposite(y: seq<real>, labels: seq<nat>, scores: seq<real>)
    requires |labels| == |y| && forall i :: 0 <= i < |labels| ==> labels[i] < 2
    requires Proper(MemberMask(labels, 0)) && Proper(MemberMask(labels, 1))
    requires |scores| == 2 && scores[0] >= scores[1]
    requires scores[0] == DiscriminationScore(y, MemberMask(labels, 0))
    requires scores[1] == DiscriminationScore(y, MemberMask(labels, 1))
    ensures scores[1] == -scores[0] && scores[0] >= 0.0
  {
    assert MemberMask(labels, 1) == Not(MemberMask(labels, 0));
    ComplementScoresOpposite(y, MemberMask(labels, 0));
  }

  /** The whole-dataset entry `(None, 0, 0)` that `fit`'s heap starts with: no dispersion, label 0, score 0. */
  const Initial := Candidate(Unranked, 0, 0.0)

  /** The entry `heappush` receives for an accepted side: its dispersion negated, its label and its score. */
  function Pushed(y: seq<real>, side: seq<bool>, c: nat): (e: Candidate)
    requires |y| == |side| && Proper(side)
    ensures e.cluster == c && e.key.NegDispersion? && e.key.v <= 0.0
    ensures KeyLess(Unranked, e.key)
    ensures e.score > 0.0 <==> MeanWhere(y, side) < MeanWhere(y, Full(|y|))
  {
    Candidate(NegDispersion(-Variance(y, side)), c, DiscriminationScore(y, side))
  }

  /**
   * What a recorded cluster `c` with score `s` means: while there is one
   * cluster it is the whole dataset with score 0; afterwards it is a proper
   * part of the dataset and `s` is its discrimination score.
   */
  ghost predicate EntryOk(y: seq<real>, l: seq<nat>, n: nat, c: nat, s: real)
  {
    if n == 1 then c == 0 && s == 0.0
    else |y| == |l| && Proper(MemberMask(l, c)) && s == DiscriminationScore(y, MemberMask(l, c))
  }

  /** The key of an open cluster: none for the whole dataset, its dispersion negated otherwise. */
  ghost predicate KeyOk(y: seq<real>, l: seq<nat>, n: nat, e: Candidate)
  {
    if n == 1 then e.key == Unranked
    else |y| == |l| && Proper(MemberMask(l, e.cluster)) && e.key == NegDispersion(-Variance(y, MemberMask(l, e.cluster)))
  }

  /**
   * The state of `fit`'s `for` loop: every label is below `n`; the
   * finished and the open clusters together carry each label `0 .. n-1`
   * once; every recorded score and key belongs to its cluster's points.
   */
  ghost predicate LoopInv(y: seq<real>, l: seq<nat>, n: nat, finished: seq<Finished>, heap: seq<Candidate>)
  {
    && |l| == |y| && |l| > 0 && n >= 1
    && (forall i :: 0 <= i < |l| ==> l[i] < n)
    && (n == 1 ==> forall i :: 0 <= i < |l| ==> l[i] == 0)
    && IsPermutation(ClustersOf(finished) + LabelsOf(heap), n)
    && (forall j :: 0 <= j < |finished| ==> EntryOk(y, l, n, finished[j].cluster, finished[j].score))
    && (forall j :: 0 <= j < |heap| ==> EntryOk(y, l, n, heap[j].cluster, heap[j].score) && KeyOk(y, l, n, heap[j]))
  }

  /** The state of `fit`'s loop between passes: `labels`, `n_clusters_`, `clusters` with `scores`, and `heap`. */
  datatype LoopState = LoopState(labels: seq<nat>, n: nat, finished: seq<Finished>, heap: seq<Candidate>)

  /** The state before the first pass: every point in cluster 0, the whole dataset the only open entry. */
  function Start(size: nat): LoopState
  {
    LoopState(seq(size, _ => 0), 1, [], [Initial])
  }

  /** `fit`'s set-up before the loop (one cluster, all labels 0, the whole-dataset entry) establishes the loop state. */
  lemma InitialInvariant(y: seq<real>, l: seq<nat>)
    requires |l| == |y| > 0
    requires forall i :: 0 <= i < |l| ==> l[i] == 0
    ensures LoopInv(y, l, 1, [], [Initial])
  {
    assert ClustersOf([]) + LabelsOf([Initial]) == [0] == Range(1);
  }

  /**
   * The whole-dataset entry, the only one without a dispersion, is only
   * ever on the heap alone, so `heappop` never compares it with another
   * entry.
   */
  lemma UnrankedAlone(y: seq<real>, l: seq<nat>, n: nat, finished: seq<Finished>, heap: seq<Candidate>, j: nat)
    requires LoopInv(y, l, n, finished, heap) && j < |heap| && heap[j].key.Unranked?
    ensures n == 1 && heap == [heap[j]] && finished == []
  {
    assert |ClustersOf(finished) + LabelsOf(heap)| == n;
  }

  /** The open entry at position `k` carries a label in use. */
  lemma OpenLabelBound(y: seq<real>, l: seq<nat>, n: nat, finished: seq<Finished>, heap: seq<Candidate>, k: nat)
    requires LoopInv(y, l, n, finished, heap) && k < |heap|
    ensures heap[k].cluster < n
  {
    assert (ClustersOf(finished) + LabelsOf(heap))[|finished| + k] == heap[k].cluster;
  }

  /** The heap has one least entry: its labels are distinct, and the order breaks ties by label. */
  lemma LeastUnique(y: seq<real>, l: seq<nat>, n: nat, finished: seq<Finished>, heap: seq<Candidate>, k: nat, k': nat)
    requires LoopInv(y, l, n, finished, heap) && Least(heap, k) && Least(heap, k')
    ensures k == k'
  {
    PrecedesAntisymmetric(heap[k], heap[k']);
    OpenLabelsDistinct(y, l, n, finished, heap, k, k');
  }

  /** No label is open twice: entries of the heap with the same label are at the same position. */
  lemma OpenLabelsDistinct(y: seq<real>, l: seq<nat>, n: nat, finished: seq<Finished>, heap: seq<Candidate>, i: nat, j: nat)
    requires LoopInv(y, l, n, finished, heap) && i < |heap| && j < |heap|
    requires heap[i].cluster == heap[j].cluster
    ensures i == j
  {
    var all := ClustersOf(finished) + LabelsOf(heap);
    PermutationFacts(all, n);
    assert all[|finished| + i] == heap[i].cluster && all[|finished| + j] == heap[j].cluster;
  }

  /** Refusing a split, which appends the popped label and score to `clusters` and `scores`, keeps the loop state. */
  lemma RejectKeepsInvariant(y: seq<real>, l: seq<nat>, n: nat, finished: seq<Finished>, heap: seq<Candidate>, k: nat,
                             l': seq<nat>, n': nat, finished': seq<Finished>, heap': seq<Candidate>)
    requires LoopInv(y, l, n, finished, heap) && k < |heap|
    requires l' == l && n' == n && finished' == finished + [Finished(heap[k].cluster, heap[k].score)] && heap' == Remove(heap, k)
    ensures LoopInv(y, l', n', finished', heap')
  {
    var f := Finished(heap[k].cluster, heap[k].score);
    var before := ClustersOf(finished) + LabelsOf(heap);
    var after := ClustersOf(finished + [f]) + LabelsOf(Remove(heap, k));
    assert ClustersOf(finished + [f]) == ClustersOf(finished) + [f.cluster];
    LabelsOfRemove(heap, k);
    assert multiset(after) == multiset(before);
    PermutationReordered(before, after, n);
    forall j | 0 <= j < |heap| - 1
      ensures var e := Remove(heap, k)[j]; EntryOk(y, l, n, e.cluster, e.score) && KeyOk(y, l, n, e)
    {
      RemoveIndex(heap, k, j);
    }
  }

  /** An entry of a cluster an accepted split does not touch stays correct. */
  lemma UntouchedEntry(y: seq<real>, l: seq<nat>, n: nat, cut: nat, s0: seq<nat>, s1: seq<nat>, c: nat, s: real)
    requires n >= 2 && EntryOk(y, l, n, c, s)
    requires c != cut && c < n
    requires MemberMask(Relabel(l, s1, n), c) == MemberMask(l, c)
    ensures EntryOk(y, Relabel(l, s1, n), n + 1, c, s)
  {
  }

  lemma LabelsOfAppend(h: seq<Candidate>, p0: Candidate, p1: Candidate)
    ensures LabelsOf(h + [p0, p1]) == LabelsOf(h) + [p0.cluster, p1.cluster]
  {
  }

  /** The two `heappush` calls of an accepted split: replacing the popped label by itself and the fresh label `n` extends the permutation. */
  lemma AcceptLabels(finished: seq<Finished>, heap: seq<Candidate>, k: nat, n: nat, p0: Candidate, p1: Candidate)
    requires IsPermutation(ClustersOf(finished) + LabelsOf(heap), n) && k < |heap|
    requires p0.cluster == heap[k].cluster && p1.cluster == n
    ensures IsPermutation(ClustersOf(finished) + LabelsOf(Remove(heap, k) + [p0, p1]), n + 1)
  {
    var rest := Remove(heap, k);
    LabelsOfAppend(rest, p0, p1);
    LabelsOfRemove(heap, k);
    PermutationSplitLabel(ClustersOf(finished), LabelsOf(heap), LabelsOf(rest), heap[k].cluster, n);
    assert ClustersOf(finished) + LabelsOf(rest + [p0, p1]) == ClustersOf(finished) + LabelsOf(rest) + [heap[k].cluster, n];
  }

  /** After an accepted split, the entries of the clusters the split does not touch are still correct. */
  lemma AcceptOthers(y: seq<real>, l: seq<nat>, n: nat, finished: seq<Finished>, heap: seq<Candidate>, k: nat,
                     s0: seq<nat>, s1: seq<nat>)
    requires LoopInv(y, l, n, finished, heap) && k < |heap|
    requires forall i :: 0 <= i < |l| ==> (l[i] == heap[k].cluster <==> i in s0 || i in s1)
    requires forall v :: !(v in s0 && v in s1)
    ensures forall j :: 0 <= j < |finished| ==>
      EntryOk(y, Relabel(l, s1, n), n + 1, finished[j].cluster, finished[j].score)
    ensures forall j :: 0 <= j < |Remove(heap, k)| ==>
      && EntryOk(y, Relabel(l, s1, n), n + 1, Remove(heap, k)[j].cluster, Remove(heap, k)[j].score)
      && KeyOk(y, Relabel(l, s1, n), n + 1, Remove(heap, k)[j])
  {
    AcceptFinished(y, l, n, finished, heap, k, s0, s1);
    AcceptRest(y, l, n, finished, heap, k, s0, s1);
  }

  /** The finished clusters' scores survive the relabelling of side 1. */
  lemma AcceptFinished(y: seq<real>, l: seq<nat>, n: nat, finished: seq<Finished>, heap: seq<Candidate>, k: nat,
                       s0: seq<nat>, s1: seq<nat>)
    requires LoopInv(y, l, n, finished, heap) && k < |heap|
    requires forall i :: 0 <= i < |l| ==> (l[i] == heap[k].cluster <==> i in s0 || i in s1)
    requires forall v :: !(v in s0 && v in s1)
    ensures forall j :: 0 <= j < |finished| ==>
      EntryOk(y, Relabel(l, s1, n), n + 1, finished[j].cluster, finished[j].score)
  {
    var cut := heap[k].cluster;
    var all := ClustersOf(finished) + LabelsOf(heap);
    OpenLabelBound(y, l, n, finished, heap, k);
    PermutationFacts(all, n);
    RelabelMasks(l, n, cut, s0, s1);
    if n == 1 {
      assert |finished| + |heap| == 1;
    }
    forall j | 0 <= j < |finished|
      ensures EntryOk(y, Relabel(l, s1, n), n + 1, finished[j].cluster, finished[j].score)
    {
      assert all[j] == finished[j].cluster && all[|finished| + k] == cut;
      UntouchedEntry(y, l, n, cut, s0, s1, finished[j].cluster, finished[j].score);
    }
  }

  /** The open clusters other than the popped one keep their score and dispersion key after the relabelling. */
  lemma AcceptRest(y: seq<real>, l: seq<nat>, n: nat, finished: seq<Finished>, heap: seq<Candidate>, k: nat,
                   s0: seq<nat>, s1: seq<nat>)
    requires LoopInv(y, l, n, finished, heap) && k < |heap|
    requires forall i :: 0 <= i < |l| ==> (l[i] == heap[k].cluster <==> i in s0 || i in s1)
    requires forall v :: !(v in s0 && v in s1)
    ensures forall j :: 0 <= j < |Remove(heap, k)| ==>
      && EntryOk(y, Relabel(l, s1, n), n + 1, Remove(heap, k)[j].cluster, Remove(heap, k)[j].score)
      && KeyOk(y, Relabel(l, s1, n), n + 1, Remove(heap, k)[j])
  {
    var cut := heap[k].cluster;
    var rest := Remove(heap, k);
    var all := ClustersOf(finished) + LabelsOf(heap);
    OpenLabelBound(y, l, n, finished, heap, k);
    PermutationFacts(all, n);
    RelabelMasks(l, n, cut, s0, s1);
    if n == 1 {
      assert |finished| + |heap| == 1;
    }
    forall j | 0 <= j < |rest|
      ensures EntryOk(y, Relabel(l, s1, n), n + 1, rest[j].cluster, rest[j].score)
      ensures KeyOk(y, Relabel(l, s1, n), n + 1, rest[j])
    {
      var q := if j < k then j else j + 1;
      RemoveIndex(heap, k, j);
      assert all[|finished| + q] == rest[j].cluster && all[|finished| + k] == cut;
      UntouchedEntry(y, l, n, cut, s0, s1, rest[j].cluster, rest[j].score);
    }
  }

  /** The two entries pushed for an accepted split carry their sides' score and dispersion. */
  lemma AcceptPushed(y: seq<real>, l: seq<nat>, n: nat, cut: nat, s0: seq<nat>, s1: seq<nat>)
    requires |l| == |y| && cut < n && forall i :: 0 <= i < |l| ==> l[i] < n
    requires forall i :: 0 <= i < |l| ==> (l[i] == cut <==> i in s0 || i in s1)
    requires forall v :: !(v in s0 && v in s1)
    requires Proper(Mask(|y|, s0)) && Proper(Mask(|y|, s1))
    ensures var p0 := Pushed(y, Mask(|y|, s0), cut);
      EntryOk(y, Relabel(l, s1, n), n + 1, p0.cluster, p0.score) && KeyOk(y, Relabel(l, s1, n), n + 1, p0)
    ensures var p1 := Pushed(y, Mask(|y|, s1), n);
      EntryOk(y, Relabel(l, s1, n), n + 1, p1.cluster, p1.score) && KeyOk(y, Relabel(l, s1, n), n + 1, p1)
  {
    RelabelMasks(l, n, cut, s0, s1);
  }

  /** Accepting a split (two pushes, relabelling side 1, one more cluster) keeps the loop state, with one more label. */
  lemma AcceptKeepsInvariant(y: seq<real>, l: seq<nat>, n: nat, finished: seq<Finished>, heap: seq<Candidate>, k: nat,
                             s0: seq<nat>, s1: seq<nat>, l': seq<nat>, heap': seq<Candidate>)
    requires LoopInv(y, l, n, finished, heap) && k < |heap|
    requires forall i :: 0 <= i < |l| ==> (l[i] == heap[k].cluster <==> i in s0 || i in s1)
    requires forall v :: !(v in s0 && v in s1)
    requires Proper(Mask(|y|, s0)) && Proper(Mask(|y|, s1))
    requires l' == Relabel(l, s1, n)
    requires heap' == Remove(heap, k) + [Pushed(y, Mask(|y|, s0), heap[k].cluster), Pushed(y, Mask(|y|, s1), n)]
    ensures LoopInv(y, l', n + 1, finished, heap')
  {
    var cut := heap[k].cluster;
    var p0, p1 := Pushed(y, Mask(|y|, s0), cut), Pushed(y, Mask(|y|, s1), n);
    OpenLabelBound(y, l, n, finished, heap, k);
    AcceptLabels(finished, heap, k, n, p0, p1);
    AcceptOthers(y, l, n, finished, heap, k, s0, s1);
    AcceptPushed(y, l, n, cut, s0, s1);
    AcceptEntries(y, l', n + 1, Remove(heap, k), p0, p1);
  }

  /** `AcceptKeepsInvariant` with the new label count and finished list as given names. */
  lemma AcceptStep(y: seq<real>, l: seq<nat>, n: nat, finished: seq<Finished>, heap: seq<Candidate>, k: nat,
                   s0: seq<nat>, s1: seq<nat>, l': seq<nat>, n': nat, finished': seq<Finished>, heap': seq<Candidate>)
    requires LoopInv(y, l, n, finished, heap) && k < |heap|
    requires forall i :: 0 <= i < |l| ==> (l[i] == heap[k].cluster <==> i in s0 || i in s1)
    requires forall v :: !(v in s0 && v in s1)
    requires Proper(Mask(|y|, s0)) && Proper(Mask(|y|, s1))
    requires l' == Relabel(l, s1, n) && n' == n + 1 && finished' == finished
    requires heap' == Remove(heap, k) + [Pushed(y, Mask(|y|, s0), heap[k].cluster), Pushed(y, Mask(|y|, s1), n)]
    ensures LoopInv(y, l', n', finished', heap')
  {
    AcceptKeepsInvariant(y, l, n, finished, heap, k, s0, s1, l', heap');
  }

  /** The open entries after an accepted split: the untouched ones and the two pushed sides. */
  lemma AcceptEntries(y: seq<real>, l: seq<nat>, n: nat, rest: seq<Candidate>, p0: Candidate, p1: Candidate)
    requires forall j :: 0 <= j < |rest| ==> EntryOk(y, l, n, rest[j].cluster, rest[j].score) && KeyOk(y, l, n, rest[j])
    requires EntryOk(y, l, n, p0.cluster, p0.score) && KeyOk(y, l, n, p0)
    requires EntryOk(y, l, n, p1.cluster, p1.score) && KeyOk(y, l, n, p1)
    ensures forall j :: 0 <= j < |rest + [p0, p1]| ==>
      EntryOk(y, l, n, (rest + [p0, p1])[j].cluster, (rest + [p0, p1])[j].score) && KeyOk(y, l, n, (rest + [p0, p1])[j])
  {
    var h := rest + [p0, p1];
    assert forall j :: 0 <= j < |h| ==> h[j] == if j < |rest| then rest[j] else if j == |rest| then p0 else p1;
  }

  /**
   * `fit`'s finalisation seen from the clusters: after ranking, final label `r`
   * names the points of the `r`-th ranked cluster, every final label is in
   * use, and (once a split was accepted) `r`'s score is its discrimination
   * score; with a single cluster the only score is 0.
   */
  lemma FinalClusters(y: seq<real>, l: seq<nat>, n: nat, finals: seq<Finished>, finalLabels: seq<nat>, ranked: seq<Finished>)
    requires |l| == |y| > 0 && n >= 1
    requires forall i :: 0 <= i < |l| ==> l[i] < n
    requires n == 1 ==> forall i :: 0 <= i < |l| ==> l[i] == 0
    requires forall j :: 0 <= j < |finals| ==> EntryOk(y, l, n, finals[j].cluster, finals[j].score)
    requires multiset(ranked) == multiset(finals) && |ranked| == n
    requires |finalLabels| == |l|
    requires forall i, r :: 0 <= i < |l| && 0 <= r < n ==> (finalLabels[i] == r <==> l[i] == ranked[r].cluster)
    ensures forall r :: 0 <= r < n ==> r in finalLabels
    ensures n == 1 ==> ranked == [Finished(0, 0.0)]
    ensures n >= 2 ==> forall r :: 0 <= r < n ==>
      Proper(MemberMask(finalLabels, r)) && ranked[r].score == DiscriminationScore(y, MemberMask(finalLabels, r))
  {
    forall r | 0 <= r < n
      ensures r in finalLabels
      ensures EntryOk(y, l, n, ranked[r].cluster, ranked[r].score)
      ensures n >= 2 ==> MemberMask(finalLabels, r) == MemberMask(l, ranked[r].cluster)
    {
      assert ranked[r] in multiset(finals);
      var j :| 0 <= j < |finals| && finals[j] == ranked[r];
      var c := ranked[r].cluster;
      if n == 1 {
        assert l[0] == c;
      } else {
        SelectedPoint(MemberMask(l, c));
        var i :| 0 <= i < |l| && MemberMask(l, c)[i];
        assert finalLabels[i] == r;
        assert MemberMask(finalLabels, r) == MemberMask(l, c);
      }
    }
  }

  /** The shape checks of `fit`'s `_validate_data`: a nonempty table of rows with at least one feature, one outcome per row. */
  function CheckFitInput(X: seq<Row>, y: seq<real>): (err: Option<InputError>)
    ensures err.None? <==> |X| > 0 && |X[0]| > 0 && Rectangular(X, |X[0]|) && |y| == |X|
  {
    if X == [] then Some(EmptyDataset)
    else if !Rectangular(X, |X[0]|) then Some(RaggedRows)
    else if |X[0]| == 0 then Some(NoFeatures)
    else if |y| != |X| then Some(LengthMismatch)
    else None
  }

  /** The shape checks of `predict`'s `_validate_data`: a nonempty table of rows with at least one feature. */
  function CheckQuery(Xq: seq<Row>): (err: Option<InputError>)
    ensures err.None? <==> |Xq| > 0 && |Xq[0]| > 0 && Rectangular(Xq, |Xq[0]|)
  {
    if Xq == [] then Some(EmptyDataset)
    else if !Rectangular(Xq, |Xq[0]|) then Some(RaggedRows)
    else if |Xq[0]| == 0 then Some(NoFeatures)
    else None
  }

  /** `clusters + [label for _, label, _ in heap]` and the matching scores: the finished clusters followed by the open ones. */
  lemma AllEntries(y: seq<real>, l: seq<nat>, n: nat, finished: seq<Finished>, heap: seq<Candidate>)
    requires LoopInv(y, l, n, finished, heap)
    ensures IsPermutation(ClustersOf(finished + AsFinished(heap)), n)
    ensures forall j :: 0 <= j < |finished + AsFinished(heap)| ==>
      EntryOk(y, l, n, (finished + AsFinished(heap))[j].cluster, (finished + AsFinished(heap))[j].score)
  {
    var finals := finished + AsFinished(heap);
    assert ClustersOf(finals) == ClustersOf(finished) + LabelsOf(heap);
    assert forall j :: 0 <= j < |finals| ==> finals[j] == if j < |finished| then finished[j] else AsFinished(heap)[j - |finished|];
  }

  /**
   * `fit`'s finalisation: the finished and the still-open clusters are ranked by
   * decreasing score and every point's label is renamed to its cluster's
   * rank.
   */
  method RankClusters(y: seq<real>, l: seq<nat>, n: nat, finished: seq<Finished>, heap: seq<Candidate>)
    returns (finalLabels: seq<nat>, finalScores: seq<real>)
    requires LoopInv(y, l, n, finished, heap)
    ensures |finalLabels| == |l| && (forall i :: 0 <= i < |l| ==> finalLabels[i] < n)
    ensures forall r :: 0 <= r < n ==> r in finalLabels
    ensures |finalScores| == n && NonIncreasing(finalScores)
    ensures n == 1 ==> finalScores == [0.0] && forall i :: 0 <= i < |l| ==> finalLabels[i] == 0
    ensures n >= 2 ==> forall r :: 0 <= r < n ==>
      Proper(MemberMask(finalLabels, r)) && finalScores[r] == DiscriminationScore(y, MemberMask(finalLabels, r))
    ensures forall i, j :: 0 <= i < |l| && 0 <= j < |l| ==> (finalLabels[i] == finalLabels[j] <==> l[i] == l[j])
  {
    var finals := finished + AsFinished(heap);
    AllEntries(y, l, n, finished, heap);
    var ranked, mapping;
    finalLabels, ranked, mapping := Finalise(l, finals, n);
    FinalClusters(y, l, n, finals, finalLabels, ranked);
    finalScores := ScoresOf(ranked);
    forall i, j | 0 <= i < |l| && 0 <= j < |l|
      ensures finalLabels[i] == finalLabels[j] <==> l[i] == l[j]
    {
      if l[i] < l[j] {
        assert mapping[l[i]] != mapping[l[j]];
      } else if l[j] < l[i] {
        assert mapping[l[j]] != mapping[l[i]];
      }
    }
  }

  /** The end of `fit`: ranking and renaming, then `calc_centroids` on the renamed clusters. */
  method Conclude(X: seq<Row>, y: seq<real>, l: seq<nat>, n: nat, finished: seq<Finished>, heap: seq<Candidate>)
    returns (finalLabels: seq<nat>, finalScores: seq<real>, cols: seq<Row>)
    requires LoopInv(y, l, n, finished, heap)
    requires |X| == |l| && Rectangular(X, |X[0]|)
    ensures |finalLabels| == |X| && (forall i :: 0 <= i < |X| ==> finalLabels[i] < n)
    ensures forall r :: 0 <= r < n ==> r in finalLabels
    ensures |finalScores| == n && NonIncreasing(finalScores)
    ensures n == 1 ==> finalScores == [0.0] && forall i :: 0 <= i < |X| ==> finalLabels[i] == 0
    ensures n >= 2 ==> forall r :: 0 <= r < n ==>
      Proper(MemberMask(finalLabels, r)) && finalScores[r] == DiscriminationScore(y, MemberMask(finalLabels, r))
    ensures |cols| == n && Rectangular(cols, |X[0]|)
    ensures forall r :: 0 <= r < n ==> GroupCount(finalLabels, r) > 0
    ensures forall r, f :: 0 <= r < n && 0 <= f < |X[0]| ==> cols[r][f] == GroupMean(X, finalLabels, r, f)
    ensures forall i, j :: 0 <= i < |l| && 0 <= j < |l| ==> (finalLabels[i] == finalLabels[j] <==> l[i] == l[j])
  {
    finalLabels, finalScores := RankClusters(y, l, n, finished, heap);
    UniqueOfFullRange(finalLabels, n);
    cols := CalcCentroids(X, finalLabels, |X[0]|);
    forall r | 0 <= r < n
      ensures GroupCount(finalLabels, r) > 0
    {
      GroupCountPositive(finalLabels, r);
    }
  }

  /**
   * The estimator. `split` is the subclass's `_split`: given the rows of a
   * cluster it puts each on side 0 (`false`) or side 1 (`true`).
   */
  class BiasAwareHierarchicalClustering {
    const nIter: nat
    const minClusterSize: nat
    const split: seq<Row> -> seq<bool>

    var nClusters: nat          // n_clusters_
    var labels: seq<nat>        // labels_
    var scores: seq<real>       // scores_
    var centroids: seq<Row>     // centroids_, one column per cluster
    var nFeatures: nat          // the number of rows of centroids_
    var fitted: bool

    /** The oracle answers once per row, and a side needs at least one point. */
    ghost predicate Configured()
    {
      minClusterSize >= 1 && forall P :: |split(P)| == |P|
    }

    ghost predicate Valid()
      reads this
    {
      && Configured()
      && (fitted ==>
            && 1 <= nClusters == |centroids| == |scores|
            && nFeatures >= 1 && Rectangular(centroids, nFeatures)
            && (forall i :: 0 <= i < |labels| ==> labels[i] < nClusters))
    }

    /** `__init__`: stores `n_iter`, `min_cluster_size` and the subclass's `_split`. */
    constructor (nIter: nat, minClusterSize: nat, split: seq<Row> -> seq<bool>)
      requires minClusterSize >= 1 && forall P :: |split(P)| == |P|
      ensures this.nIter == nIter && this.minClusterSize == minClusterSize && this.split == split
      ensures !fitted && Valid()
    {
      this.nIter := nIter;
      this.minClusterSize := minClusterSize;
      this.split := split;
      fitted := false;
    }

    /**
     * `cluster_indices`, `indices0` and `indices1` in `fit`: the positions carrying label `c`, split by the oracle into
     * `indices0` and `indices1`. The two are disjoint and together are the
     * cluster; when both are nonempty each is a proper part of the dataset.
     */
    function Sides(X: seq<Row>, l: seq<nat>, c: nat): (r: (seq<nat>, seq<nat>))
      requires Configured() && |X| == |l|
      ensures forall j :: 0 <= j < |r.0| ==> r.0[j] < |l|
      ensures forall j :: 0 <= j < |r.1| ==> r.1[j] < |l|
      ensures forall i :: 0 <= i < |l| ==> (l[i] == c <==> i in r.0 || i in r.1)
      ensures forall v :: !(v in r.0 && v in r.1)
      ensures StrictlyIncreasing(r.0) && StrictlyIncreasing(r.1)
      ensures |r.0| > 0 && |r.1| > 0 ==> Proper(Mask(|l|, r.0)) && Proper(Mask(|l|, r.1))
    {
      var ci := IndicesOf(l, c);
      var sub := split(Gather(X, ci));
      var s0, s1 := Select(ci, sub, false), Select(ci, sub, true);
      SplitPartitionsCluster(l, c, sub);
      SideWithinDataset(l, c, sub, false);
      SideWithinDataset(l, c, sub, true);
      if |s0| > 0 && |s1| > 0 then
        SideIsProper(|l|, s0, s1);
        SideIsProper(|l|, s1, s0);
        (s0, s1)
      else (s0, s1)
    }

    /**
     * The body of `fit`'s loop after `heappop`, on the popped entry: split its cluster
     * and accept when both sides have at least `minClusterSize` points and
     * the better side scores at least the popped score (a tie accepts).
     * On acceptance side 1 takes the fresh label `n` in place and both
     * sides are returned for pushing; otherwise nothing changes.
     */
    method Bisect(X: seq<Row>, y: seq<real>, work: array<nat>, popped: Candidate, n: nat)
      returns (accepted: bool, pushed: seq<Candidate>, ghost s0: seq<nat>, ghost s1: seq<nat>)
      requires Configured() && |X| == |y| == work.Length
      requires popped.cluster < n
      modifies work
      ensures (s0, s1) == Sides(X, old(work[..]), popped.cluster)
      ensures accepted <==>
        && |s0| >= minClusterSize && |s1| >= minClusterSize
        && Max(DiscriminationScore(y, Mask(|y|, s0)), DiscriminationScore(y, Mask(|y|, s1))) >= popped.score
      ensures accepted ==>
        && work[..] == Relabel(old(work[..]), s1, n)
        && pushed == [Pushed(y, Mask(|y|, s0), popped.cluster), Pushed(y, Mask(|y|, s1), n)]
      ensures !accepted ==> work[..] == old(work[..]) && pushed == []
    {
      var l := work[..];
      var ci := IndicesOf(l, popped.cluster);
      var sub := split(Gather(X, ci));
      var indices0, indices1 := Select(ci, sub, false), Select(ci, sub, true);
      s0, s1 := indices0, indices1;
      assert (s0, s1) == Sides(X, l, popped.cluster);
      accepted, pushed := false, [];
      if |indices0| >= minClusterSize && |indices1| >= minClusterSize {
        var mask0, mask1 := Mask(|y|, indices0), Mask(|y|, indices1);
        var score0 := DiscriminationScore(y, mask0);
        var score1 := DiscriminationScore(y, mask1);
        if Max(score0, score1) >= popped.score {
          pushed := [Pushed(y, mask0, popped.cluster), Pushed(y, mask1, n)];
          RelabelSide(work, indices1, n);
          accepted := true;
        }
      }
    }

    /**
     * One pass of `fit`'s loop on the entry at position `k` that
     * `heappop` takes: try to split its cluster; an accepted split pushes
     * both sides and adds a cluster, a refused one finishes the popped entry
     * and leaves the labels alone.
     */
    method Iterate(X: seq<Row>, y: seq<real>, work: array<nat>, n: nat, finished: seq<Finished>, heap: seq<Candidate>, k: nat)
      returns (nOut: nat, finishedOut: seq<Finished>, heapOut: seq<Candidate>, ghost s0: seq<nat>, ghost s1: seq<nat>)
      requires Configured() && |X| == |y| == work.Length && k < |heap|
      requires LoopInv(y, work[..], n, finished, heap)
      modifies work
      ensures LoopInv(y, work[..], nOut, finishedOut, heapOut)
      ensures (s0, s1) == Sides(X, old(work[..]), heap[k].cluster)
      ensures nOut == n || nOut == n + 1
      ensures nOut == n + 1 <==>
        && |s0| >= minClusterSize && |s1| >= minClusterSize
        && Max(DiscriminationScore(y, Mask(|y|, s0)), DiscriminationScore(y, Mask(|y|, s1))) >= heap[k].score
      ensures nOut == n + 1 ==>
        && finishedOut == finished
        && work[..] == Relabel(old(work[..]), s1, n)
        && heapOut == Remove(heap, k) + [Pushed(y, Mask(|y|, s0), heap[k].cluster), Pushed(y, Mask(|y|, s1), n)]
      ensures nOut == n ==>
        && work[..] == old(work[..])
        && finishedOut == finished + [Finished(heap[k].cluster, heap[k].score)]
        && heapOut == Remove(heap, k)
    {
      var popped := heap[k];
      OpenLabelBound(y, work[..], n, finished, heap, k);
      ghost var l := work[..];
      var accepted, pushed;
      accepted, pushed, s0, s1 := Bisect(X, y, work, popped, n);
      if accepted {
        nOut, finishedOut, heapOut := n + 1, finished, Remove(heap, k) + pushed;
      } else {
        nOut, finishedOut, heapOut := n, finished + [Finished(popped.cluster, popped.score)], Remove(heap, k);
      }
      StepKeepsInvariant(X, y, l, n, finished, heap, k, accepted, pushed, s0, s1, work[..], nOut, finishedOut, heapOut);
    }

    /** Either outcome of `Bisect` keeps the loop state. */
    lemma StepKeepsInvariant(X: seq<Row>, y: seq<real>, l: seq<nat>, n: nat, finished: seq<Finished>, heap: seq<Candidate>,
                             k: nat, accepted: bool, pushed: seq<Candidate>, s0: seq<nat>, s1: seq<nat>,
                             l': seq<nat>, nOut: nat, finishedOut: seq<Finished>, heapOut: seq<Candidate>)
      requires Configured() && |X| == |y| && LoopInv(y, l, n, finished, heap) && k < |heap|
      requires (s0, s1) == Sides(X, l, heap[k].cluster)
      requires accepted ==> |s0| >= minClusterSize && |s1| >= minClusterSize
      requires accepted ==>
        && l' == Relabel(l, s1, n)
        && pushed == [Pushed(y, Mask(|y|, s0), heap[k].cluster), Pushed(y, Mask(|y|, s1), n)]
        && nOut == n + 1 && finishedOut == finished && heapOut == Remove(heap, k) + pushed
      requires !accepted ==>
        && l' == l
        && nOut == n && finishedOut == finished + [Finished(heap[k].cluster, heap[k].score)] && heapOut == Remove(heap, k)
      ensures LoopInv(y, l', nOut, finishedOut, heapOut)
    {
      if accepted {
        AcceptStep(y, l, n, finished, heap, k, s0, s1, l', nOut, finishedOut, heapOut);
      } else {
        RejectKeepsInvariant(y, l, n, finished, heap, k, l', nOut, finishedOut, heapOut);
      }
    }

    /**
     * The oracle's answer on the whole dataset, the cut the first pass of
     * the loop tries, puts at least `minClusterSize` rows on each side.
     */
    predicate FirstSplitFits(X: seq<Row>)
    {
      var sub := split(X);
      CountTrue(Not(sub)) >= minClusterSize && CountTrue(sub) >= minClusterSize
    }

    /** The sides of the first pass, on the whole dataset, have the sizes the oracle's answer gives. */
    lemma FirstSidesSizes(X: seq<Row>, l: seq<nat>)
      requires Configured() && |X| == |l|
      requires forall i :: 0 <= i < |l| ==> l[i] == 0
      ensures |Sides(X, l, 0).0| == CountTrue(Not(split(X)))
      ensures |Sides(X, l, 0).1| == CountTrue(split(X))
    {
      var ci := IndicesOf(l, 0);
      IndicesOfEvery(l, 0);
      assert Gather(X, ci) == X;
      SelectCount(ci, split(X));
    }

    /**
     * The sides of the first split are complements of each other, so the
     * better of their scores is at least the whole dataset's score of 0:
     * only the size test can refuse the first split.
     */
    lemma FirstSplitNeverWorse(X: seq<Row>, y: seq<real>, l: seq<nat>, s0: seq<nat>, s1: seq<nat>)
      requires Configured() && |X| == |l| == |y|
      requires forall i :: 0 <= i < |l| ==> l[i] == 0
      requires (s0, s1) == Sides(X, l, 0) && |s0| > 0 && |s1| > 0
      ensures Mask(|l|, s1) == Not(Mask(|l|, s0))
      ensures Max(DiscriminationScore(y, Mask(|y|, s0)), DiscriminationScore(y, Mask(|y|, s1))) >= 0.0
    {
      assert Mask(|l|, s1) == Not(Mask(|l|, s0));
      WholeDatasetSplitNeverWorse(y, Mask(|y|, s0));
    }

    /**
     * After the first pass there are two clusters exactly when the first
     * split fits; otherwise the whole dataset is finished and the heap is
     * empty.
     */
    lemma FirstPassDecides(X: seq<Row>, y: seq<real>, l: seq<nat>, heap: seq<Candidate>, k: nat, s0: seq<nat>, s1: seq<nat>,
                           nOut: nat, heapOut: seq<Candidate>)
      requires Configured() && |X| == |l| == |y| && heap == [Initial] && k < |heap|
      requires forall i :: 0 <= i < |l| ==> l[i] == 0
      requires (s0, s1) == Sides(X, l, heap[k].cluster)
      requires nOut == 1 || nOut == 2
      requires nOut == 2 <==>
        && |s0| >= minClusterSize && |s1| >= minClusterSize
        && Max(DiscriminationScore(y, Mask(|y|, s0)), DiscriminationScore(y, Mask(|y|, s1))) >= heap[k].score
      requires nOut == 1 ==> heapOut == Remove(heap, k)
      ensures nOut >= 2 <==> FirstSplitFits(X)
      ensures nOut == 1 ==> heapOut == []
    {
      FirstSidesSizes(X, l);
      if |s0| >= minClusterSize && |s1| >= minClusterSize {
        FirstSplitNeverWorse(X, y, l, s0, s1);
      }
    }

    /**
     * A pass of the loop keeps the link between the first split and the
     * number of clusters: the first pass sets it, and afterwards the count
     * never falls back to one.
     */
    lemma PassKeepsGrowth(X: seq<Row>, y: seq<real>, l: seq<nat>, t: nat, n: nat, heap: seq<Candidate>, k: nat,
                          s0: seq<nat>, s1: seq<nat>, nOut: nat, heapOut: seq<Candidate>)
      requires Configured() && |X| == |l| == |y| && k < |heap| && n >= 1
      requires t == 0 ==> n == 1 && heap == [Initial] && forall i :: 0 <= i < |l| ==> l[i] == 0
      requires t >= 1 ==> (n >= 2 <==> FirstSplitFits(X))
      requires t >= 1 && n == 1 ==> heap == []
      requires (s0, s1) == Sides(X, l, heap[k].cluster)
      requires nOut == n || nOut == n + 1
      requires nOut == n + 1 <==>
        && |s0| >= minClusterSize && |s1| >= minClusterSize
        && Max(DiscriminationScore(y, Mask(|y|, s0)), DiscriminationScore(y, Mask(|y|, s1))) >= heap[k].score
      requires nOut == n ==> heapOut == Remove(heap, k)
      ensures nOut >= 2 <==> FirstSplitFits(X)
      ensures nOut == 1 ==> heapOut == []
    {
      if t == 0 {
        FirstPassDecides(X, y, l, heap, k, s0, s1, nOut, heapOut);
      }
    }

    /**
     * The state after a pass that pops the entry at position `k`: its
     * cluster is cut by the oracle, and the cut is accepted exactly when
     * both sides have at least `minClusterSize` points and the better side
     * scores at least the popped score (a tie accepts). An accepted cut
     * gives side 1 the label `n` and pushes both sides; a refused one
     * finishes the popped entry.
     */
    ghost function Next(X: seq<Row>, y: seq<real>, a: LoopState, k: nat): LoopState
      requires Configured() && |X| == |y| == |a.labels| && k < |a.heap|
    {
      var sides := Sides(X, a.labels, a.heap[k].cluster);
      var s0, s1 := sides.0, sides.1;
      if && |s0| >= minClusterSize && |s1| >= minClusterSize
         && Max(DiscriminationScore(y, Mask(|y|, s0)), DiscriminationScore(y, Mask(|y|, s1))) >= a.heap[k].score
      then
        LoopState(Relabel(a.labels, s1, a.n), a.n + 1, a.finished,
                  Remove(a.heap, k) + [Pushed(y, Mask(|y|, s0), a.heap[k].cluster), Pushed(y, Mask(|y|, s1), a.n)])
      else
        LoopState(a.labels, a.n, a.finished + [Finished(a.heap[k].cluster, a.heap[k].score)], Remove(a.heap, k))
    }

    /** A pass's outcome, given branch by branch as `Iterate` reports it, is the state `Next` describes. */
    lemma OutcomeIsNext(X: seq<Row>, y: seq<real>, a: LoopState, k: nat, s0: seq<nat>, s1: seq<nat>, b: LoopState)
      requires Configured() && |X| == |y| == |a.labels| && k < |a.heap|
      requires (s0, s1) == Sides(X, a.labels, a.heap[k].cluster)
      requires b.n == a.n || b.n == a.n + 1
      requires b.n == a.n + 1 <==>
        && |s0| >= minClusterSize && |s1| >= minClusterSize
        && Max(DiscriminationScore(y, Mask(|y|, s0)), DiscriminationScore(y, Mask(|y|, s1))) >= a.heap[k].score
      requires b.n == a.n + 1 ==>
        b == LoopState(Relabel(a.labels, s1, a.n), a.n + 1, a.finished,
                       Remove(a.heap, k) + [Pushed(y, Mask(|y|, s0), a.heap[k].cluster), Pushed(y, Mask(|y|, s1), a.n)])
      requires b.n == a.n ==>
        b == LoopState(a.labels, a.n, a.finished + [Finished(a.heap[k].cluster, a.heap[k].score)], Remove(a.heap, k))
      ensures b == Next(X, y, a, k)
    {
    }

    /** One pass of the loop leads from `a` to `b`: `heappop` takes the least entry and `b` is what follows. */
    ghost predicate PassStep(X: seq<Row>, y: seq<real>, a: LoopState, b: LoopState)
    {
      && Configured() && |X| == |y| == |a.labels|
      && exists k :: Least(a.heap, k) && b == Next(X, y, a, k)
    }

    /** A run of the loop: the start state, then one state per pass. */
    ghost predicate IsRun(X: seq<Row>, y: seq<real>, trace: seq<LoopState>)
    {
      && |trace| >= 1 && trace[0] == Start(|X|)
      && forall i :: 0 <= i < |trace| - 1 ==> PassStep(X, y, trace[i], trace[i + 1])
    }

    /** The run stops as `for _ in range(n_iter)` with its `break` does: after `nIter` passes or once the heap is empty. */
    ghost predicate Complete(trace: seq<LoopState>)
    {
      |trace| >= 1 && |trace| - 1 <= nIter && (|trace| - 1 == nIter || trace[|trace| - 1].heap == [])
    }

    /** A pass appended to a run gives a run. */
    lemma RunExtend(X: seq<Row>, y: seq<real>, trace: seq<LoopState>, k: nat, b: LoopState)
      requires IsRun(X, y, trace) && Configured() && |X| == |y| == |trace[|trace| - 1].labels|
      requires Least(trace[|trace| - 1].heap, k) && b == Next(X, y, trace[|trace| - 1], k)
      ensures IsRun(X, y, trace + [b])
    {
      var longer := trace + [b];
      assert PassStep(X, y, trace[|trace| - 1], b);
      forall i | 0 <= i < |longer| - 1
        ensures PassStep(X, y, longer[i], longer[i + 1])
      {
        if i < |trace| - 1 {
          assert longer[i] == trace[i] && longer[i + 1] == trace[i + 1];
        }
      }
    }

    /** A pass needs an open cluster to pop: with the heap empty the loop's `break` ends the run. */
    lemma PassNeedsOpenCluster(X: seq<Row>, y: seq<real>, a: LoopState, b: LoopState)
      ensures PassStep(X, y, a, b) ==> a.heap != []
    {
    }

    /**
     * A pass keeps the loop state. The least entry is unique, because the
     * labels on the heap are distinct, so the state a pass leads to is
     * determined.
     */
    lemma PassStepKeepsInvariant(X: seq<Row>, y: seq<real>, a: LoopState, b: LoopState)
      requires LoopInv(y, a.labels, a.n, a.finished, a.heap) && PassStep(X, y, a, b)
      ensures LoopInv(y, b.labels, b.n, b.finished, b.heap)
    {
      var k :| Least(a.heap, k) && b == Next(X, y, a, k);
      NextKeepsInvariant(X, y, a, k);
    }

    /** Both outcomes of a pass on the entry at `k` keep the loop state. */
    lemma NextKeepsInvariant(X: seq<Row>, y: seq<real>, a: LoopState, k: nat)
      requires Configured() && |X| == |y| == |a.labels| && k < |a.heap|
      requires LoopInv(y, a.labels, a.n, a.finished, a.heap)
      ensures var b := Next(X, y, a, k); LoopInv(y, b.labels, b.n, b.finished, b.heap)
    {
      var sides := Sides(X, a.labels, a.heap[k].cluster);
      var s0, s1 := sides.0, sides.1;
      var b := Next(X, y, a, k);
      if && |s0| >= minClusterSize && |s1| >= minClusterSize
         && Max(DiscriminationScore(y, Mask(|y|, s0)), DiscriminationScore(y, Mask(|y|, s1))) >= a.heap[k].score
      {
        var pushed := [Pushed(y, Mask(|y|, s0), a.heap[k].cluster), Pushed(y, Mask(|y|, s1), a.n)];
        assert b == LoopState(Relabel(a.labels, s1, a.n), a.n + 1, a.finished, Remove(a.heap, k) + pushed);
        StepKeepsInvariant(X, y, a.labels, a.n, a.finished, a.heap, k, true, pushed, s0, s1, b.labels, b.n, b.finished, b.heap);
      } else {
        assert b == LoopState(a.labels, a.n, a.finished + [Finished(a.heap[k].cluster, a.heap[k].score)], Remove(a.heap, k));
        StepKeepsInvariant(X, y, a.labels, a.n, a.finished, a.heap, k, false, [], s0, s1, b.labels, b.n, b.finished, b.heap);
      }
    }

    /** From a loop state there is at most one pass: `heappop` has one least entry to take. */
    lemma PassStepFunctional(X: seq<Row>, y: seq<real>, a: LoopState, b: LoopState, b': LoopState)
      requires LoopInv(y, a.labels, a.n, a.finished, a.heap)
      requires PassStep(X, y, a, b) && PassStep(X, y, a, b')
      ensures b == b'
    {
      var k :| Least(a.heap, k) && b == Next(X, y, a, k);
      var k' :| Least(a.heap, k') && b' == Next(X, y, a, k');
      LeastUnique(y, a.labels, a.n, a.finished, a.heap, k, k');
    }

    /** Two runs on the same data agree at every pass both reach, in a state satisfying the loop invariant. */
    lemma {:induction false} RunPrefixAgree(X: seq<Row>, y: seq<real>, t1: seq<LoopState>, t2: seq<LoopState>, i: nat)
      requires Configured() && |X| == |y| > 0
      requires IsRun(X, y, t1) && IsRun(X, y, t2) && i < |t1| && i < |t2|
      ensures t1[i] == t2[i]
      ensures LoopInv(y, t1[i].labels, t1[i].n, t1[i].finished, t1[i].heap)
    {
      if i == 0 {
        InitialInvariant(y, Start(|X|).labels);
      } else {
        RunPrefixAgree(X, y, t1, t2, i - 1);
        assert PassStep(X, y, t1[i - 1], t1[i]) && PassStep(X, y, t2[i - 1], t2[i]);
        PassStepFunctional(X, y, t1[i - 1], t1[i], t2[i]);
        PassStepKeepsInvariant(X, y, t1[i - 1], t1[i]);
      }
    }

    /** No run goes on past a complete one: at its end either `nIter` passes are done or the heap is empty. */
    lemma RunNotLonger(X: seq<Row>, y: seq<real>, t1: seq<LoopState>, t2: seq<LoopState>)
      requires Configured() && |X| == |y| > 0
      requires IsRun(X, y, t1) && Complete(t1) && IsRun(X, y, t2) && |t2| - 1 <= nIter
      ensures |t2| <= |t1|
    {
      if |t1| < |t2| {
        var m := |t1| - 1;
        PassNeedsOpenCluster(X, y, t2[m], t2[m + 1]);
        RunPrefixAgree(X, y, t1, t2, m);
      }
    }

    /** `fit`'s loop is deterministic: given the data and the oracle, there is one complete run. */
    lemma RunDeterministic(X: seq<Row>, y: seq<real>, t1: seq<LoopState>, t2: seq<LoopState>)
      requires Configured() && |X| == |y| > 0
      requires IsRun(X, y, t1) && Complete(t1) && IsRun(X, y, t2) && Complete(t2)
      ensures t1 == t2
    {
      RunNotLonger(X, y, t1, t2);
      RunNotLonger(X, y, t2, t1);
      forall i | 0 <= i < |t1|
        ensures t1[i] == t2[i]
      {
        RunPrefixAgree(X, y, t1, t2, i);
      }
    }

    /**
     * What holds after `t` passes of the loop, in state `s`: the passes so
     * far form a run ending in `s`; `s` keeps the loop invariant; each pass
     * added a cluster or finished one; and from the first pass on there are
     * two clusters or more exactly when the first cut fits, with the heap
     * empty otherwise.
     */
    ghost predicate Progress(X: seq<Row>, y: seq<real>, t: nat, trace: seq<LoopState>, s: LoopState)
    {
      && Configured() && |X| == |y| == |s.labels|
      && IsRun(X, y, trace) && |trace| == t + 1 && trace[t] == s
      && LoopInv(y, s.labels, s.n, s.finished, s.heap)
      && 1 <= s.n <= t + 1 && (s.n - 1) + |s.finished| == t
      && (t == 0 ==> s == Start(|X|))
      && (t >= 1 ==> (s.n >= 2 <==> FirstSplitFits(X)))
      && (t >= 1 && s.n == 1 ==> s.heap == [])
    }

    /**
     * Pass `t` of `fit`'s loop: `heappop` takes the least entry, the most
     * dispersed open cluster, and `Iterate` tries to split it. The pass
     * extends the run by one `PassStep` from the old state; `PassIsNext`
     * shows the new state is `Next` of the old one at that entry.
     */
    method Pass(X: seq<Row>, y: seq<real>, work: array<nat>, t: nat, n: nat, finished: seq<Finished>, heap: seq<Candidate>,
                ghost trace: seq<LoopState>)
      returns (k: nat, nOut: nat, finishedOut: seq<Finished>, heapOut: seq<Candidate>, ghost traceOut: seq<LoopState>)
      requires |X| == work.Length && heap != []
      requires Progress(X, y, t, trace, LoopState(work[..], n, finished, heap))
      modifies work
      ensures Least(heap, k)
      ensures traceOut == trace + [LoopState(work[..], nOut, finishedOut, heapOut)]
      ensures Progress(X, y, t + 1, traceOut, LoopState(work[..], nOut, finishedOut, heapOut))
    {
      k := PopIndex(heap);
      ghost var before := work[..];
      ghost var s0, s1;
      nOut, finishedOut, heapOut, s0, s1 := Iterate(X, y, work, n, finished, heap, k);
      ghost var after := LoopState(work[..], nOut, finishedOut, heapOut);
      PassKeepsGrowth(X, y, before, t, n, heap, k, s0, s1, nOut, heapOut);
      OutcomeIsNext(X, y, LoopState(before, n, finished, heap), k, s0, s1, after);
      RunExtend(X, y, trace, k, after);
      traceOut := trace + [after];
    }

    /**
     * What `Pass` ensures pins its new state down: it is `Next` of the old
     * state at the popped entry, the least one.
     */
    lemma PassIsNext(X: seq<Row>, y: seq<real>, t: nat, trace: seq<LoopState>, a: LoopState, k: nat, b: LoopState)
      requires Progress(X, y, t, trace, a) && Least(a.heap, k)
      requires Progress(X, y, t + 1, trace + [b], b)
      ensures b == Next(X, y, a, k)
    {
      var run := trace + [b];
      assert run[t] == a && run[t + 1] == b;
      assert PassStep(X, y, a, b);
      var k' :| Least(a.heap, k') && b == Next(X, y, a, k');
      LeastUnique(y, a.labels, a.n, a.finished, a.heap, k, k');
    }

    /** Before the first pass the run is the start state alone. */
    lemma InitialProgress(X: seq<Row>, y: seq<real>, trace: seq<LoopState>)
      requires Configured() && |X| == |y| > 0 && trace == [Start(|X|)]
      ensures Progress(X, y, 0, trace, Start(|X|))
    {
      InitialInvariant(y, Start(|X|).labels);
    }

    /** What the loop leaves when it stops after `t` passes, because `t` reached `nIter` or the heap ran empty. */
    lemma LoopEnd(X: seq<Row>, y: seq<real>, t: nat, trace: seq<LoopState>, s: LoopState)
      requires Progress(X, y, t, trace, s) && t <= nIter && (t == nIter || s.heap == [])
      ensures IsRun(X, y, trace) && Complete(trace) && trace[|trace| - 1] == s
      ensures LoopInv(y, s.labels, s.n, s.finished, s.heap)
      ensures 1 <= s.n <= nIter + 1
      ensures |s.finished| + |s.heap| == s.n
      ensures (s.n - 1) + |s.finished| <= nIter
      ensures s.heap == [] || (s.n - 1) + |s.finished| == nIter
      ensures nIter == 0 ==> s.n == 1 && s.finished == [] && s.heap == [Initial]
      ensures nIter >= 1 ==> (s.n >= 2 <==> FirstSplitFits(X))
    {
      assert |ClustersOf(s.finished) + LabelsOf(s.heap)| == s.n;
    }

    /**
     * The passes of `fit`'s loop, from the start state until `nIter`
     * passes were made or the heap ran empty; what they leave is the last
     * state of the run.
     */
    method RunPasses(X: seq<Row>, y: seq<real>)
      returns (l: seq<nat>, finished: seq<Finished>, heap: seq<Candidate>, ghost trace: seq<LoopState>)
      requires Configured() && |X| == |y| > 0
      modifies this`nClusters
      ensures 1 <= |trace| <= nIter + 1 && (|trace| - 1 == nIter || heap == [])
      ensures Progress(X, y, |trace| - 1, trace, LoopState(l, nClusters, finished, heap))
    {
      nClusters := 1;
      var work := new nat[|X|](_ => 0);
      finished, heap := [], [Initial];
      assert work[..] == Start(|X|).labels;
      trace := [Start(|X|)];
      InitialProgress(X, y, trace);
      var t := 0;
      while t < nIter
        invariant 0 <= t <= nIter
        invariant Progress(X, y, t, trace, LoopState(work[..], nClusters, finished, heap))
      {
        if heap == [] {
          break;
        }
        var k;
        k, nClusters, finished, heap, trace := Pass(X, y, work, t, nClusters, finished, heap, trace);
        t := t + 1;
      }
      l := work[..];
    }

    /**
     * `fit`'s loop on validated input: one cluster holding every point, then
     * passes until `nIter` splits were tried or no open cluster remains.
     * Each pass either adds a cluster or finishes one, so the clusters
     * added plus the clusters finished count the passes. With no pass the
     * whole dataset is still the only, open, entry; with at least one pass
     * there are two clusters or more exactly when the first split of the
     * whole dataset fits.
     */
    method Grow(X: seq<Row>, y: seq<real>)
      returns (l: seq<nat>, finished: seq<Finished>, heap: seq<Candidate>, ghost trace: seq<LoopState>)
      requires Configured() && |X| == |y| > 0
      modifies this`nClusters
      ensures IsRun(X, y, trace) && Complete(trace)
      ensures trace[|trace| - 1] == LoopState(l, nClusters, finished, heap)
      ensures LoopInv(y, l, nClusters, finished, heap)
      ensures 1 <= nClusters <= nIter + 1
      ensures |finished| + |heap| == nClusters
      ensures (nClusters - 1) + |finished| <= nIter
      ensures heap == [] || (nClusters - 1) + |finished| == nIter
      ensures nIter == 0 ==> nClusters == 1 && finished == [] && heap == [Initial]
      ensures nIter >= 1 ==> (nClusters >= 2 <==> FirstSplitFits(X))
    {
      l, finished, heap, trace := RunPasses(X, y);
      LoopEnd(X, y, |trace| - 1, trace, LoopState(l, nClusters, finished, heap));
    }

    /**
     * `labels` and the cluster count come from a complete run of the loop:
     * its last state has `n` clusters, `refused` finished and `open` still
     * open entries, and two points share a label in `labels` exactly when
     * they share one in that state.
     */
    ghost predicate FromRun(X: seq<Row>, y: seq<real>, trace: seq<LoopState>, labels: seq<nat>, n: nat, refused: nat, open: nat)
    {
      && IsRun(X, y, trace) && Complete(trace)
      && var last := trace[|trace| - 1];
         && last.n == n && |last.finished| == refused && |last.heap| == open
         && |last.labels| == |labels|
         && forall i, j :: 0 <= i < |labels| && 0 <= j < |labels| ==> (labels[i] == labels[j] <==> last.labels[i] == last.labels[j])
    }

    /** Renaming the clusters of the run's last state, as the ranking does, keeps the labelling the run produced. */
    lemma RunExplainsLabels(X: seq<Row>, y: seq<real>, trace: seq<LoopState>, l: seq<nat>, finished: seq<Finished>,
                            heap: seq<Candidate>, finalLabels: seq<nat>, n: nat)
      requires IsRun(X, y, trace) && Complete(trace)
      requires trace[|trace| - 1] == LoopState(l, n, finished, heap)
      requires |finalLabels| == |l|
      requires forall i, j :: 0 <= i < |l| && 0 <= j < |l| ==> (finalLabels[i] == finalLabels[j] <==> l[i] == l[j])
      ensures FromRun(X, y, trace, finalLabels, n, |finished|, |heap|)
    {
    }

    /**
     * `fit`. On accepted input it leaves at most `nIter + 1`
     * clusters, each nonempty, scored and ranked: final label `r` has the
     * `r`-th highest score, which is its discrimination score (or 0 when the
     * dataset was never split), and its centroid is the mean of its rows.
     */
    method Fit(X: seq<Row>, y: seq<real>)
      returns (err: Option<InputError>, ghost trace: seq<LoopState>, ghost refused: nat, ghost open: nat)
      requires Valid()
      modifies this
      ensures Valid()
      ensures err == CheckFitInput(X, y)
      ensures err.Some? ==> unchanged(this)
      ensures err.None? ==>
        && fitted && nFeatures == |X[0]|
        && 1 <= nClusters <= nIter + 1
        && (nIter == 0 ==> nClusters == 1)
        && |labels| == |X| && (forall i :: 0 <= i < |X| ==> labels[i] < nClusters)
        && (forall r :: 0 <= r < nClusters ==> r in labels)
        && |scores| == nClusters && NonIncreasing(scores)
        && (nClusters == 1 ==> scores == [0.0] && forall i :: 0 <= i < |X| ==> labels[i] == 0)
        && (nClusters >= 2 ==> forall r :: 0 <= r < nClusters ==>
              Proper(MemberMask(labels, r)) && scores[r] == DiscriminationScore(y, MemberMask(labels, r)))
        && (forall r :: 0 <= r < nClusters ==> GroupCount(labels, r) > 0)
        && (forall r, f :: 0 <= r < nClusters && 0 <= f < nFeatures ==> centroids[r][f] == GroupMean(X, labels, r, f))
        && (nIter >= 1 ==> (nClusters >= 2 <==> FirstSplitFits(X)))
        && (nClusters == 2 ==> scores[1] == -scores[0] && scores[0] >= 0.0)
        && refused + open == nClusters
        && nClusters - 1 + refused <= nIter
        && (open == 0 || nClusters - 1 + refused == nIter)
        && FromRun(X, y, trace, labels, nClusters, refused, open)
    {
      err, trace, refused, open := CheckFitInput(X, y), [], 0, 0;
      if err.Some? {
        return;
      }
      var l, finished, heap;
      l, finished, heap, trace := Grow(X, y);
      refused, open := |finished|, |heap|;
      var finalLabels, finalScores, cols := Conclude(X, y, l, nClusters, finished, heap);
      RunExplainsLabels(X, y, trace, l, finished, heap, finalLabels, nClusters);
      if nClusters == 2 {
        TwoClustersOpposite(y, finalLabels, finalScores);
      }
      labels, scores, centroids, nFeatures, fitted := finalLabels, finalScores, cols, |X[0]|, true;
    }

    /** The errors of `predict`: validation, then the fitted state is needed, then matching widths. */
    function PredictError(Xq: seq<Row>): (err: Option<InputError>)
      reads this
      ensures err.None? <==> |Xq| > 0 && |Xq[0]| > 0 && Rectangular(Xq, |Xq[0]|) && fitted && |Xq[0]| == nFeatures
      ensures err == Some(NotFitted) <==> CheckQuery(Xq).None? && !fitted
      ensures err == Some(DimensionMismatch) <==> CheckQuery(Xq).None? && fitted && |Xq[0]| != nFeatures
    {
      if CheckQuery(Xq).Some? then CheckQuery(Xq)
      else if !fitted then Some(NotFitted)
      else if |Xq[0]| != nFeatures then Some(DimensionMismatch)
      else None
    }

    /**
     * `predict`: every query row gets the index of its
     * nearest centroid, the first one among equally near centroids. The
     * fitted state is left as it is.
     */
    method Predict(Xq: seq<Row>) returns (r: Result<seq<nat>, InputError>)
      requires Valid()
      ensures r.Failure? <==> PredictError(Xq).Some?
      ensures r.Failure? ==> r.error == PredictError(Xq).value
      ensures r.Success? ==> |Xq| > 0 && fitted && Rectangular(Xq, nFeatures)
      ensures r.Success? ==>
        && |r.value| == |Xq|
        && forall i :: 0 <= i < |Xq| ==> r.value[i] < nClusters && IsNearest(Xq[i], centroids, r.value[i])
    {
      var err := PredictError(Xq);
      if err.Some? {
        return Failure(err.value);
      }
      var nearest := NearestCentroids(Xq, centroids, nFeatures);
      return Success(nearest);
    }
  }
}

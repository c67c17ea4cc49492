/**
 * Finalisation of a fit: the finished clusters are ranked by decreasing
 * discrimination score and the labels are renamed so that a cluster's
 * rank is its final label.
 */
module Ranking {

  import opened Permutation

  /** A cluster removed from further splitting, with its label and score. */
  datatype Finished = Finished(cluster: nat, score: real)

  function ClustersOf(fs: seq<Finished>): (r: seq<nat>)
    ensures |r| == |fs|
    ensures forall j :: 0 <= j < |fs| ==> r[j] == fs[j].cluster
  {
    seq(|fs|, j requires 0 <= j < |fs| => fs[j].cluster)
  }

  function ScoresOf(fs: seq<Finished>): (r: seq<real>)
    ensures |r| == |fs|
    ensures forall j :: 0 <= j < |fs| ==> r[j] == fs[j].score
  {
    seq(|fs|, j requires 0 <= j < |fs| => fs[j].score)
  }

  predicate NonIncreasing(s: seq<real>)
  {
    forall i, j :: 0 <= i < j < |s| ==> s[i] >= s[j]
  }

  /** Removing the entry at `k` removes exactly its label. */
  lemma ClustersOfRemove(pool: seq<Finished>, k: nat)
    requires k < |pool|
    ensures multiset(ClustersOf(pool[..k] + pool[k + 1..])) + multiset{pool[k].cluster} == multiset(ClustersOf(pool))
  {
    var cs := ClustersOf(pool);
    assert ClustersOf(pool[..k] + pool[k + 1..]) == cs[..k] + cs[k + 1..];
    assert cs == cs[..k] + [cs[k]] + cs[k + 1..];
  }

  /** Order seen so far: `ranked` is non-increasing and no entry of `pool` outranks it. */
  predicate RankedBefore(ranked: seq<Finished>, pool: seq<Finished>)
  {
    && NonIncreasing(ScoresOf(ranked))
    && forall i, j :: 0 <= i < |ranked| && 0 <= j < |pool| ==> ranked[i].score >= pool[j].score
  }

  /** Moving a highest-scoring entry of the pool to the end of the ranking keeps both invariants. */
  lemma MoveBest(ranked: seq<Finished>, pool: seq<Finished>, k: nat)
    requires k < |pool| && RankedBefore(ranked, pool)
    requires forall j :: 0 <= j < |pool| ==> pool[j].score <= pool[k].score
    ensures RankedBefore(ranked + [pool[k]], pool[..k] + pool[k + 1..])
    ensures multiset(ranked + [pool[k]]) + multiset(pool[..k] + pool[k + 1..]) == multiset(ranked) + multiset(pool)
    ensures multiset(ClustersOf(ranked + [pool[k]])) + multiset(ClustersOf(pool[..k] + pool[k + 1..]))
         == multiset(ClustersOf(ranked)) + multiset(ClustersOf(pool))
  {
    var best, rest := pool[k], pool[..k] + pool[k + 1..];
    assert pool == pool[..k] + [best] + pool[k + 1..];
    ClustersOfRemove(pool, k);
    assert ClustersOf(ranked + [best]) == ClustersOf(ranked) + [best.cluster];
    assert ScoresOf(ranked + [best]) == ScoresOf(ranked) + [best.score];
    forall j | 0 <= j < |rest|
      ensures rest[j] in pool
    {
      if j < k { assert rest[j] == pool[j]; } else { assert rest[j] == pool[j + 1]; }
    }
  }

  /** Position of a highest-scoring finished cluster. */
  method MaxScoreIndex(pool: seq<Finished>) returns (k: nat)
    requires |pool| > 0
    ensures k < |pool|
    ensures forall j :: 0 <= j < |pool| ==> pool[j].score <= pool[k].score
  {
    k := 0;
    for i := 1 to |pool|
      invariant k < |pool|
      invariant forall j :: 0 <= j < i ==> pool[j].score <= pool[k].score
    {
      if pool[i].score > pool[k].score {
        k := i;
      }
    }
  }

  /**
   * The finished clusters reordered by decreasing score (the ordering
   * `argsort(-scores)` yields; the relative order of equal scores is not
   * promised).
   */
  method SortByScoreDescending(fs: seq<Finished>) returns (ranked: seq<Finished>)
    ensures multiset(ranked) == multiset(fs)
    ensures multiset(ClustersOf(ranked)) == multiset(ClustersOf(fs))
    ensures |ranked| == |fs|
    ensures NonIncreasing(ScoresOf(ranked))
  {
    ranked := [];
    var pool := fs;
    while pool != []
      invariant multiset(ranked) + multiset(pool) == multiset(fs)
      invariant multiset(ClustersOf(ranked)) + multiset(ClustersOf(pool)) == multiset(ClustersOf(fs))
      invariant RankedBefore(ranked, pool)
      decreases |pool|
    {
      var k := MaxScoreIndex(pool);
      MoveBest(ranked, pool, k);
      ranked := ranked + [pool[k]];
      pool := pool[..k] + pool[k + 1..];
    }
    assert |multiset(ranked)| == |multiset(fs)|;
  }

  /**
   * The relabelling `mapping[clusters] = arange(n)`: the cluster ranked
   * `r` gets final label `r`. It is the inverse of the ranking.
   */
  method RankMapping(clusters: seq<nat>, n: nat) returns (mapping: seq<nat>)
    requires IsPermutation(clusters, n)
    ensures |mapping| == n
    ensures forall r :: 0 <= r < n ==> mapping[clusters[r]] == r
    ensures forall k :: 0 <= k < n ==> mapping[k] < n && clusters[mapping[k]] == k
    ensures Distinct(mapping)
  {
    PermutationFacts(clusters, n);
    var a := new nat[n](_ => 0);
    for r := 0 to n
      invariant forall q :: 0 <= q < r ==> a[clusters[q]] == q
    {
      a[clusters[r]] := r;
    }
    mapping := a[..];
    forall k | 0 <= k < n
      ensures mapping[k] < n && clusters[mapping[k]] == k
    {
      assert k in clusters;
      var q :| 0 <= q < n && clusters[q] == k;
      assert mapping[k] == q;
    }
  }

  /**
   * Ranks the finished clusters by decreasing score and renames every
   * point's label to its cluster's rank.
   */
  method Finalise(labels: seq<nat>, finished: seq<Finished>, n: nat)
    returns (finalLabels: seq<nat>, ranked: seq<Finished>, mapping: seq<nat>)
    requires IsPermutation(ClustersOf(finished), n)
    requires forall i :: 0 <= i < |labels| ==> labels[i] < n
    ensures multiset(ranked) == multiset(finished) && |ranked| == n
    ensures NonIncreasing(ScoresOf(ranked))
    ensures n > 0 ==> forall j :: 0 <= j < |finished| ==> finished[j].score <= ranked[0].score
    ensures |mapping| == n && Distinct(mapping)
    ensures forall k :: 0 <= k < n ==> mapping[k] < n
    ensures |finalLabels| == |labels|
    ensures forall i :: 0 <= i < |labels| ==> finalLabels[i] == mapping[labels[i]] && finalLabels[i] < n
    ensures forall i, r :: 0 <= i < |labels| && 0 <= r < n ==>
      (finalLabels[i] == r <==> labels[i] == ranked[r].cluster)
  {
    ranked := SortByScoreDescending(finished);
    var clusters := ClustersOf(ranked);
    PermutationReordered(ClustersOf(finished), clusters, n);
    mapping := RankMapping(clusters, n);
    PermutationFacts(clusters, n);
    var out := new nat[|labels|];
    for i := 0 to |labels|
      invariant forall p :: 0 <= p < i ==> out[p] == mapping[labels[p]]
    {
      out[i] := mapping[labels[i]];
    }
    finalLabels := out[..];
    if n > 0 {
      forall j | 0 <= j < |finished|
        ensures finished[j].score <= ranked[0].score
      {
        assert finished[j] in multiset(ranked);
        var q :| 0 <= q < |ranked| && ranked[q] == finished[j];
        assert q == 0 || ScoresOf(ranked)[0] >= ScoresOf(ranked)[q];
      }
    }
  }
}

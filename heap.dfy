/**
 * The priority queue of open clusters. An entry is `(key, label, score)`
 * and the queue pops the entry that is least in the lexicographic order of
 * these triples, as Python's `heapq` does with tuples. The key of a pushed
 * entry is its side's dispersion negated, so the most dispersed open
 * cluster comes out first. The whole-dataset entry carries no dispersion
 * (`Unranked`, Python's `None`); Python cannot compare `None` with a
 * number, but that comparison never arises, because that entry is only
 * ever on the heap alone. The order below puts it first, which is
 * consistent with every run.
 */
module ClusterHeap {

  import opened Ranking

  datatype Key = Unranked | NegDispersion(v: real)

  datatype Candidate = Candidate(key: Key, cluster: nat, score: real)

  /** Strict order on keys: `Unranked` first, then by increasing value. */
  predicate KeyLess(a: Key, b: Key)
  {
    (a.Unranked? && b.NegDispersion?) || (a.NegDispersion? && b.NegDispersion? && a.v < b.v)
  }

  /** Lexicographic order on `(key, label, score)`: `a` may be popped before `b`. */
  predicate Precedes(a: Candidate, b: Candidate)
  {
    KeyLess(a.key, b.key)
    || (a.key == b.key && (a.cluster < b.cluster || (a.cluster == b.cluster && a.score <= b.score)))
  }

  lemma PrecedesTotal(a: Candidate, b: Candidate)
    ensures Precedes(a, b) || Precedes(b, a)
  {
  }

  lemma PrecedesTransitive(a: Candidate, b: Candidate, c: Candidate)
    requires Precedes(a, b) && Precedes(b, c)
    ensures Precedes(a, c)
  {
  }

  /** Two entries that may each be popped before the other are the same entry. */
  lemma PrecedesAntisymmetric(a: Candidate, b: Candidate)
    requires Precedes(a, b) && Precedes(b, a)
    ensures a == b
  {
  }

  /** The entry at position `k` is the one `heappop` takes: it precedes every entry. */
  predicate Least(heap: seq<Candidate>, k: nat)
  {
    k < |heap| && forall j :: 0 <= j < |heap| ==> Precedes(heap[k], heap[j])
  }

  /** The queue without its entry at position `k`. */
  function Remove(heap: seq<Candidate>, k: nat): (r: seq<Candidate>)
    requires k < |heap|
    ensures |r| == |heap| - 1
    ensures multiset(r) + multiset{heap[k]} == multiset(heap)
  {
    assert heap == heap[..k] + [heap[k]] + heap[k + 1..];
    heap[..k] + heap[k + 1..]
  }

  /** The entries after position `k` move down by one. */
  lemma RemoveIndex(heap: seq<Candidate>, k: nat, j: nat)
    requires k < |heap| && j < |heap| - 1
    ensures Remove(heap, k)[j] == if j < k then heap[j] else heap[j + 1]
  {
  }

  /** The entries in the finished form, as `fit` appends their labels and scores after the loop. */
  function AsFinished(heap: seq<Candidate>): (fs: seq<Finished>)
    ensures |fs| == |heap|
    ensures forall j :: 0 <= j < |heap| ==> fs[j] == Finished(heap[j].cluster, heap[j].score)
  {
    seq(|heap|, j requires 0 <= j < |heap| => Finished(heap[j].cluster, heap[j].score))
  }

  /** Labels of the entries in queue order. */
  function LabelsOf(heap: seq<Candidate>): (r: seq<nat>)
    ensures |r| == |heap|
    ensures forall j :: 0 <= j < |heap| ==> r[j] == heap[j].cluster
  {
    ClustersOf(AsFinished(heap))
  }

  /** Removing the entry at `k` removes exactly its label from the labels of the queue. */
  lemma LabelsOfRemove(heap: seq<Candidate>, k: nat)
    requires k < |heap|
    ensures multiset(LabelsOf(Remove(heap, k))) + multiset{heap[k].cluster} == multiset(LabelsOf(heap))
  {
    var fs := AsFinished(heap);
    assert AsFinished(Remove(heap, k)) == fs[..k] + fs[k + 1..];
    ClustersOfRemove(fs, k);
  }

  /**
   * The position of the entry `heappop` takes: the least entry, so the one
   * with the largest dispersion, the smaller label among equal
   * dispersions, and the `Unranked` entry whenever it is present.
   */
  method PopIndex(heap: seq<Candidate>) returns (k: nat)
    requires |heap| > 0
    ensures k < |heap|
    ensures forall j :: 0 <= j < |heap| ==> Precedes(heap[k], heap[j])
    ensures forall j :: 0 <= j < |heap| && heap[j].key.Unranked? ==> heap[k].key.Unranked?
    ensures forall j :: 0 <= j < |heap| && heap[k].key.NegDispersion? && heap[j].key.NegDispersion? ==>
      heap[k].key.v <= heap[j].key.v
    ensures forall j :: 0 <= j < |heap| && heap[j].key == heap[k].key ==> heap[k].cluster <= heap[j].cluster
  {
    k := 0;
    var i := 1;
    while i < |heap|
      invariant 0 <= k < i <= |heap|
      invariant forall j :: 0 <= j < i ==> Precedes(heap[k], heap[j])
    {
      if !Precedes(heap[k], heap[i]) {
        forall j | 0 <= j < i
          ensures Precedes(heap[i], heap[j])
        {
          PrecedesTotal(heap[k], heap[i]);
          PrecedesTransitive(heap[i], heap[k], heap[j]);
        }
        k := i;
      }
      i := i + 1;
    }
  }
}

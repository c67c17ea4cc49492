/**
 * Permutations of the labels `0 .. n-1`, stated through multisets so that
 * moving a label between the open and the finished clusters is a plain
 * multiset identity, and turned into the index facts the relabelling needs.
 */
module Permutation {

  /** The labels `0, 1, ..., n-1` in order. */
  function Range(n: nat): (r: seq<nat>)
    ensures |r| == n
    ensures forall i :: 0 <= i < n ==> r[i] == i
  {
    seq(n, i => i)
  }

  /** `s` holds each of the labels `0 .. n-1` exactly once. */
  ghost predicate IsPermutation(s: seq<nat>, n: nat)
  {
    && |s| == n
    && (forall i :: 0 <= i < |s| ==> s[i] < n)
    && multiset(s) == multiset(Range(n))
  }

  /** No label occurs twice. */
  predicate Distinct(s: seq<nat>)
  {
    forall i, j :: 0 <= i < j < |s| ==> s[i] != s[j]
  }

  /** Every label below `n` occurs once in `Range(n)`, and no other. */
  lemma {:induction false} RangeMultiplicity(n: nat, v: nat)
    ensures multiset(Range(n))[v] == if v < n then 1 else 0
  {
    if n > 0 {
      assert Range(n) == Range(n - 1) + [n - 1];
      RangeMultiplicity(n - 1, v);
      if v == n - 1 {
        RangeMultiplicity(n - 1, n - 1);
      }
    }
  }

  /** A permutation of `0 .. n-1` covers every label and repeats none. */
  lemma PermutationFacts(s: seq<nat>, n: nat)
    requires IsPermutation(s, n)
    ensures forall k :: 0 <= k < n ==> k in s
    ensures Distinct(s)
  {
    forall k | 0 <= k < n
      ensures k in s
    {
      RangeMultiplicity(n, k);
      assert k in multiset(s);
    }
    forall i, j | 0 <= i < j < |s|
      ensures s[i] != s[j]
    {
      if s[i] == s[j] {
        var v := s[j];
        assert s == s[..j] + [v] + s[j + 1..];
        assert s[..j][i] == v;
        assert multiset(s)[v] >= 2;
        RangeMultiplicity(n, v);
        assert false;
      }
    }
  }

  /** Reordering a permutation gives a permutation. */
  lemma PermutationReordered(s: seq<nat>, t: seq<nat>, n: nat)
    requires IsPermutation(s, n) && multiset(t) == multiset(s)
    ensures IsPermutation(t, n)
  {
    assert |t| == |multiset(t)| == |multiset(s)| == |s|;
    forall i | 0 <= i < |t|
      ensures t[i] < n
    {
      assert t[i] in multiset(s);
    }
  }

  /** Adding the fresh label `n` to a permutation of `0 .. n-1` gives one of `0 .. n`. */
  lemma PermutationExtend(s: seq<nat>, n: nat)
    requires IsPermutation(s, n)
    ensures IsPermutation(s + [n], n + 1)
  {
    assert Range(n + 1) == Range(n) + [n];
    assert multiset(s + [n]) == multiset(s) + multiset{n};
  }

  /**
   * Replacing a label `c` of a permutation of `0 .. n-1` by itself and the
   * fresh label `n`, at the end, gives a permutation of `0 .. n`.
   */
  lemma PermutationSplitLabel(front: seq<nat>, back: seq<nat>, rest: seq<nat>, c: nat, n: nat)
    requires IsPermutation(front + back, n)
    requires multiset(rest) + multiset{c} == multiset(back)
    ensures IsPermutation(front + rest + [c, n], n + 1)
  {
    var s := front + back;
    PermutationExtend(s, n);
    assert multiset(front + rest + [c, n]) == multiset(front) + (multiset(rest) + multiset{c}) + multiset{n};
    assert multiset(s + [n]) == multiset(front) + multiset(back) + multiset{n};
    PermutationReordered(s + [n], front + rest + [c, n], n + 1);
  }
}

/**
 * Outcome statistics over groups of points: means of the outcome metric
 * over a boolean selection mask, the discrimination score of a group
 * (formula (1) of Misztal-Radecka and Indurkhya, 2021) and the
 * within-group dispersion that orders the open clusters.
 *
 * A group is a mask over the whole dataset: `m[i]` holds when point `i`
 * belongs to the group.
 */
module Stats {

  /** Number of selected points. */
  function CountTrue(m: seq<bool>): (c: nat)
    ensures c <= |m|
  {
    if m == [] then 0 else (if m[0] then 1 else 0) + CountTrue(m[1..])
  }

  /** Sum of the outcome over the selected points. */
  function SumWhere(y: seq<real>, m: seq<bool>): real
    requires |y| == |m|
  {
    if m == [] then 0.0 else (if m[0] then y[0] else 0.0) + SumWhere(y[1..], m[1..])
  }

  /** Mean of the outcome over a nonempty selection. */
  function MeanWhere(y: seq<real>, m: seq<bool>): real
    requires |y| == |m| && CountTrue(m) > 0
  {
    SumWhere(y, m) / CountTrue(m) as real
  }

  /** The complementary selection: every point not in `m`. */
  function Not(m: seq<bool>): (r: seq<bool>)
    ensures |r| == |m|
    ensures forall i :: 0 <= i < |m| ==> r[i] == !m[i]
  {
    seq(|m|, i requires 0 <= i < |m| => !m[i])
  }

  /** The selection of the points `0 .. n-1` whose index is listed in `side`. */
  function Mask(n: nat, side: seq<nat>): (r: seq<bool>)
    ensures |r| == n
    ensures forall i :: 0 <= i < n ==> (r[i] <==> i in side)
  {
    seq(n, i => i in side)
  }

  /** Both a group and the rest of the dataset are nonempty. */
  predicate Proper(m: seq<bool>)
  {
    CountTrue(m) > 0 && CountTrue(Not(m)) > 0
  }

  /** Every point of a dataset of `n` points. */
  function Full(n: nat): (r: seq<bool>)
    ensures |r| == n && CountTrue(r) == n
  {
    if n == 0 then [] else [true] + Full(n - 1)
  }

  /**
   * Discrimination score of a group: mean outcome of the rest of the
   * dataset minus mean outcome of the group. It is positive exactly when
   * the group's mean outcome is below the whole dataset's, and zero
   * exactly when the two are equal.
   */
  function DiscriminationScore(y: seq<real>, inside: seq<bool>): (r: real)
    requires |y| == |inside| && Proper(inside)
    ensures r > 0.0 <==> MeanWhere(y, inside) < MeanWhere(y, Full(|y|))
    ensures r == 0.0 <==> MeanWhere(y, inside) == MeanWhere(y, Full(|y|))
  {
    ScoreAgainstWhole(y, inside);
    MeanWhere(y, Not(inside)) - MeanWhere(y, inside)
  }

  /** A group's sum and the rest's sum add up to the whole dataset's. */
  lemma {:induction false} SumComplement(y: seq<real>, m: seq<bool>)
    requires |y| == |m|
    ensures SumWhere(y, m) + SumWhere(y, Not(m)) == SumWhere(y, Full(|y|))
  {
    if m != [] {
      SumComplement(y[1..], m[1..]);
      assert Not(m)[1..] == Not(m[1..]);
      assert Full(|y|)[1..] == Full(|y| - 1);
    }
  }

  /** Formula (1) restated against the whole dataset's mean. */
  lemma ScoreAgainstWhole(y: seq<real>, inside: seq<bool>)
    requires |y| == |inside| && Proper(inside)
    ensures var o, w, g := MeanWhere(y, Not(inside)), MeanWhere(y, Full(|y|)), MeanWhere(y, inside);
      && (o - g > 0.0 <==> g < w)
      && (o - g == 0.0 <==> g == w)
  {
    var s, t := SumWhere(y, inside), SumWhere(y, Not(inside));
    var c, q := CountTrue(inside) as real, CountTrue(Not(inside)) as real;
    SumComplement(y, inside);
    CountComplement(inside);
    DivideEqual(SumWhere(y, Full(|y|)), CountTrue(Full(|y|)) as real, s + t, c + q);
    MeanGap(s, t, c, q);
  }

  /**
   * The arithmetic behind `ScoreAgainstWhole`: with sums `s`, `t` over
   * `c` and `q` points, the second mean exceeds the first exactly when
   * the pooled mean does, and equals it exactly when the pooled mean does.
   */
  lemma MeanGap(s: real, t: real, c: real, q: real)
    requires c > 0.0 && q > 0.0
    ensures t / q - s / c > 0.0 <==> s / c < (s + t) / (c + q)
    ensures t / q - s / c == 0.0 <==> s / c == (s + t) / (c + q)
  {
    var n := c + q;
    var g, o, w := s / c, t / q, (s + t) / n;
    assert s == g * c;
    assert t == o * q;
    assert s + t == w * n;
    assert w * n == w * c + w * q;
    assert (w - g) * n == w * n - g * c - g * q;
    assert (w - g) * n == (o - g) * q;
    assert (w - g) * (n / q) == ((w - g) * n) / q;
    assert ((o - g) * q) / q == o - g;
    ProductPositive(w - g, n / q);
  }

  /** Equal numerators over equal denominators give equal quotients. */
  lemma DivideEqual(a: real, b: real, a': real, b': real)
    requires a == a' && b == b' && b != 0.0
    ensures a / b == a' / b'
  {
  }

  /** A positive factor keeps the sign of the other. */
  lemma ProductPositive(a: real, b: real)
    requires b > 0.0
    ensures a * b > 0.0 <==> a > 0.0
    ensures a * b == 0.0 <==> a == 0.0
  {
    if a > 0.0 {
      assert a * b > 0.0;
    } else if a < 0.0 {
      assert (-a) * b > 0.0;
    }
  }

  /** Sum of the squared deviations from `mu` over the selected points. */
  function SumSquaredDeviation(y: seq<real>, m: seq<bool>, mu: real): real
    requires |y| == |m|
  {
    if m == [] then 0.0
    else (if m[0] then (y[0] - mu) * (y[0] - mu) else 0.0) + SumSquaredDeviation(y[1..], m[1..], mu)
  }

  /**
   * Population variance of the outcome over a nonempty selection; the
   * heap key of an open cluster is its negation (the square root taken by
   * the standard deviation preserves the order).
   */
  function Variance(y: seq<real>, m: seq<bool>): (r: real)
    requires |y| == |m| && CountTrue(m) > 0
    ensures r >= 0.0
  {
    SumSquaredDeviationNonNegative(y, m, MeanWhere(y, m));
    SumSquaredDeviation(y, m, MeanWhere(y, m)) / CountTrue(m) as real
  }

  /** A selection that contains some point is nonempty. */
  lemma {:induction false} CountPositive(m: seq<bool>, j: nat)
    requires j < |m| && m[j]
    ensures CountTrue(m) > 0
  {
    if j > 0 {
      CountPositive(m[1..], j - 1);
    }
  }

  /** A nonempty selection contains some point. */
  lemma {:induction false} SelectedPoint(m: seq<bool>)
    requires CountTrue(m) > 0
    ensures exists j :: 0 <= j < |m| && m[j]
  {
    if !m[0] {
      SelectedPoint(m[1..]);
      var j :| 0 <= j < |m[1..]| && m[1..][j];
      assert m[j + 1];
    }
  }

  /** Counting a selection extended by one more point. */
  lemma {:induction false} CountAppend(m: seq<bool>, b: bool)
    ensures CountTrue(m + [b]) == CountTrue(m) + (if b then 1 else 0)
  {
    if m != [] {
      assert (m + [b])[1..] == m[1..] + [b];
      CountAppend(m[1..], b);
    }
  }

  /** Counting a selection and its complement gives every point once. */
  lemma {:induction false} CountComplement(m: seq<bool>)
    ensures CountTrue(m) + CountTrue(Not(m)) == |m|
  {
    if m != [] {
      CountComplement(m[1..]);
      assert Not(m)[1..] == Not(m[1..]);
    }
  }

  /**
   * When the two sides of a split cover the whole dataset (the first split
   * of the whole dataset), each side's score is the other's negated.
   */
  lemma ComplementScoresOpposite(y: seq<real>, inside: seq<bool>)
    requires |y| == |inside| && Proper(inside)
    ensures Not(Not(inside)) == inside && Proper(Not(inside))
    ensures DiscriminationScore(y, Not(inside)) == -DiscriminationScore(y, inside)
  {
    assert Not(Not(inside)) == inside;
  }

  /** `n` copies of `x` added up, which keeps the bounds below free of multiplication. */
  function Times(n: nat, x: real): real
  {
    if n == 0 then 0.0 else Times(n - 1, x) + x
  }

  lemma {:induction false} TimesIsProduct(n: nat, x: real)
    ensures Times(n, x) == n as real * x
  {
    if n > 0 {
      TimesIsProduct(n - 1, x);
      assert (n - 1) as real * x + x == n as real * x;
    }
  }

  /** Summing a bounded outcome over a selection of `c` points gives a sum between `c*lo` and `c*hi`. */
  lemma {:induction false} SumWithin(y: seq<real>, m: seq<bool>, lo: real, hi: real)
    requires |y| == |m|
    requires forall i :: 0 <= i < |m| && m[i] ==> lo <= y[i] <= hi
    ensures Times(CountTrue(m), lo) <= SumWhere(y, m) <= Times(CountTrue(m), hi)
  {
    if m != [] {
      SumWithin(y[1..], m[1..], lo, hi);
      assert Times(CountTrue(m), lo) == Times(CountTrue(m[1..]), lo) + (if m[0] then lo else 0.0);
      assert Times(CountTrue(m), hi) == Times(CountTrue(m[1..]), hi) + (if m[0] then hi else 0.0);
    }
  }

  /** The mean of a group lies between any lower and upper bound of its outcomes. */
  lemma MeanWithin(y: seq<real>, m: seq<bool>, lo: real, hi: real)
    requires |y| == |m| && CountTrue(m) > 0
    requires forall i :: 0 <= i < |m| && m[i] ==> lo <= y[i] <= hi
    ensures lo <= MeanWhere(y, m) <= hi
  {
    SumWithin(y, m, lo, hi);
    QuotientWithin(SumWhere(y, m), CountTrue(m), lo, hi);
  }

  /** Dividing a sum between `c*lo` and `c*hi` by the positive count `c`. */
  lemma QuotientWithin(s: real, c: nat, lo: real, hi: real)
    requires c > 0 && Times(c, lo) <= s <= Times(c, hi)
    ensures lo <= s / c as real <= hi
  {
    TimesIsProduct(c, lo);
    TimesIsProduct(c, hi);
    var q := s / c as real;
    assert q * c as real == s;
  }

  /** The sum of squared deviations is never negative. */
  lemma {:induction false} SumSquaredDeviationNonNegative(y: seq<real>, m: seq<bool>, mu: real)
    requires |y| == |m|
    ensures SumSquaredDeviation(y, m, mu) >= 0.0
  {
    if m != [] {
      SumSquaredDeviationNonNegative(y[1..], m[1..], mu);
      SquareNonNegative(y[0] - mu);
    }
  }

  /** The squared deviations of a group whose outcomes all equal `mu` sum to zero. */
  lemma {:induction false} SumSquaredDeviationConstant(y: seq<real>, m: seq<bool>, mu: real)
    requires |y| == |m|
    requires forall i :: 0 <= i < |m| && m[i] ==> y[i] == mu
    ensures SumSquaredDeviation(y, m, mu) == 0.0
  {
    if m != [] {
      SumSquaredDeviationConstant(y[1..], m[1..], mu);
    }
  }

  /** A product is zero only when a factor is. */
  lemma ProductZero(a: real, b: real)
    requires a * b == 0.0
    ensures a == 0.0 || b == 0.0
  {
  }

  /** A square is never negative, and it is positive for every nonzero value. */
  lemma SquareNonNegative(d: real)
    ensures d * d >= 0.0
    ensures d != 0.0 ==> d * d > 0.0
  {
    if d < 0.0 {
      var e := -d;
      assert d * d == e * e;
    }
  }

  /** A group whose outcome is constant has dispersion zero (the degenerate case is not a failure). */
  lemma ConstantGroupHasZeroVariance(y: seq<real>, m: seq<bool>, v: real)
    requires |y| == |m| && CountTrue(m) > 0
    requires forall i :: 0 <= i < |m| && m[i] ==> y[i] == v
    ensures MeanWhere(y, m) == v
    ensures Variance(y, m) == 0.0
  {
    MeanWithin(y, m, v, v);
    SumSquaredDeviationConstant(y, m, v);
  }
}

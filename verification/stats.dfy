/** Exact arithmetic for the summaries the scripts print: sums, means,
    population and sample variances over `real`, and a value that may be
    NaN. Square roots are not taken: a "std" of the source is modelled by
    the variance under it. */
module Stats {
  import opened Wrappers

  /** A float that is either NaN or a number. */
  datatype Num = NaN | Val(v: real)

  function Sum(xs: seq<real>): real
    decreases |xs|
  {
    if |xs| == 0 then 0.0 else Sum(xs[..|xs| - 1]) + xs[|xs| - 1]
  }

  function Mean(xs: seq<real>): real
    requires |xs| > 0
  {
    Sum(xs) / (|xs| as real)
  }

  /** `d * d`, named so that facts about a square stay facts about one term. */
  function Sq(d: real): (r: real)
    ensures r >= 0.0
  {
    d * d
  }

  /** Sum of squared deviations from `m`. */
  function SumSqDev(xs: seq<real>, m: real): (r: real)
    ensures r >= 0.0
    decreases |xs|
  {
    if |xs| == 0 then 0.0 else SumSqDev(xs[..|xs| - 1], m) + Sq(xs[|xs| - 1] - m)
  }

  function SumSq(xs: seq<real>): real
    decreases |xs|
  {
    if |xs| == 0 then 0.0 else SumSq(xs[..|xs| - 1]) + xs[|xs| - 1] * xs[|xs| - 1]
  }

  /** `np.std(xs) ** 2` (ddof = 0). */
  function PopVar(xs: seq<real>): (r: real)
    requires |xs| > 0
    ensures r >= 0.0
    ensures IsPopVar(xs, r)
  {
    ScaleBack(|xs| as real, SumSqDev(xs, Mean(xs)));
    SumSqDev(xs, Mean(xs)) / (|xs| as real)
  }

  lemma ScaleBack(n: real, w: real)
    requires n > 0.0
    ensures n * (w / n) == w
  {
  }

  /** `m` is the mean of `xs`: `count` times `m` is their sum. */
  predicate IsMean(xs: seq<real>, m: real)
  {
    |xs| > 0 && (|xs| as real) * m == Sum(xs)
  }

  /** `v` is the population variance of `xs`: the squared deviations from
      their mean add up to `count` times `v`. */
  predicate IsPopVar(xs: seq<real>, v: real)
  {
    |xs| > 0 && (|xs| as real) * v == SumSqDev(xs, Mean(xs))
  }

  /** `v` is the sample variance of `xs`: the squared deviations from their
      mean add up to `count - 1` times `v`. */
  predicate IsSampleVar(xs: seq<real>, v: real)
  {
    |xs| >= 2 && ((|xs| - 1) as real) * v == SumSqDev(xs, Mean(xs))
  }

  /** pandas' `std() ** 2` (ddof = 1): NaN below two values. */
  function SampleVar(xs: seq<real>): (r: Option<real>)
    ensures r.Some? <==> |xs| >= 2
    ensures r.Some? ==> r.value >= 0.0
    ensures r.Some? ==> IsSampleVar(xs, r.value)
  {
    if |xs| < 2 then None
    else
      ScaleBack((|xs| - 1) as real, SumSqDev(xs, Mean(xs)));
      Some(SumSqDev(xs, Mean(xs)) / ((|xs| - 1) as real))
  }

  /** A sum of terms in `[lo, hi]` lies between `n * lo` and `n * hi`. */
  lemma {:induction false} SumBounds(xs: seq<real>, lo: real, hi: real)
    requires forall i :: 0 <= i < |xs| ==> lo <= xs[i] <= hi
    ensures (|xs| as real) * lo <= Sum(xs) <= (|xs| as real) * hi
    decreases |xs|
  {
    if |xs| > 0 {
      var init := xs[..|xs| - 1];
      SumBounds(init, lo, hi);
      var n := |init| as real;
      assert (|xs| as real) * lo == n * lo + lo;
      assert (|xs| as real) * hi == n * hi + hi;
    }
  }

  /** The mean of values in `[lo, hi]` is in `[lo, hi]`. */
  lemma MeanBounds(xs: seq<real>, lo: real, hi: real)
    requires |xs| > 0
    requires forall i :: 0 <= i < |xs| ==> lo <= xs[i] <= hi
    ensures lo <= Mean(xs) <= hi
  {
    SumBounds(xs, lo, hi);
    var n := |xs| as real;
    assert Mean(xs) * n == Sum(xs);
  }

  /** Some deviation exactly when some value differs from `m`. */
  lemma {:induction false} SumSqDevPositive(xs: seq<real>, m: real)
    ensures SumSqDev(xs, m) > 0.0 <==> exists i :: 0 <= i < |xs| && xs[i] != m
    decreases |xs|
  {
    if |xs| > 0 {
      var init := xs[..|xs| - 1];
      SumSqDevPositive(init, m);
      var d := xs[|xs| - 1] - m;
      if d != 0.0 {
        SquarePositive(d);
        assert xs[|xs| - 1] != m;
      } else if exists i :: 0 <= i < |init| && init[i] != m {
        var i :| 0 <= i < |init| && init[i] != m;
        assert xs[i] == init[i];
      } else {
        assert forall i :: 0 <= i < |xs| - 1 ==> xs[i] == init[i];
      }
    }
  }

  lemma SquarePositive(d: real)
    requires d != 0.0
    ensures Sq(d) > 0.0
  {
    if d > 0.0 {
      PositiveSquare(d);
    } else {
      PositiveSquare(-d);
      assert Sq(d) == Sq(-d);
    }
  }

  lemma PositiveSquare(d: real)
    requires d > 0.0
    ensures Sq(d) > 0.0
  {
    var h := d / 2.0;
    assert d == h + h;
    assert Sq(d) == h * d + h * d;
    PositiveProduct(h, d);
  }

  lemma PositiveProduct(a: real, b: real)
    requires a > 0.0 && b > 0.0
    ensures a * b > 0.0
  {
  }

  /** No deviation at all exactly when every value equals `m`. */
  lemma SumSqDevZero(xs: seq<real>, m: real)
    ensures SumSqDev(xs, m) == 0.0 <==> forall i :: 0 <= i < |xs| ==> xs[i] == m
  {
    SumSqDevPositive(xs, m);
  }

  /** The sum of `n` copies of `c`. */
  lemma {:induction false} SumConst(xs: seq<real>, c: real)
    requires forall i :: 0 <= i < |xs| ==> xs[i] == c
    ensures Sum(xs) == (|xs| as real) * c
    decreases |xs|
  {
    if |xs| > 0 {
      SumConst(xs[..|xs| - 1], c);
    }
  }

  /** The population variance is zero exactly when all values are equal. */
  lemma PopVarZero(xs: seq<real>)
    requires |xs| > 0
    ensures PopVar(xs) == 0.0 <==> forall i :: 0 <= i < |xs| ==> xs[i] == xs[0]
  {
    SumSqDevZero(xs, Mean(xs));
    if forall i :: 0 <= i < |xs| ==> xs[i] == xs[0] {
      SumConst(xs, xs[0]);
      assert Mean(xs) == xs[0];
    }
  }

  /** A worked case: answers 5, 4, 3 have mean 4 and sample variance 1. */
  lemma MeanVarianceExample()
    ensures Mean([5.0, 4.0, 3.0]) == 4.0
    ensures SampleVar([5.0, 4.0, 3.0]) == Some(1.0)
  {
    var xs := [5.0, 4.0, 3.0];
    assert xs[..2] == [5.0, 4.0] && xs[..2][..1] == [5.0] && xs[..2][..1][..0] == [];
    assert Sum([5.0]) == 5.0;
    assert Sum([5.0, 4.0]) == 9.0;
    assert Sum(xs) == 12.0;
    assert SumSqDev([5.0], 4.0) == 1.0;
    assert SumSqDev([5.0, 4.0], 4.0) == 1.0;
    assert SumSqDev(xs, 4.0) == 2.0;
  }

  /** The numbers among `xs`, NaNs removed (`xs[~np.isnan(xs)]`). */
  function Valid(xs: seq<Num>): (r: seq<real>)
    ensures |r| <= |xs|
    decreases |xs|
  {
    if |xs| == 0 then []
    else
      var init := Valid(xs[..|xs| - 1]);
      match xs[|xs| - 1]
      case NaN => init
      case Val(v) => init + [v]
  }

  /** Filtering works block by block. */
  lemma {:induction false} ValidAppend(a: seq<Num>, b: seq<Num>)
    ensures Valid(a + b) == Valid(a) + Valid(b)
    decreases |b|
  {
    if |b| > 0 {
      assert (a + b)[..|a + b| - 1] == a + b[..|b| - 1];
      ValidAppend(a, b[..|b| - 1]);
    } else {
      assert a + b == a;
    }
  }

  function AllVals(xs: seq<real>): (r: seq<Num>)
    ensures |r| == |xs|
  {
    seq(|xs|, i requires 0 <= i < |xs| => Val(xs[i]))
  }

  /** Filtering a NaN-free sequence gives its numbers back. */
  lemma {:induction false} ValidAllVals(xs: seq<real>)
    ensures Valid(AllVals(xs)) == xs
    decreases |xs|
  {
    if |xs| > 0 {
      assert AllVals(xs)[..|xs| - 1] == AllVals(xs[..|xs| - 1]);
      ValidAllVals(xs[..|xs| - 1]);
    }
  }

  /** `np.mean` of a NaN-free array: NaN when it is empty. */
  function MeanOrNaN(xs: seq<real>): (r: Num)
    ensures r.NaN? <==> |xs| == 0
    ensures r.Val? ==> IsMean(xs, r.v)
  {
    if |xs| == 0 then NaN
    else
      ScaleBack(|xs| as real, Sum(xs));
      Val(Mean(xs))
  }

  /** `np.std(...) ** 2` of a NaN-free array: NaN when it is empty. */
  function PopVarOrNaN(xs: seq<real>): (r: Num)
    ensures r.NaN? <==> |xs| == 0
    ensures r.Val? ==> r.v >= 0.0
    ensures r.Val? ==> IsPopVar(xs, r.v)
  {
    if |xs| == 0 then NaN else Val(PopVar(xs))
  }

  /** `np.mean` of an array that may hold NaN: NaN propagates. */
  function MeanPropagating(xs: seq<Num>): (r: Num)
    ensures r.Val? <==> |xs| > 0 && |Valid(xs)| == |xs|
    ensures r.Val? ==> IsMean(Valid(xs), r.v)
  {
    if |xs| == 0 || |Valid(xs)| != |xs| then NaN
    else
      ScaleBack(|xs| as real, Sum(Valid(xs)));
      Val(Mean(Valid(xs)))
  }

  /** `np.std(...) ** 2` of an array that may hold NaN. */
  function PopVarPropagating(xs: seq<Num>): (r: Num)
    ensures r.Val? <==> |xs| > 0 && |Valid(xs)| == |xs|
    ensures r.Val? ==> r.v >= 0.0
    ensures r.Val? ==> IsPopVar(Valid(xs), r.v)
  {
    if |xs| == 0 || |Valid(xs)| != |xs| then NaN else Val(PopVar(Valid(xs)))
  }

  /** A sequence loses nothing under filtering exactly when it has no NaN. */
  lemma {:induction false} ValidKeepsAll(xs: seq<Num>)
    ensures |Valid(xs)| == |xs| <==> forall i :: 0 <= i < |xs| ==> xs[i].Val?
    decreases |xs|
  {
    if |xs| > 0 {
      var init := xs[..|xs| - 1];
      ValidKeepsAll(init);
      assert forall i :: 0 <= i < |init| ==> init[i] == xs[i];
    }
  }
}

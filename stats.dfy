/**
  The NaN-ignoring statistics of the outlier detector (`np.nanmean`,
  `np.nanstd` with its default of dividing by the sample count), over the
  present values of a window, and the z-score test stated without a square
  root.
 */
module Stats {

  function Sum(xs: seq<real>): real
  {
    if xs == [] then 0.0 else xs[0] + Sum(xs[1..])
  }

  function Mean(xs: seq<real>): real
    requires |xs| > 0
  {
    Sum(xs) / |xs| as real
  }

  /** Real product, kept as a function so that the solver treats squares as
      products of two factors. */
  function Product(a: real, b: real): real
  {
    a * b
  }

  function Square(x: real): real
  {
    Product(x, x)
  }

  /** Sum of squared deviations from `m`. */
  function SquaredDeviations(xs: seq<real>, m: real): (r: real)
    ensures r >= 0.0
  {
    if xs == [] then 0.0
    else
      SquarePositive(xs[0] - m);
      Square(xs[0] - m) + SquaredDeviations(xs[1..], m)
  }

  /** Population variance: the square of what `np.nanstd` returns. */
  function Variance(xs: seq<real>): (v: real)
    requires |xs| > 0
    ensures v >= 0.0
  {
    SquaredDeviations(xs, Mean(xs)) / |xs| as real
  }

  lemma {:induction false} ZeroSquaredDeviations(xs: seq<real>, m: real)
    requires SquaredDeviations(xs, m) == 0.0
    ensures forall x :: x in xs ==> x == m
  {
    if xs != [] {
      SquarePositive(xs[0] - m);
      ZeroSquaredDeviations(xs[1..], m);
      assert forall x :: x in xs ==> x == xs[0] || x in xs[1..];
    }
  }

  /** A zero spread means every value of the sample equals the mean. */
  lemma ZeroVarianceConstant(xs: seq<real>)
    requires |xs| > 0 && Variance(xs) == 0.0
    ensures forall x :: x in xs ==> x == Mean(xs)
  {
    ZeroSquaredDeviations(xs, Mean(xs));
  }

  lemma {:induction false} SumConstant(xs: seq<real>, c: real)
    requires forall x :: x in xs ==> x == c
    ensures Sum(xs) == |xs| as real * c
    ensures SquaredDeviations(xs, c) == 0.0
  {
    if xs != [] {
      assert xs[0] in xs;
      assert forall x :: x in xs[1..] ==> x in xs;
      SumConstant(xs[1..], c);
    }
  }

  /** A sample whose values are all `c` has mean `c` and spread zero. */
  lemma ConstantSample(xs: seq<real>, c: real)
    requires |xs| > 0
    requires forall x :: x in xs ==> x == c
    ensures Mean(xs) == c && Variance(xs) == 0.0
  {
    SumConstant(xs, c);
  }

  /** `d / s >= t` for the standard deviation `s`, stated through the
      variance `s * s` so that no square root is needed. Meaningful only for a
      positive variance. */
  predicate ZAtLeast(d: real, variance: real, t: real)
  {
    if t >= 0.0 then d >= 0.0 && Square(d) >= Square(t) * variance
    else d >= 0.0 || Square(d) <= Square(t) * variance
  }

  lemma ProductSign(x: real, y: real)
    requires y > 0.0
    ensures x > 0.0 ==> Product(x, y) > 0.0
    ensures x < 0.0 ==> Product(x, y) < 0.0
  {
  }

  lemma SquarePositive(x: real)
    ensures Square(x) >= 0.0
    ensures x != 0.0 ==> Square(x) > 0.0
  {
    if x < 0.0 {
      ProductSign(-x, -x);
      assert Product(-x, -x) == Product(x, x);
    } else if x > 0.0 {
      ProductSign(x, x);
    }
  }

  lemma SquareMonotone(a: real, b: real)
    requires a >= 0.0 && b >= 0.0
    ensures a >= b <==> Square(a) >= Square(b)
  {
    assert Square(a) - Square(b) == Product(a - b, a + b);
    if a > b {
      ProductSign(a - b, a + b);
    } else if a < b {
      ProductSign(a - b, a + b);
    }
  }

  lemma DivisionThreshold(d: real, s: real, t: real)
    requires s > 0.0
    ensures d / s >= t <==> d >= t * s
  {
    var q := d / s;
    assert q * s == d;
    assert Product(q - t, s) == q * s - t * s;
    ProductSign(q - t, s);
    if q == t {
      assert Product(q - t, s) == 0.0;
    }
  }

  /** For a non-negative bound `b`: `d >= 0 && d^2 >= b^2` exactly when `d >= b`. */
  lemma SquareTestNonNegative(d: real, b: real)
    requires b >= 0.0
    ensures (d >= 0.0 && Square(d) >= Square(b)) <==> d >= b
  {
    if d >= 0.0 {
      SquareMonotone(d, b);
    }
  }

  /** For a negative bound `b`: `d >= 0 || d^2 <= b^2` exactly when `d >= b`. */
  lemma SquareTestNegative(d: real, b: real)
    requires b < 0.0
    ensures (d >= 0.0 || Square(d) <= Square(b)) <==> d >= b
  {
    if d < 0.0 {
      SquareMonotone(-d, -b);
      assert Square(-d) == Square(d);
      assert Square(-b) == Square(b);
    }
  }

  lemma SquareOfProduct(t: real, s: real)
    ensures Square(t) * Square(s) == Square(t * s)
  {
  }

  /** The square-root-free test agrees with the z-score comparison
      `(v - mean) / std >= t` for every positive standard deviation `s`. */
  lemma ZAtLeastIsZScoreTest(d: real, s: real, t: real)
    requires s > 0.0
    ensures ZAtLeast(d, Square(s), t) <==> d / s >= t
  {
    DivisionThreshold(d, s, t);
    SquareOfProduct(t, s);
    if t >= 0.0 {
      assert t * s >= 0.0 by { ProductSign(t, s); }
      SquareTestNonNegative(d, t * s);
    } else {
      assert t * s < 0.0 by { ProductSign(t, s); }
      SquareTestNegative(d, t * s);
    }
  }
}

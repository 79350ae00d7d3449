/**
Do two suites share an air handler? (tools/correlate.py, pearson).

Arithmetic is over the reals, and the correlation coefficient is kept as its
square and its sign, which together determine it without a root.
*/
module Correlate {
  import opened Prelude
  import opened Reals

  // -------------------------------------------------------------------- sums

  function Sum(xs: seq<real>): real {
    if xs == [] then 0.0 else Sum(xs[..|xs| - 1]) + xs[|xs| - 1]
  }

  /** The sum of products, over pairs. */
  function Dot(xs: seq<real>, ys: seq<real>): real
    requires |xs| == |ys|
  {
    if xs == [] then 0.0 else Dot(xs[..|xs| - 1], ys[..|ys| - 1]) + Times(xs[|xs| - 1], ys[|ys| - 1])
  }

  function Mean(xs: seq<real>): real
    requires xs != []
  {
    Over(Sum(xs), |xs| as real)
  }

  function Minus(xs: seq<real>, m: real): (r: seq<real>)
    ensures |r| == |xs|
  {
    if xs == [] then [] else Minus(xs[..|xs| - 1], m) + [xs[|xs| - 1] - m]
  }

  /** k x + c, for every x. */
  function Affine(xs: seq<real>, k: real, c: real): (r: seq<real>)
    ensures |r| == |xs|
  {
    if xs == [] then [] else Affine(xs[..|xs| - 1], k, c) + [Times(k, xs[|xs| - 1]) + c]
  }

  function Scaled(xs: seq<real>, k: real): (r: seq<real>)
    ensures |r| == |xs|
  {
    if xs == [] then [] else Scaled(xs[..|xs| - 1], k) + [Times(k, xs[|xs| - 1])]
  }

  /** How far each value lies from the mean. */
  function Deviations(xs: seq<real>): (r: seq<real>)
    requires xs != []
    ensures |r| == |xs|
  {
    Minus(xs, Mean(xs))
  }

  // ------------------------------------------------------------- correlation

  /** r, as its square and whether it is negative. */
  datatype Coefficient = Coefficient(squared: real, negative: bool)

  /** The square of `statistics.stdev`. */
  function Variance(xs: seq<real>): real
    requires |xs| >= 2
  {
    Over(Dot(Deviations(xs), Deviations(xs)), (|xs| - 1) as real)
  }

  function Covariance(xs: seq<real>, ys: seq<real>): real
    requires |xs| == |ys| >= 2
  {
    Over(Dot(Deviations(xs), Deviations(ys)), (|xs| - 1) as real)
  }

  /** r from two variances and the covariance; None for a flat series. */
  function Combine(v: real, w: real, cov: real): Option<Coefficient>
    requires v >= 0.0 && w >= 0.0
  {
    if v == 0.0 || w == 0.0 then None else Some(Coefficient(Quotient(cov, v, w), cov < 0.0))
  }

  lemma {:induction false} DotNonNegative(xs: seq<real>)
    ensures Dot(xs, xs) >= 0.0
  {
    if xs != [] {
      DotNonNegative(xs[..|xs| - 1]);
      SquareSign(xs[|xs| - 1]);
    }
  }

  lemma {:induction false} VarianceNonNegative(xs: seq<real>)
    requires |xs| >= 2
    ensures Variance(xs) >= 0.0
  {
    DotNonNegative(Deviations(xs));
    OverSign(Dot(Deviations(xs), Deviations(xs)), (|xs| - 1) as real);
  }

  /** `pearson`: undefined for fewer than three pairs and for a flat series. */
  function Pearson(xs: seq<real>, ys: seq<real>): Option<Coefficient>
    requires |xs| == |ys|
  {
    if |xs| < 3 then None
    else
      VarianceNonNegative(xs);
      VarianceNonNegative(ys);
      Combine(Variance(xs), Variance(ys), Covariance(xs, ys))
  }

  /** Dividing by n - 1 throughout cancels: the three sums will do. */
  lemma {:induction false} SumsDivided(a: real, b: real, c: real, n: real)
    requires a >= 0.0 && b >= 0.0 && n > 0.0
    ensures Over(a, n) >= 0.0 && Over(b, n) >= 0.0 && Combine(Over(a, n), Over(b, n), Over(c, n)) == Combine(a, b, c)
  {
    OverSign(a, n);
    OverSign(b, n);
    OverSign(c, n);
    if a != 0.0 && b != 0.0 {
      OverInverse(a, n);
      OverInverse(b, n);
      OverInverse(c, n);
      QuotientScaled(c, a, b, Over(1.0, n), Over(1.0, n), Over(1.0, n));
    }
  }

  lemma {:induction false} InSums(xs: seq<real>, ys: seq<real>)
    requires |xs| == |ys| >= 3
    ensures Dot(Deviations(xs), Deviations(xs)) >= 0.0 && Dot(Deviations(ys), Deviations(ys)) >= 0.0
    ensures Pearson(xs, ys)
            == Combine(Dot(Deviations(xs), Deviations(xs)), Dot(Deviations(ys), Deviations(ys)), Dot(Deviations(xs), Deviations(ys)))
  {
    var dx, dy := Deviations(xs), Deviations(ys);
    DotNonNegative(dx);
    DotNonNegative(dy);
    SumsDivided(Dot(dx, dx), Dot(dy, dy), Dot(dx, dy), (|xs| - 1) as real);
  }

  // ---------------------------------------------------------- Cauchy-Schwarz

  lemma {:induction false} DotSymmetric(xs: seq<real>, ys: seq<real>)
    requires |xs| == |ys|
    ensures Dot(xs, ys) == Dot(ys, xs)
  {
    if xs != [] {
      DotSymmetric(xs[..|xs| - 1], ys[..|ys| - 1]);
      Commutes(xs[|xs| - 1], ys[|ys| - 1]);
    }
  }

  /** The sum of the squares of y - t x. */
  function Residual(xs: seq<real>, ys: seq<real>, t: real): real
    requires |xs| == |ys|
  {
    if xs == [] then 0.0
    else Residual(xs[..|xs| - 1], ys[..|ys| - 1], t) + Square(ys[|ys| - 1] - Times(t, xs[|xs| - 1]))
  }

  lemma {:induction false} ResidualExpands(xs: seq<real>, ys: seq<real>, t: real)
    requires |xs| == |ys|
    ensures Residual(xs, ys, t) == Quadratic(Dot(xs, xs), Dot(ys, ys), Dot(xs, ys), t)
  {
    if xs == [] {
      Units(t);
      Units(Square(t));
    } else {
      var xi, yi := xs[..|xs| - 1], ys[..|ys| - 1];
      var x, y := xs[|xs| - 1], ys[|ys| - 1];
      ResidualExpands(xi, yi, t);
      Expand(x, y, t);
      Collect(Dot(xi, xi), Dot(yi, yi), Dot(xi, yi), t, Square(x), Square(y), Times(x, y));
    }
  }

  lemma {:induction false} SnocEqual(a: seq<real>, b: seq<real>, x: real, y: real)
    requires |a| == |b|
    ensures a + [x] == b + [y] <==> a == b && x == y
  {
    if a + [x] == b + [y] {
      assert (a + [x])[..|a|] == a && (b + [y])[..|b|] == b;
      assert (a + [x])[|a|] == x && (b + [y])[|b|] == y;
    }
  }

  /** No residual: every y is t x. */
  lemma {:induction false} NoResidual(xs: seq<real>, ys: seq<real>, t: real)
    requires |xs| == |ys|
    ensures Residual(xs, ys, t) >= 0.0
    ensures Residual(xs, ys, t) == 0.0 <==> ys == Scaled(xs, t)
  {
    if xs != [] {
      var n := |xs| - 1;
      NoResidual(xs[..n], ys[..n], t);
      SquareSign(ys[n] - Times(t, xs[n]));
      assert ys == ys[..n] + [ys[n]];
      SnocEqual(ys[..n], Scaled(xs[..n], t), ys[n], Times(t, xs[n]));
    }
  }

  /** (sum xy) squared is at most (sum xx)(sum yy), with equality exactly when every y is the same multiple of x. */
  lemma {:induction false} CauchySchwarz(xs: seq<real>, ys: seq<real>)
    requires |xs| == |ys| && Dot(xs, xs) > 0.0
    ensures Square(Dot(xs, ys)) <= Times(Dot(xs, xs), Dot(ys, ys))
    ensures Square(Dot(xs, ys)) == Times(Dot(xs, xs), Dot(ys, ys)) <==> ys == Scaled(xs, Slope(Dot(xs, ys), Dot(xs, xs)))
  {
    var t := Slope(Dot(xs, ys), Dot(xs, xs));
    NoResidual(xs, ys, t);
    ResidualExpands(xs, ys, t);
    Discriminant(Dot(xs, xs), Dot(ys, ys), Dot(xs, ys));
  }

  // ------------------------------------------------- what the coefficient says

  /** The square of the coefficient is at most one. */
  lemma {:induction false} SquaredAtMostOne(xs: seq<real>, ys: seq<real>)
    requires |xs| == |ys| && Pearson(xs, ys).Some?
    ensures 0.0 <= Pearson(xs, ys).value.squared <= 1.0
  {
    InSums(xs, ys);
    var dx, dy := Deviations(xs), Deviations(ys);
    CauchySchwarz(dx, dy);
    QuotientAtMostOne(Dot(dx, dy), Dot(dx, dx), Dot(dy, dy));
  }

  lemma {:induction false} CombineSymmetric(a: real, b: real, c: real)
    requires a >= 0.0 && b >= 0.0
    ensures Combine(a, b, c) == Combine(b, a, c)
  {
    Commutes(a, b);
  }

  /** It does not matter which series comes first. */
  lemma {:induction false} PearsonSymmetric(xs: seq<real>, ys: seq<real>)
    requires |xs| == |ys|
    ensures Pearson(xs, ys) == Pearson(ys, xs)
  {
    if |xs| >= 3 {
      InSums(xs, ys);
      InSums(ys, xs);
      DotSymmetric(Deviations(xs), Deviations(ys));
      CombineSymmetric(Dot(Deviations(xs), Deviations(xs)), Dot(Deviations(ys), Deviations(ys)), Dot(Deviations(xs), Deviations(ys)));
    }
  }

  // -------------------------------------------------------- change of units

  lemma {:induction false} SumAffine(xs: seq<real>, k: real, c: real)
    ensures Sum(Affine(xs, k, c)) == Times(k, Sum(xs)) + Times(|xs| as real, c)
  {
    if xs == [] {
      Units(k);
      Units(c);
    } else {
      var n := |xs| - 1;
      SumAffine(xs[..n], k, c);
      SumSnoc(Affine(xs[..n], k, c), Times(k, xs[n]) + c);
      Distributes(k, Sum(xs[..n]), xs[n]);
      OneMore(n, c);
    }
  }

  lemma {:induction false} OneMore(n: nat, c: real)
    ensures Times((n + 1) as real, c) == Times(n as real, c) + c
  {
    Commutes((n + 1) as real, c);
    Commutes(n as real, c);
    Distributes(c, n as real, 1.0);
    Commutes(c, 1.0);
    Units(c);
  }

  lemma {:induction false} SumSnoc(xs: seq<real>, x: real)
    ensures Sum(xs + [x]) == Sum(xs) + x
  {
    assert (xs + [x])[..|xs|] == xs;
  }

  lemma {:induction false} MeanAffine(xs: seq<real>, k: real, c: real)
    requires xs != []
    ensures Mean(Affine(xs, k, c)) == Times(k, Mean(xs)) + c
  {
    var n, m := |xs| as real, Mean(xs);
    SumAffine(xs, k, c);
    OverIs(Sum(xs), n);
    Associates(k, m, n);
    Commutes(Times(k, m) + c, n);
    Distributes(n, Times(k, m), c);
    Commutes(n, Times(k, m));
    OverUnique(Sum(Affine(xs, k, c)), n, Times(k, m) + c);
  }

  lemma {:induction false} MinusSnoc(xs: seq<real>, x: real, m: real)
    ensures Minus(xs + [x], m) == Minus(xs, m) + [x - m]
  {
    assert (xs + [x])[..|xs|] == xs;
  }

  lemma {:induction false} ScaledSnoc(xs: seq<real>, x: real, k: real)
    ensures Scaled(xs + [x], k) == Scaled(xs, k) + [Times(k, x)]
  {
    assert (xs + [x])[..|xs|] == xs;
  }

  lemma {:induction false} MinusAffine(xs: seq<real>, k: real, c: real, m: real)
    ensures Minus(Affine(xs, k, c), Times(k, m) + c) == Scaled(Minus(xs, m), k)
  {
    if xs != [] {
      var n := |xs| - 1;
      MinusAffine(xs[..n], k, c, m);
      MinusSnoc(Affine(xs[..n], k, c), Times(k, xs[n]) + c, Times(k, m) + c);
      Distributes(k, xs[n], m);
      ScaledSnoc(Minus(xs[..n], m), xs[n] - m, k);
    }
  }

  lemma {:induction false} DeviationsAffine(xs: seq<real>, k: real, c: real)
    requires xs != []
    ensures Deviations(Affine(xs, k, c)) == Scaled(Deviations(xs), k)
  {
    MeanAffine(xs, k, c);
    MinusAffine(xs, k, c, Mean(xs));
  }

  lemma {:induction false} DotScaled(xs: seq<real>, ys: seq<real>, k: real)
    requires |xs| == |ys|
    ensures Dot(Scaled(xs, k), ys) == Times(k, Dot(xs, ys))
  {
    if xs == [] {
      Units(k);
    } else {
      var n := |xs| - 1;
      DotScaled(xs[..n], ys[..n], k);
      DotSnoc(Scaled(xs[..n], k), ys[..n], Times(k, xs[n]), ys[n]);
      assert ys == ys[..n] + [ys[n]];
      Associates(k, xs[n], ys[n]);
      Distributes(k, Dot(xs[..n], ys[..n]), Times(xs[n], ys[n]));
    }
  }

  lemma {:induction false} DotSnoc(xs: seq<real>, ys: seq<real>, x: real, y: real)
    requires |xs| == |ys|
    ensures Dot(xs + [x], ys + [y]) == Dot(xs, ys) + Times(x, y)
  {
    assert (xs + [x])[..|xs|] == xs && (ys + [y])[..|ys|] == ys;
  }

  lemma {:induction false} DotScaledBoth(xs: seq<real>, k: real)
    ensures Dot(Scaled(xs, k), Scaled(xs, k)) == Times(Square(k), Dot(xs, xs))
  {
    DotScaled(xs, Scaled(xs, k), k);
    DotSymmetric(xs, Scaled(xs, k));
    DotScaled(xs, xs, k);
    Associates(k, k, Dot(xs, xs));
  }

  lemma {:induction false} SumsScaled(a: real, b: real, c: real, k: real)
    requires a >= 0.0 && b >= 0.0 && k > 0.0
    ensures Times(Square(k), a) >= 0.0 && Combine(Times(Square(k), a), b, Times(k, c)) == Combine(a, b, c)
  {
    BothPositive(k, k);
    KeepsSign(Square(k), a);
    KeepsSign(k, c);
    if a != 0.0 && b != 0.0 {
      Units(b);
      Commutes(Square(k), 1.0);
      Units(Square(k));
      QuotientScaled(c, a, b, k, Square(k), 1.0);
    }
  }

  lemma {:induction false} InUnits(xs: seq<real>, ys: seq<real>, k: real, c: real)
    requires |xs| == |ys| >= 3 && k > 0.0
    ensures Pearson(Affine(xs, k, c), ys) == Pearson(xs, ys)
  {
    var dx, dy := Deviations(xs), Deviations(ys);
    DeviationsAffine(xs, k, c);
    DotScaledBoth(dx, k);
    DotScaled(dx, dy, k);
    InSums(xs, ys);
    InSums(Affine(xs, k, c), ys);
    SumsScaled(Dot(dx, dx), Dot(dy, dy), Dot(dx, dy), k);
  }

  /** Measuring a series from another zero or in another unit changes nothing. */
  lemma {:induction false} UnitsDoNotMatter(xs: seq<real>, ys: seq<real>, k: real, c: real)
    requires |xs| == |ys| && k > 0.0
    ensures Pearson(Affine(xs, k, c), ys) == Pearson(xs, ys)
    ensures Pearson(ys, Affine(xs, k, c)) == Pearson(ys, xs)
  {
    if |xs| >= 3 {
      InUnits(xs, ys, k, c);
    }
    PearsonSymmetric(xs, ys);
    PearsonSymmetric(Affine(xs, k, c), ys);
  }

  // ----------------------------------------------------------- a perfect line

  /** y = t x + c at every sample. */
  ghost predicate OnLine(xs: seq<real>, ys: seq<real>, t: real, c: real)
    requires |xs| == |ys|
  {
    ys == Affine(xs, t, c)
  }

  /** The square is one exactly when the deviations are proportional. */
  lemma {:induction false} OneExactlyProportional(xs: seq<real>, ys: seq<real>)
    requires |xs| == |ys| && Pearson(xs, ys).Some?
    ensures Dot(Deviations(xs), Deviations(xs)) > 0.0
    ensures Pearson(xs, ys).value.squared == 1.0
            <==> Deviations(ys) == Scaled(Deviations(xs), Slope(Dot(Deviations(xs), Deviations(ys)), Dot(Deviations(xs), Deviations(xs))))
  {
    InSums(xs, ys);
    var dx, dy := Deviations(xs), Deviations(ys);
    CauchySchwarz(dx, dy);
    QuotientAtMostOne(Dot(dx, dy), Dot(dx, dx), Dot(dy, dy));
  }

  lemma {:induction false} LineFromMinus(xs: seq<real>, ys: seq<real>, mx: real, my: real, t: real)
    requires |xs| == |ys| && Minus(ys, my) == Scaled(Minus(xs, mx), t)
    ensures ys == Affine(xs, t, my - Times(t, mx))
  {
    if xs != [] {
      var n := |xs| - 1;
      ScaledSnoc(Minus(xs[..n], mx), xs[n] - mx, t);
      SnocEqual(Minus(ys[..n], my), Scaled(Minus(xs[..n], mx), t), ys[n] - my, Times(t, xs[n] - mx));
      LineFromMinus(xs[..n], ys[..n], mx, my, t);
      Distributes(t, xs[n], mx);
      assert ys == ys[..n] + [ys[n]];
    }
  }

  lemma {:induction false} SlopeOfLine(dx: seq<real>, dy: seq<real>, t: real)
    requires dy == Scaled(dx, t) && Dot(dx, dx) > 0.0
    ensures Slope(Dot(dx, dy), Dot(dx, dx)) == t
  {
    DotSymmetric(dx, dy);
    DotScaled(dx, dx, t);
    OverUnique(Dot(dx, dy), Dot(dx, dx), t);
  }

  /** The sign of t times a positive number is that of t. */
  lemma {:induction false} SignOfLine(dx: seq<real>, dy: seq<real>, t: real)
    requires dy == Scaled(dx, t) && Dot(dx, dx) > 0.0
    ensures Dot(dx, dy) < 0.0 <==> t < 0.0
  {
    DotSymmetric(dx, dy);
    DotScaled(dx, dx, t);
    Commutes(t, Dot(dx, dx));
    KeepsSign(Dot(dx, dx), t);
  }

  /**
  The square is one exactly when the samples lie on a straight line, and then the
  coefficient is negative exactly when the line falls.
  */
  lemma {:induction false} OneExactlyOnALine(xs: seq<real>, ys: seq<real>)
    requires |xs| == |ys| && Pearson(xs, ys).Some?
    ensures Pearson(xs, ys).value.squared == 1.0 <==> exists t, c :: OnLine(xs, ys, t, c)
    ensures forall t, c :: OnLine(xs, ys, t, c) ==> (Pearson(xs, ys).value.negative <==> t < 0.0)
  {
    OneExactlyProportional(xs, ys);
    InSums(xs, ys);
    var dx, dy := Deviations(xs), Deviations(ys);
    var slope := Slope(Dot(dx, dy), Dot(dx, dx));
    if dy == Scaled(dx, slope) {
      LineFromMinus(xs, ys, Mean(xs), Mean(ys), slope);
      assert OnLine(xs, ys, slope, Mean(ys) - Times(slope, Mean(xs)));
    }
    forall t, c | OnLine(xs, ys, t, c)
      ensures dy == Scaled(dx, slope) && (Pearson(xs, ys).value.negative <==> t < 0.0)
    {
      DeviationsAffine(xs, t, c);
      SlopeOfLine(dx, dy, t);
      SignOfLine(dx, dy, t);
    }
  }

  // ------------------------------------------------- when and what, in the samples

  lemma {:induction false} DeviationAt(xs: seq<real>, m: real, i: nat)
    requires i < |xs|
    ensures Minus(xs, m)[i] == xs[i] - m
  {
    if i < |xs| - 1 {
      DeviationAt(xs[..|xs| - 1], m, i);
    }
  }

  lemma {:induction false} NoSquares(dx: seq<real>)
    ensures Dot(dx, dx) == 0.0 <==> forall i :: 0 <= i < |dx| ==> dx[i] == 0.0
  {
    if dx != [] {
      var n := |dx| - 1;
      NoSquares(dx[..n]);
      DotNonNegative(dx[..n]);
      SquareSign(dx[n]);
    }
  }

  lemma {:induction false} SumOfSame(xs: seq<real>, x: real)
    requires forall i :: 0 <= i < |xs| ==> xs[i] == x
    ensures Sum(xs) == Times(|xs| as real, x)
  {
    if xs == [] {
      Units(x);
    } else {
      SumOfSame(xs[..|xs| - 1], x);
      OneMore(|xs| - 1, x);
    }
  }

  /** Every sample is the same. */
  predicate Flat(xs: seq<real>) {
    forall i :: 0 <= i < |xs| ==> xs[i] == xs[0]
  }

  lemma {:induction false} FlatExactly(xs: seq<real>)
    requires xs != []
    ensures Dot(Deviations(xs), Deviations(xs)) == 0.0 <==> Flat(xs)
  {
    NoSquares(Deviations(xs));
    forall i | 0 <= i < |xs| ensures Deviations(xs)[i] == xs[i] - Mean(xs) {
      DeviationAt(xs, Mean(xs), i);
    }
    if Flat(xs) {
      SumOfSame(xs, xs[0]);
      OverUnique(Sum(xs), |xs| as real, xs[0]);
      Commutes(|xs| as real, xs[0]);
    }
  }

  /**
  The coefficient exists exactly for three or more pairs of two series neither of
  which is flat.  Its square, times the two sums of squared deviations, is the
  square of the sum of their products, and it is negative exactly when that is.
  */
  lemma {:induction false} PearsonExactly(xs: seq<real>, ys: seq<real>)
    requires |xs| == |ys|
    ensures Pearson(xs, ys).Some? <==> |xs| >= 3 && !Flat(xs) && !Flat(ys)
    ensures Pearson(xs, ys).Some? ==>
              var dx, dy, r := Deviations(xs), Deviations(ys), Pearson(xs, ys).value;
              && Times(r.squared, Times(Dot(dx, dx), Dot(dy, dy))) == Square(Dot(dx, dy))
              && (r.negative <==> Dot(dx, dy) < 0.0)
  {
    if |xs| >= 3 {
      InSums(xs, ys);
      FlatExactly(xs);
      FlatExactly(ys);
      if Pearson(xs, ys).Some? {
        var dx, dy := Deviations(xs), Deviations(ys);
        BothPositive(Dot(dx, dx), Dot(dy, dy));
        OverIs(Square(Dot(dx, dy)), Times(Dot(dx, dx), Dot(dy, dy)));
        Commutes(Pearson(xs, ys).value.squared, Times(Dot(dx, dx), Dot(dy, dy)));
      }
    }
  }

  /** A deviation is the sample less a number of which the sum of the samples is the n-fold. */
  lemma {:induction false} DeviationsExactly(xs: seq<real>, i: nat)
    requires i < |xs|
    ensures Deviations(xs)[i] == xs[i] - Mean(xs) && Times(|xs| as real, Mean(xs)) == Sum(xs)
  {
    DeviationAt(xs, Mean(xs), i);
    OverIs(Sum(xs), |xs| as real);
  }
}

/**
 * Ordinary least-squares fit of a line y = slope * x + intercept, over exact reals.
 *
 * This is the fit that `LinearRegression().fit(x, y)` computes for one chunk, together with
 * the coefficient of determination that `score(x, y)` reports. When every x is the same, the
 * centred design has no variance and the least-squares solver returns the minimum-norm
 * coefficient, 0; the intercept is then the mean of y. When every y is the same, R² is left
 * undetermined (None).
 */
module Regression {
  import opened Wrappers

  datatype LineFit = LineFit(slope: real, intercept: real, r2: Option<real>)

  // ---------------------------------------------------------------------------------------
  // Sums and pointwise operations on sequences of reals

  function Sum(zs: seq<real>): real
  {
    if zs == [] then 0.0 else zs[0] + Sum(zs[1..])
  }

  function Mean(xs: seq<real>): real
    requires xs != []
  {
    Sum(xs) / (|xs| as real)
  }

  /** Each value minus m. */
  function Centred(xs: seq<real>, m: real): (r: seq<real>)
    ensures |r| == |xs|
  {
    seq(|xs|, i requires 0 <= i < |xs| => xs[i] - m)
  }

  function Product(a: seq<real>, b: seq<real>): (r: seq<real>)
    requires |a| == |b|
    ensures |r| == |a|
  {
    seq(|a|, i requires 0 <= i < |a| => a[i] * b[i])
  }

  function Scaled(k: real, a: seq<real>): (r: seq<real>)
    ensures |r| == |a|
  {
    seq(|a|, i requires 0 <= i < |a| => k * a[i])
  }

  function Plus(a: seq<real>, b: seq<real>): (r: seq<real>)
    requires |a| == |b|
    ensures |r| == |a|
  {
    seq(|a|, i requires 0 <= i < |a| => a[i] + b[i])
  }

  function Constant(n: nat, c: real): (r: seq<real>)
    ensures |r| == n
  {
    seq(n, i => c)
  }

  /** How far each y lies above the line y = b * x + c. */
  function Residuals(xs: seq<real>, ys: seq<real>, b: real, c: real): (r: seq<real>)
    requires |xs| == |ys|
    ensures |r| == |xs|
  {
    seq(|xs|, i requires 0 <= i < |xs| => ys[i] - (b * xs[i] + c))
  }

  /** Sum of squared deviations from m. */
  function SumSq(xs: seq<real>, m: real): real
  {
    Sum(Product(Centred(xs, m), Centred(xs, m)))
  }

  /** Sum of cross products of the deviations of xs from mx and of ys from my. */
  function SumCross(xs: seq<real>, ys: seq<real>, mx: real, my: real): real
    requires |xs| == |ys|
  {
    Sum(Product(Centred(xs, mx), Centred(ys, my)))
  }

  /** Residual sum of squares of the line y = b * x + c. */
  function SumRes(xs: seq<real>, ys: seq<real>, b: real, c: real): real
    requires |xs| == |ys|
  {
    var r := Residuals(xs, ys, b, c);
    Sum(Product(r, r))
  }

  // ---------------------------------------------------------------------------------------
  // The fit

  function Slope(xs: seq<real>, ys: seq<real>): real
    requires |xs| == |ys| && xs != []
  {
    var sxx := SumSq(xs, Mean(xs));
    if sxx == 0.0 then 0.0 else SumCross(xs, ys, Mean(xs), Mean(ys)) / sxx
  }

  function Intercept(xs: seq<real>, ys: seq<real>): real
    requires |xs| == |ys| && xs != []
  {
    Mean(ys) - Slope(xs, ys) * Mean(xs)
  }

  /** R² = 1 - SS_res / SS_tot; undetermined when SS_tot is zero. */
  function RSquared(xs: seq<real>, ys: seq<real>): Option<real>
    requires |xs| == |ys| && xs != []
  {
    var syy := SumSq(ys, Mean(ys));
    if syy == 0.0 then None
    else Some(1.0 - SumRes(xs, ys, Slope(xs, ys), Intercept(xs, ys)) / syy)
  }

  function Fit(xs: seq<real>, ys: seq<real>): LineFit
    requires |xs| == |ys| && xs != []
  {
    LineFit(Slope(xs, ys), Intercept(xs, ys), RSquared(xs, ys))
  }

  // ---------------------------------------------------------------------------------------
  // Algebra of sums

  /** k * (p + q) == k * p + k * q, kept apart so that callers reason linearly. */
  lemma Distribute(k: real, s: real, p: real, q: real)
    requires s == p + q
    ensures k * s == k * p + k * q
  {
  }

  /** A square is never negative; t names the square so that it is not rewritten away. */
  lemma SquareNonNegative(a: real, t: real)
    requires t == a * a
    ensures t >= 0.0
  {
  }

  lemma NonZeroSquare(a: real, t: real)
    requires a != 0.0 && t == a * a
    ensures t > 0.0
  {
    calc {
      t;
      a * a;
    >
      0.0;
    }
  }

  lemma SquareZero(a: real, t: real)
    requires t == a * a && t == 0.0
    ensures a == 0.0
  {
    if a != 0.0 {
      NonZeroSquare(a, t);
    }
  }

  lemma {:induction false} SumPlus(a: seq<real>, b: seq<real>)
    requires |a| == |b|
    ensures Sum(Plus(a, b)) == Sum(a) + Sum(b)
  {
    if a != [] {
      assert Plus(a, b)[1..] == Plus(a[1..], b[1..]);
      SumPlus(a[1..], b[1..]);
    }
  }

  lemma {:induction false} SumScaled(k: real, a: seq<real>)
    ensures Sum(Scaled(k, a)) == k * Sum(a)
  {
    if a != [] {
      forall i | 0 <= i < |a| - 1
        ensures Scaled(k, a)[1..][i] == Scaled(k, a[1..])[i]
      {
      }
      assert Scaled(k, a)[1..] == Scaled(k, a[1..]);
      SumScaled(k, a[1..]);
      Distribute(k, Sum(a), a[0], Sum(a[1..]));
    }
  }

  lemma {:induction false} SumConstant(n: nat, c: real)
    ensures Sum(Constant(n, c)) == (n as real) * c
  {
    if n > 0 {
      assert Constant(n, c)[1..] == Constant(n - 1, c);
      SumConstant(n - 1, c);
      Distribute(c, n as real, (n - 1) as real, 1.0);
    }
  }

  lemma {:induction false} SumCentred(xs: seq<real>, m: real)
    ensures Sum(Centred(xs, m)) == Sum(xs) - (|xs| as real) * m
  {
    if xs != [] {
      assert Centred(xs, m)[1..] == Centred(xs[1..], m);
      SumCentred(xs[1..], m);
      Distribute(m, |xs| as real, (|xs| - 1) as real, 1.0);
    }
  }

  /** Deviations from the mean sum to zero. */
  lemma CentredOnMean(xs: seq<real>)
    requires xs != []
    ensures Sum(Centred(xs, Mean(xs))) == 0.0
  {
    SumCentred(xs, Mean(xs));
  }

  lemma ProductTail(a: seq<real>)
    requires a != []
    ensures Product(a, a)[1..] == Product(a[1..], a[1..])
  {
    forall i | 0 <= i < |a| - 1
      ensures Product(a, a)[1..][i] == Product(a[1..], a[1..])[i]
    {
    }
  }

  lemma {:induction false} SumSquaresNonNegative(a: seq<real>)
    ensures Sum(Product(a, a)) >= 0.0
  {
    if a != [] {
      ProductTail(a);
      SquareNonNegative(a[0], Product(a, a)[0]);
      SumSquaresNonNegative(a[1..]);
    }
  }

  /** A sum of squares is zero only if every term is zero. */
  lemma {:induction false} SumSquaresZero(a: seq<real>, i: nat)
    requires Sum(Product(a, a)) == 0.0 && i < |a|
    ensures a[i] == 0.0
  {
    ProductTail(a);
    var t := Product(a, a)[0];
    assert Sum(Product(a, a)) == t + Sum(Product(a[1..], a[1..]));
    SquareNonNegative(a[0], t);
    SumSquaresNonNegative(a[1..]);
    if i == 0 {
      SquareZero(a[0], t);
    } else {
      SumSquaresZero(a[1..], i - 1);
    }
  }

  lemma PointExpansion(r: real, u: real, v: real, b: real, d: real)
    requires r == (u - b * v) + d
    ensures r * r == u * u + (-2.0 * b) * (v * u) + (b * b) * (v * v)
                     + (2.0 * d) * (u + (-b) * v) + d * d
  {
  }

  /**
   * The squared residuals of the line y = b * x + c, split pointwise around the centres
   * mx and my; d is how far the parallel line through (mx, my) lies above it.
   */
  lemma ResidualSquaresSplit(xs: seq<real>, ys: seq<real>, b: real, c: real, mx: real, my: real, d: real)
    requires |xs| == |ys| && d == my - b * mx - c
    ensures var dx, dy, r := Centred(xs, mx), Centred(ys, my), Residuals(xs, ys, b, c);
      Product(r, r)
      == Plus(Plus(Plus(Product(dy, dy), Scaled(-2.0 * b, Product(dx, dy))),
                   Scaled(b * b, Product(dx, dx))),
              Plus(Scaled(2.0 * d, Plus(dy, Scaled(-b, dx))), Constant(|xs|, d * d)))
  {
    var dx, dy, r := Centred(xs, mx), Centred(ys, my), Residuals(xs, ys, b, c);
    var rhs := Plus(Plus(Plus(Product(dy, dy), Scaled(-2.0 * b, Product(dx, dy))),
                         Scaled(b * b, Product(dx, dx))),
                    Plus(Scaled(2.0 * d, Plus(dy, Scaled(-b, dx))), Constant(|xs|, d * d)));
    forall i | 0 <= i < |xs|
      ensures Product(r, r)[i] == rhs[i]
    {
      PointExpansion(r[i], dy[i], dx[i], b, d);
      assert rhs[i] == dy[i] * dy[i] + (-2.0 * b) * (dx[i] * dy[i]) + (b * b) * (dx[i] * dx[i])
                       + (2.0 * d) * (dy[i] + (-b) * dx[i]) + d * d;
    }
    assert Product(r, r) == rhs;
  }

  /** k * x == k * y when x == y, kept apart so that callers reason linearly. */
  lemma ScaleEqual(k: real, x: real, y: real)
    requires x == y
    ensures k * x == k * y
  {
  }

  /** The residual sum of squares as the sum of its slope part and its offset part. */
  lemma ResidualSumParts(xs: seq<real>, ys: seq<real>, b: real, c: real, mx: real, my: real, d: real)
    requires |xs| == |ys| && d == my - b * mx - c
    ensures var dx, dy := Centred(xs, mx), Centred(ys, my);
      SumRes(xs, ys, b, c)
      == Sum(Plus(Plus(Product(dy, dy), Scaled(-2.0 * b, Product(dx, dy))),
                  Scaled(b * b, Product(dx, dx))))
         + Sum(Plus(Scaled(2.0 * d, Plus(dy, Scaled(-b, dx))), Constant(|xs|, d * d)))
  {
    hide Sum;
    var dx, dy := Centred(xs, mx), Centred(ys, my);
    ResidualSquaresSplit(xs, ys, b, c, mx, my, d);
    SumPlus(Plus(Plus(Product(dy, dy), Scaled(-2.0 * b, Product(dx, dy))),
                 Scaled(b * b, Product(dx, dx))),
            Plus(Scaled(2.0 * d, Plus(dy, Scaled(-b, dx))), Constant(|xs|, d * d)));
  }

  /** SumScaled with the sum of a given under another name s. */
  lemma SumScaledAs(k: real, a: seq<real>, s: real)
    requires s == Sum(a)
    ensures Sum(Scaled(k, a)) == k * s
  {
    SumScaled(k, a);
  }

  /** The sum of the slope-dependent part of the squared residuals. */
  lemma SlopePartSum(xs: seq<real>, ys: seq<real>, b: real, mx: real, my: real)
    requires |xs| == |ys|
    ensures var dx, dy := Centred(xs, mx), Centred(ys, my);
      Sum(Plus(Plus(Product(dy, dy), Scaled(-2.0 * b, Product(dx, dy))),
               Scaled(b * b, Product(dx, dx))))
      == SumSq(ys, my) + (-2.0 * b) * SumCross(xs, ys, mx, my) + (b * b) * SumSq(xs, mx)
  {
    hide Sum;
    var dx, dy := Centred(xs, mx), Centred(ys, my);
    ThreeTermSum(Product(dy, dy), Product(dx, dy), Product(dx, dx), -2.0 * b, b * b,
      SumSq(ys, my), SumCross(xs, ys, mx, my), SumSq(xs, mx));
  }

  /** The sum of p + k * q + l * t, term by term, for sums named syy, sxy and sxx. */
  lemma ThreeTermSum(p: seq<real>, q: seq<real>, t: seq<real>, k: real, l: real,
                     syy: real, sxy: real, sxx: real)
    requires |p| == |q| == |t|
    requires syy == Sum(p) && sxy == Sum(q) && sxx == Sum(t)
    ensures Sum(Plus(Plus(p, Scaled(k, q)), Scaled(l, t))) == syy + k * sxy + l * sxx
  {
    SumPlus(Plus(p, Scaled(k, q)), Scaled(l, t));
    SumPlus(p, Scaled(k, q));
    SumScaledAs(k, q, sxy);
    SumScaledAs(l, t, sxx);
  }

  /** Around centres the data sum to zero about, the cross term with the offset d vanishes. */
  lemma OffsetPartSum(xs: seq<real>, ys: seq<real>, b: real, mx: real, my: real, d: real)
    requires |xs| == |ys| && Sum(Centred(xs, mx)) == 0.0 && Sum(Centred(ys, my)) == 0.0
    ensures var dx, dy := Centred(xs, mx), Centred(ys, my);
      Sum(Plus(Scaled(2.0 * d, Plus(dy, Scaled(-b, dx))), Constant(|xs|, d * d)))
      == (|xs| as real) * (d * d)
  {
    hide Sum;
    var dx, dy := Centred(xs, mx), Centred(ys, my);
    var w := Plus(dy, Scaled(-b, dx));
    SumPlus(Scaled(2.0 * d, w), Constant(|xs|, d * d));
    SumScaled(2.0 * d, w);
    SumConstant(|xs|, d * d);
    SumPlus(dy, Scaled(-b, dx));
    SumScaled(-b, dx);
    ScaleEqual(-b, Sum(dx), 0.0);
    assert Sum(w) == 0.0;
    ScaleEqual(2.0 * d, Sum(w), 0.0);
  }

  /**
   * The residual sum of squares of any line y = b * x + c, in terms of the centred sums:
   * the part left by the slope plus n times the squared offset d from the centroid.
   */
  lemma ResidualExpansion(xs: seq<real>, ys: seq<real>, b: real, c: real, d: real)
    requires |xs| == |ys| && xs != [] && d == Mean(ys) - b * Mean(xs) - c
    ensures var mx, my := Mean(xs), Mean(ys);
      SumRes(xs, ys, b, c)
      == SumSq(ys, my) + (-2.0 * b) * SumCross(xs, ys, mx, my) + (b * b) * SumSq(xs, mx)
         + (|xs| as real) * (d * d)
  {
    var mx, my := Mean(xs), Mean(ys);
    CentredOnMean(xs);
    CentredOnMean(ys);
    var dx, dy := Centred(xs, mx), Centred(ys, my);
    var slopePart := Plus(Plus(Product(dy, dy), Scaled(-2.0 * b, Product(dx, dy))),
                          Scaled(b * b, Product(dx, dx)));
    var offsetPart := Plus(Scaled(2.0 * d, Plus(dy, Scaled(-b, dx))), Constant(|xs|, d * d));
    ResidualSumParts(xs, ys, b, c, mx, my, d);
    SlopePartSum(xs, ys, b, mx, my);
    OffsetPartSum(xs, ys, b, mx, my, d);
    AddParts(SumRes(xs, ys, b, c), Sum(slopePart), Sum(offsetPart),
      SumSq(ys, my) + (-2.0 * b) * SumCross(xs, ys, mx, my) + (b * b) * SumSq(xs, mx),
      (|xs| as real) * (d * d));
  }

  /** Adds up two parts that are known by other names. */
  lemma AddParts(total: real, p: real, q: real, p': real, q': real)
    requires total == p + q && p == p' && q == q'
    ensures total == p' + q'
  {
  }

  /** If every x sits at mx, the cross products vanish. */
  lemma ZeroSpreadNoCross(xs: seq<real>, ys: seq<real>, mx: real, my: real)
    requires |xs| == |ys|
    requires SumSq(xs, mx) == 0.0
    ensures SumCross(xs, ys, mx, my) == 0.0
  {
    var dx, dy := Centred(xs, mx), Centred(ys, my);
    forall i | 0 <= i < |xs|
      ensures Product(dx, dy)[i] == Scaled(0.0, dy)[i]
    {
      SumSquaresZero(dx, i);
    }
    assert Product(dx, dy) == Scaled(0.0, dy);
    SumScaled(0.0, dy);
  }

  // ---------------------------------------------------------------------------------------
  // Arithmetic used by the fit proofs

  /** Dividing by a non-zero q and multiplying back gives the dividend. */
  lemma DivideThenMultiply(p: real, q: real)
    requires q != 0.0
    ensures (p / q) * q == p
  {
  }

  /** The product t of two non-negative reals is non-negative. */
  lemma ProductNonNegative(a: real, b: real, t: real)
    requires a >= 0.0 && b >= 0.0 && t == a * b
    ensures t >= 0.0
  {
  }

  /** With beta * sxx == sxy, moving the slope from beta to b costs sxx * (b - beta)^2. */
  lemma QuadraticGap(sxx: real, sxy: real, beta: real, b: real, g: real)
    requires beta * sxx == sxy && g == (b - beta) * (b - beta)
    ensures (b * b) * sxx + (-2.0 * b) * sxy - ((beta * beta) * sxx + (-2.0 * beta) * sxy) == sxx * g
  {
  }

  /**
   * The comparison behind the least-squares property, over the centred sums alone: the
   * fitted residual sum is at most that of any slope b with a non-negative offset part e.
   */
  lemma LeastSquaresGap(syy: real, sxy: real, sxx: real, beta: real, b: real, e: real,
                        fitted: real, other: real)
    requires sxx >= 0.0 && e >= 0.0
    requires sxx == 0.0 ==> sxy == 0.0 && beta == 0.0
    requires sxx != 0.0 ==> beta == sxy / sxx
    requires fitted == syy + (-2.0 * beta) * sxy + (beta * beta) * sxx
    requires other == syy + (-2.0 * b) * sxy + (b * b) * sxx + e
    ensures fitted <= other
  {
    if sxx != 0.0 {
      DivideThenMultiply(sxy, sxx);
      var g := (b - beta) * (b - beta);
      SquareNonNegative(b - beta, g);
      QuadraticGap(sxx, sxy, beta, b, g);
      ProductNonNegative(sxx, g, sxx * g);
    }
  }

  /** One minus a ratio of a non-negative part res to a larger positive whole lies in [0, 1]. */
  lemma ComplementRatio(res: real, whole: real)
    requires 0.0 <= res <= whole && whole != 0.0
    ensures 0.0 <= 1.0 - res / whole <= 1.0
  {
  }

  // ---------------------------------------------------------------------------------------
  // Properties of the fit

  /**
   * The fitted line is a least-squares line: no other line has a smaller residual sum of
   * squares over the same points.
   */
  lemma FitIsLeastSquares(xs: seq<real>, ys: seq<real>, b: real, c: real)
    requires |xs| == |ys| && xs != []
    ensures var f := Fit(xs, ys);
      SumRes(xs, ys, f.slope, f.intercept) <= SumRes(xs, ys, b, c)
  {
    hide Sum;
    var mx, my := Mean(xs), Mean(ys);
    var sxx, sxy, syy := SumSq(xs, mx), SumCross(xs, ys, mx, my), SumSq(ys, my);
    var beta, gamma := Slope(xs, ys), Intercept(xs, ys);
    var d := my - b * mx - c;
    var e := (|xs| as real) * (d * d);
    ResidualExpansion(xs, ys, beta, gamma, 0.0);
    ResidualExpansion(xs, ys, b, c, d);
    SquareNonNegative(d, d * d);
    ProductNonNegative(|xs| as real, d * d, e);
    SumSquaresNonNegative(Centred(xs, mx));
    if sxx == 0.0 {
      ZeroSpreadNoCross(xs, ys, mx, my);
    }
    LeastSquaresGap(syy, sxy, sxx, beta, b, e,
      SumRes(xs, ys, beta, gamma), SumRes(xs, ys, b, c));
  }

  /** For a well-posed fit the coefficient of determination lies in [0, 1]. */
  lemma FitR2InUnitInterval(xs: seq<real>, ys: seq<real>)
    requires |xs| == |ys| && xs != []
    ensures var f := Fit(xs, ys);
      f.r2.Some? ==> 0.0 <= f.r2.value <= 1.0
  {
    hide Sum;
    var f := Fit(xs, ys);
    var my := Mean(ys);
    var syy := SumSq(ys, my);
    if f.r2.Some? {
      var res := SumRes(xs, ys, f.slope, f.intercept);
      SumSquaresNonNegative(Residuals(xs, ys, f.slope, f.intercept));
      FitIsLeastSquares(xs, ys, 0.0, my);
      ResidualExpansion(xs, ys, 0.0, my, 0.0);
      ComplementRatio(res, syy);
    }
  }

  // ---------------------------------------------------------------------------------------
  // Points that lie exactly on a line

  /** Every y is a * x + b0. */
  predicate OnLine(xs: seq<real>, ys: seq<real>, a: real, b0: real)
    requires |xs| == |ys|
  {
    forall i :: 0 <= i < |xs| ==> ys[i] == a * xs[i] + b0
  }

  lemma OnLineSum(xs: seq<real>, ys: seq<real>, a: real, b0: real)
    requires ys == Plus(Scaled(a, xs), Constant(|xs|, b0))
    ensures Sum(ys) == a * Sum(xs) + Sum(Constant(|xs|, b0))
  {
    SumPlus(Scaled(a, xs), Constant(|xs|, b0));
    SumScaled(a, xs);
  }

  lemma OnLineAffine(xs: seq<real>, ys: seq<real>, a: real, b0: real)
    requires |xs| == |ys| && OnLine(xs, ys, a, b0)
    ensures ys == Plus(Scaled(a, xs), Constant(|xs|, b0))
  {
    forall i | 0 <= i < |xs|
      ensures ys[i] == Plus(Scaled(a, xs), Constant(|xs|, b0))[i]
    {
    }
  }

  /** The mean of a * x + b0 is a times the mean of x plus b0. */
  lemma MeanOfAffine(s: real, n: real, a: real, b0: real, t: real)
    requires n > 0.0 && t == a * s + n * b0
    ensures t / n == a * (s / n) + b0
  {
  }

  lemma OnLineCentred(xs: seq<real>, ys: seq<real>, a: real, b0: real, mx: real, my: real)
    requires |xs| == |ys| && OnLine(xs, ys, a, b0) && my == a * mx + b0
    ensures Centred(ys, my) == Scaled(a, Centred(xs, mx))
  {
    forall i | 0 <= i < |xs|
      ensures Centred(ys, my)[i] == Scaled(a, Centred(xs, mx))[i]
    {
      Distribute(a, xs[i], xs[i] - mx, mx);
    }
  }

  /** Scaling one or both factors of the squared deviations by a. */
  lemma ScaledProducts(dx: seq<real>, a: real)
    ensures Product(dx, Scaled(a, dx)) == Scaled(a, Product(dx, dx))
    ensures Product(Scaled(a, dx), Scaled(a, dx)) == Scaled(a * a, Product(dx, dx))
  {
    forall i | 0 <= i < |dx|
      ensures Product(dx, Scaled(a, dx))[i] == Scaled(a, Product(dx, dx))[i]
      ensures Product(Scaled(a, dx), Scaled(a, dx))[i] == Scaled(a * a, Product(dx, dx))[i]
    {
      var u := dx[i];
      assert u * (a * u) == a * (u * u);
      assert (a * u) * (a * u) == (a * a) * (u * u);
    }
  }

  /** The centred sums of points on the line y = a * x + b0. */
  lemma OnLineSums(xs: seq<real>, ys: seq<real>, a: real, b0: real)
    requires |xs| == |ys| && xs != [] && OnLine(xs, ys, a, b0)
    ensures Mean(ys) == a * Mean(xs) + b0
    ensures SumCross(xs, ys, Mean(xs), Mean(ys)) == a * SumSq(xs, Mean(xs))
    ensures SumSq(ys, Mean(ys)) == (a * a) * SumSq(xs, Mean(xs))
  {
    var mx, my := Mean(xs), Mean(ys);
    OnLineMean(xs, ys, a, b0);
    OnLineCentred(xs, ys, a, b0, mx, my);
    ScaledSums(xs, ys, a, mx, my);
  }

  lemma OnLineMean(xs: seq<real>, ys: seq<real>, a: real, b0: real)
    requires |xs| == |ys| && xs != [] && OnLine(xs, ys, a, b0)
    ensures Mean(ys) == a * Mean(xs) + b0
  {
    OnLineAffine(xs, ys, a, b0);
    OnLineSum(xs, ys, a, b0);
    SumConstant(|xs|, b0);
    MeanOfAffine(Sum(xs), |xs| as real, a, b0, Sum(ys));
  }

  /** When the y deviations are the x deviations scaled by a, so are their sums. */
  lemma ScaledSums(xs: seq<real>, ys: seq<real>, a: real, mx: real, my: real)
    requires |xs| == |ys| && Centred(ys, my) == Scaled(a, Centred(xs, mx))
    ensures SumCross(xs, ys, mx, my) == a * SumSq(xs, mx)
    ensures SumSq(ys, my) == (a * a) * SumSq(xs, mx)
  {
    hide Sum;
    var dx := Centred(xs, mx);
    ScaledProducts(dx, a);
    SumScaled(a, Product(dx, dx));
    SumScaled(a * a, Product(dx, dx));
  }

  /** A line through the points leaves no residual. */
  lemma OnLineNoResidual(xs: seq<real>, ys: seq<real>, a: real, b0: real)
    requires |xs| == |ys| && OnLine(xs, ys, a, b0)
    ensures SumRes(xs, ys, a, b0) == 0.0
  {
    var r := Residuals(xs, ys, a, b0);
    forall i | 0 <= i < |xs|
      ensures Product(r, r)[i] == Constant(|xs|, 0.0)[i]
    {
      assert r[i] == 0.0;
    }
    assert Product(r, r) == Constant(|xs|, 0.0);
    SumConstant(|xs|, 0.0);
  }

  /** Multiplying by a non-zero s and dividing by it again gives a back. */
  lemma MultiplyThenDivide(a: real, s: real, t: real)
    requires s != 0.0 && t == a * s
    ensures t / s == a
  {
  }

  /** The product t of a non-zero square a * a and a positive s is non-zero. */
  lemma NonZeroScaledSquare(a: real, s: real, t: real)
    requires a != 0.0 && s > 0.0 && t == (a * a) * s
    ensures t != 0.0
  {
    var q := a * a;
    NonZeroSquare(a, q);
    assert t == q * s;
    ProductNonNegative(q, s, t);
    assert q * s > 0.0;
  }

  /** A sequence holding two different values has a non-zero spread about its mean. */
  lemma DistinctValuesSpread(xs: seq<real>, i: nat, j: nat)
    requires i < |xs| && j < |xs| && xs[i] != xs[j]
    ensures SumSq(xs, Mean(xs)) != 0.0
  {
    if SumSq(xs, Mean(xs)) == 0.0 {
      var dx := Centred(xs, Mean(xs));
      SumSquaresZero(dx, i);
      SumSquaresZero(dx, j);
      assert false;
    }
  }

  /**
   * Points lying exactly on y = a * x + b0, with x not constant, are fitted by that very
   * line; R² is 1 unless the line is flat, in which case y is constant and R² undetermined.
   */
  lemma FitOnLine(xs: seq<real>, ys: seq<real>, a: real, b0: real)
    requires |xs| == |ys| && xs != [] && OnLine(xs, ys, a, b0)
    requires SumSq(xs, Mean(xs)) != 0.0
    ensures var f := Fit(xs, ys);
      f.slope == a && f.intercept == b0 && f.r2 == (if a != 0.0 then Some(1.0) else None)
  {
    hide Sum;
    var mx, my := Mean(xs), Mean(ys);
    var sxx := SumSq(xs, mx);
    OnLineSums(xs, ys, a, b0);
    MultiplyThenDivide(a, sxx, SumCross(xs, ys, mx, my));
    assert Slope(xs, ys) == a;
    OnLineNoResidual(xs, ys, a, b0);
    SumSquaresNonNegative(Centred(xs, mx));
    if a != 0.0 {
      NonZeroScaledSquare(a, sxx, SumSq(ys, my));
    }
  }
}

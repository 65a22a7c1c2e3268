/** What the normal equations of AffineGradientSearch.cpp are for: the affine motion that explains the residue best. */
module AffineMotion {
  import opened Arithmetic
  import opened AffineGradient
  import Sobel = SobelFilters

  // The motion model

  /** The coordinate in the middle of the aligned group of four that k lies in. */
  predicate Middle(x: nat, k: nat)
  {
    x % 4 == 2 && x - 2 <= k < x + 2
  }

  /** The change of a sample whose 4x4 block has its centre at (x, y), moved by the 6-parameter motion p. */
  function Change6(dx: int, dy: int, x: nat, y: nat, p: int -> int): int
  {
    dx * (p(0) + x * p(1) + y * p(4)) + dy * (p(2) + x * p(3) + y * p(5))
  }

  /** The same for the 4-parameter motion: zoom p(1) and rotation p(3) act on both coordinates. */
  function Change4(dx: int, dy: int, x: nat, y: nat, p: int -> int): int
  {
    dx * (p(0) + x * p(1) + y * p(3)) + dy * (p(2) + y * p(1) - x * p(3))
  }

  function Change(b6Param: bool, dx: int, dy: int, x: nat, y: nat, p: int -> int): int
  {
    if b6Param then Change6(dx, dy, x, y, p) else Change4(dx, dy, x, y, p)
  }

  /** The coefficients of a sample, weighted with the parameters. */
  function Predicted(b6Param: bool, dx: Field, dy: Field, p: int -> int, n: nat): Field
  {
    (j, k) => Dot(p, CoeffsOf(b6Param, dx, dy, j, k), n)
  }

  lemma MiddleIsCentre(x: nat, k: nat)
    requires Middle(x, k)
    ensures Centre(k) == x
  {}

  lemma DotOfFour(p: int -> int, c: int -> int)
    ensures Dot(p, c, 4) == p(0) * c(0) + p(1) * c(1) + p(2) * c(2) + p(3) * c(3)
  {
    assert Dot(p, c, 2) == Dot(p, c, 1) + p(1) * c(1);
    assert Dot(p, c, 3) == Dot(p, c, 2) + p(2) * c(2);
  }

  lemma DotOfSix(p: int -> int, c: int -> int)
    ensures Dot(p, c, 6) == p(0) * c(0) + p(1) * c(1) + p(2) * c(2) + p(3) * c(3) + p(4) * c(4) + p(5) * c(5)
  {
    DotOfFour(p, c);
    assert Dot(p, c, 5) == Dot(p, c, 4) + p(4) * c(4);
  }

  lemma Regroup6(d: int, e: int, x: int, y: int, p0: int, p1: int, p2: int, p3: int, p4: int, p5: int)
    ensures p0 * d + p1 * (x * d) + p2 * e + p3 * (x * e) + p4 * (y * d) + p5 * (y * e)
         == d * (p0 + x * p1 + y * p4) + e * (p2 + x * p3 + y * p5)
  {}

  lemma Regroup4(d: int, e: int, x: int, y: int, p0: int, p1: int, p2: int, p3: int)
    ensures p0 * d + p1 * (x * d + y * e) + p2 * e + p3 * (y * d - x * e)
         == d * (p0 + x * p1 + y * p3) + e * (p2 + y * p1 - x * p3)
  {}

  /** The coefficients are those of the affine motion model, taken at the centres of 4x4 blocks. */
  lemma CoeffsAreMotion(b6Param: bool, dx: Field, dy: Field, p: int -> int, j: nat, k: nat, x: nat, y: nat)
    requires Middle(x, k) && Middle(y, j)
    ensures Predicted(b6Param, dx, dy, p, NumParams(b6Param))(j, k) == Change(b6Param, dx(j, k), dy(j, k), x, y, p)
  {
    var c := CoeffsOf(b6Param, dx, dy, j, k);
    CoeffsAtCentre(b6Param, dx, dy, j, k, x, y);
    hide Dot, Coeffs, CoeffsOf, Centre;
    if b6Param {
      DotOfSix(p, c);
      Regroup6(dx(j, k), dy(j, k), x, y, p(0), p(1), p(2), p(3), p(4), p(5));
    } else {
      DotOfFour(p, c);
      Regroup4(dx(j, k), dy(j, k), x, y, p(0), p(1), p(2), p(3));
    }
  }

  lemma CoeffsAtCentre(b6Param: bool, dx: Field, dy: Field, j: nat, k: nat, x: nat, y: nat)
    requires Middle(x, k) && Middle(y, j)
    ensures var c, d, e := CoeffsOf(b6Param, dx, dy, j, k), dx(j, k), dy(j, k);
            && c(0) == d && c(2) == e
            && (b6Param ==> c(1) == x * d && c(3) == x * e && c(4) == y * d && c(5) == y * e)
            && (!b6Param ==> c(1) == x * d + y * e && c(3) == y * d - x * e)
  {
    MiddleIsCentre(x, k);
    MiddleIsCentre(y, j);
    hide Centre;
    assert Coeffs(b6Param, dx, dy, j, k) == if b6Param then Coeffs6(dx, dy, j, k) else Coeffs4(dx, dy, j, k);
  }

  // Least squares

  /** How far the prediction is from the residue, in eighths as the gradients are. */
  function Error(b6Param: bool, dx: Field, dy: Field, residue: Field, p: int -> int): Field
  {
    (j, k) => Predicted(b6Param, dx, dy, p, NumParams(b6Param))(j, k) - 8 * residue(j, k)
  }

  function Product(f: Field, g: Field): Field { (j, k) => f(j, k) * g(j, k) }

  function Coefficient(b6Param: bool, dx: Field, dy: Field, a: nat): Field
  {
    (j, k) => CoeffsOf(b6Param, dx, dy, j, k)(a)
  }

  function SquaredError(b6Param: bool, dx: Field, dy: Field, residue: Field, height: nat, width: nat, p: int -> int): int
  {
    var e := Error(b6Param, dx, dy, residue, p);
    BlockSum(Product(e, e), height, width)
  }

  /** Row a of the accumulated matrix. */
  function MatrixRow(b6Param: bool, dx: Field, dy: Field, height: nat, width: nat, a: nat): int -> int
    requires a < NumParams(b6Param)
  {
    b => if 0 <= b < NumParams(b6Param) then Matrix(b6Param, dx, dy, height, width, a, b) else 0
  }

  /** The parameters solve the equations in the table. */
  ghost predicate Solves(b6Param: bool, dx: Field, dy: Field, residue: Field, height: nat, width: nat, p: int -> int)
  {
    forall a :: 0 <= a < NumParams(b6Param) ==>
      Dot(p, MatrixRow(b6Param, dx, dy, height, width, a), NumParams(b6Param))
      == BlockSum(Weighted(b6Param, dx, dy, residue, a), height, width)
  }

  lemma SumPlusMultiple(f: Field, g: Field, o: Field, w: int, height: nat, width: nat)
    requires forall j, k :: f(j, k) == g(j, k) + w * o(j, k)
    ensures BlockSum(f, height, width) == BlockSum(g, height, width) + w * BlockSum(o, height, width)
  {
    hide BlockSum;
    BlockSumCombine(f, g, o, o, o, w, 0, 0, height, width);
  }

  /** A row of the matrix times the parameters sums the products of its coefficient and the prediction. */
  lemma {:induction false} RowTimesParameters(b6Param: bool, dx: Field, dy: Field, height: nat, width: nat, p: int -> int, a: nat, n: nat)
    requires a < NumParams(b6Param) && n <= NumParams(b6Param)
    ensures Dot(p, MatrixRow(b6Param, dx, dy, height, width, a), n)
         == BlockSum(Product(Coefficient(b6Param, dx, dy, a), Predicted(b6Param, dx, dy, p, n)), height, width)
  {
    var c := Coefficient(b6Param, dx, dy, a);
    var f := Product(c, Predicted(b6Param, dx, dy, p, n));
    assert n == 0 ==> Dot(p, MatrixRow(b6Param, dx, dy, height, width, a), n) == 0 by { hide MatrixRow; }
    hide BlockSum, Product, Predicted, Outer, Coefficient, CoeffsOf, MatrixRow, Dot;
    if n == 0 {
      NothingPredicted(b6Param, dx, dy, c, p, height, width);
    } else {
      RowTimesParameters(b6Param, dx, dy, height, width, p, a, n - 1);
      var g, o := Product(c, Predicted(b6Param, dx, dy, p, n - 1)), Outer(b6Param, dx, dy, a, n - 1);
      forall j, k ensures f(j, k) == g(j, k) + p(n - 1) * o(j, k) {
        RowTerm(b6Param, dx, dy, p, a, n, j, k);
      }
      MatrixRowStep(b6Param, dx, dy, height, width, p, a, n);
      SumPlusMultiple(f, g, o, p(n - 1), height, width);
    }
  }

  lemma MatrixRowStep(b6Param: bool, dx: Field, dy: Field, height: nat, width: nat, p: int -> int, a: nat, n: nat)
    requires a < NumParams(b6Param) && 0 < n <= NumParams(b6Param)
    ensures var row := MatrixRow(b6Param, dx, dy, height, width, a);
            Dot(p, row, n) == Dot(p, row, n - 1) + p(n - 1) * BlockSum(Outer(b6Param, dx, dy, a, n - 1), height, width)
  {
    hide Outer;
  }

  lemma RowTerm(b6Param: bool, dx: Field, dy: Field, p: int -> int, a: nat, n: nat, j: int, k: int)
    requires a < NumParams(b6Param) && 0 < n <= NumParams(b6Param)
    ensures var c := Coefficient(b6Param, dx, dy, a);
            Product(c, Predicted(b6Param, dx, dy, p, n))(j, k)
            == Product(c, Predicted(b6Param, dx, dy, p, n - 1))(j, k) + p(n - 1) * Outer(b6Param, dx, dy, a, n - 1)(j, k)
  {
    hide Coeffs;
    var c := CoeffsOf(b6Param, dx, dy, j, k);
    OneMoreTerm(c(a), Dot(p, c, n - 1), p(n - 1), c(n - 1));
    assert Outer(b6Param, dx, dy, a, n - 1)(j, k) == c(a) * c(n - 1);
    assert Dot(p, c, n) == Dot(p, c, n - 1) + p(n - 1) * c(n - 1);
    hide Dot;
  }

  lemma OneMoreTerm(c: int, rest: int, w: int, d: int)
    ensures c * (rest + w * d) == c * rest + w * (c * d)
  {}

  lemma NothingPredicted(b6Param: bool, dx: Field, dy: Field, f: Field, p: int -> int, height: nat, width: nat)
    ensures BlockSum(Product(f, Predicted(b6Param, dx, dy, p, 0)), height, width) == 0
  {
    ZeroSum(Product(f, Predicted(b6Param, dx, dy, p, 0)), height, width);
  }

  lemma {:induction false} ZeroSum(f: Field, height: nat, width: nat)
    requires forall j, k :: f(j, k) == 0
    ensures BlockSum(f, height, width) == 0
  {
    if height > 0 {
      ZeroSum(f, height - 1, width);
      ZeroRowSum(f, height - 1, width);
    }
  }

  lemma {:induction false} ZeroRowSum(f: Field, j: int, width: nat)
    requires forall k :: f(j, k) == 0
    ensures RowSum(f, j, width) == 0
  {
    if width > 0 { ZeroRowSum(f, j, width - 1); }
  }

  /** What the equations leave over is how the errors correlate with the coefficients. */
  lemma ErrorCorrelation(b6Param: bool, dx: Field, dy: Field, residue: Field, height: nat, width: nat, p: int -> int, a: nat)
    requires a < NumParams(b6Param)
    ensures BlockSum(Product(Coefficient(b6Param, dx, dy, a), Error(b6Param, dx, dy, residue, p)), height, width)
         == Dot(p, MatrixRow(b6Param, dx, dy, height, width, a), NumParams(b6Param))
            - BlockSum(Weighted(b6Param, dx, dy, residue, a), height, width)
  {
    var n, c := NumParams(b6Param), Coefficient(b6Param, dx, dy, a);
    var f, w := Product(c, Error(b6Param, dx, dy, residue, p)), Weighted(b6Param, dx, dy, residue, a);
    var g := Product(c, Predicted(b6Param, dx, dy, p, n));
    RowTimesParameters(b6Param, dx, dy, height, width, p, a, n);
    hide Weighted, Coefficient, Error, Predicted, Product, MatrixRow, Dot;
    forall j, k ensures f(j, k) == g(j, k) + -1 * w(j, k) {
      ErrorTerm(b6Param, dx, dy, residue, p, a, j, k);
    }
    SumPlusMultiple(f, g, w, -1, height, width);
  }

  lemma ErrorTerm(b6Param: bool, dx: Field, dy: Field, residue: Field, p: int -> int, a: nat, j: int, k: int)
    requires a < NumParams(b6Param)
    ensures var c := Coefficient(b6Param, dx, dy, a);
            Product(c, Error(b6Param, dx, dy, residue, p))(j, k)
            == Product(c, Predicted(b6Param, dx, dy, p, NumParams(b6Param)))(j, k) - Weighted(b6Param, dx, dy, residue, a)(j, k)
  {
    hide Coeffs, Dot;
    ErrorProduct(CoeffsOf(b6Param, dx, dy, j, k)(a), Dot(p, CoeffsOf(b6Param, dx, dy, j, k), NumParams(b6Param)), residue(j, k));
  }

  lemma ErrorProduct(c: int, x: int, e: int)
    ensures c * (x - 8 * e) == c * x - c * e * 8
  {}

  /** The errors of a solution do not correlate with any prediction. */
  lemma {:induction false} NoCorrelation(b6Param: bool, dx: Field, dy: Field, residue: Field, height: nat, width: nat, p: int -> int,
                                         h: int -> int, n: nat)
    requires Solves(b6Param, dx, dy, residue, height, width, p) && n <= NumParams(b6Param)
    ensures BlockSum(Product(Error(b6Param, dx, dy, residue, p), Predicted(b6Param, dx, dy, h, n)), height, width) == 0
  {
    var e := Error(b6Param, dx, dy, residue, p);
    var f := Product(e, Predicted(b6Param, dx, dy, h, n));
    hide Error, Predicted, Product, Coefficient, CoeffsOf, MatrixRow, Dot, Weighted;
    if n == 0 {
      NothingPredicted(b6Param, dx, dy, e, h, height, width);
    } else {
      NoCorrelation(b6Param, dx, dy, residue, height, width, p, h, n - 1);
      ErrorCorrelation(b6Param, dx, dy, residue, height, width, p, n - 1);
      var c := Coefficient(b6Param, dx, dy, n - 1);
      var g, o := Product(e, Predicted(b6Param, dx, dy, h, n - 1)), Product(c, e);
      forall j, k ensures f(j, k) == g(j, k) + h(n - 1) * o(j, k) {
        CorrelationTerm(b6Param, dx, dy, e, h, n, j, k);
      }
      SumPlusMultiple(f, g, o, h(n - 1), height, width);
    }
  }

  lemma CorrelationTerm(b6Param: bool, dx: Field, dy: Field, e: Field, h: int -> int, n: nat, j: int, k: int)
    requires 0 < n <= NumParams(b6Param)
    ensures Product(e, Predicted(b6Param, dx, dy, h, n))(j, k)
         == Product(e, Predicted(b6Param, dx, dy, h, n - 1))(j, k) + h(n - 1) * Product(Coefficient(b6Param, dx, dy, n - 1), e)(j, k)
  {
    hide Coeffs, CoeffsOf;
    var c := CoeffsOf(b6Param, dx, dy, j, k);
    OneMoreTerm(e(j, k), Dot(h, c, n - 1), h(n - 1), c(n - 1));
    assert Dot(h, c, n) == Dot(h, c, n - 1) + h(n - 1) * c(n - 1);
    hide Dot;
    assert c(n - 1) * e(j, k) == e(j, k) * c(n - 1);
  }

  function Minus(q: int -> int, p: int -> int): int -> int { i => q(i) - p(i) }

  lemma {:induction false} DotOfDifference(q: int -> int, p: int -> int, c: int -> int, n: nat)
    ensures Dot(q, c, n) == Dot(p, c, n) + Dot(Minus(q, p), c, n)
  {
    if n > 0 {
      DotOfDifference(q, p, c, n - 1);
      assert q(n - 1) * c(n - 1) == p(n - 1) * c(n - 1) + (q(n - 1) - p(n - 1)) * c(n - 1);
    }
  }

  /** Any other parameters are worse than a solution by the squares of what they predict differently. */
  lemma LeastSquares(b6Param: bool, dx: Field, dy: Field, residue: Field, height: nat, width: nat, p: int -> int, q: int -> int)
    requires Solves(b6Param, dx, dy, residue, height, width, p)
    ensures var d := Predicted(b6Param, dx, dy, Minus(q, p), NumParams(b6Param));
            SquaredError(b6Param, dx, dy, residue, height, width, q)
            == SquaredError(b6Param, dx, dy, residue, height, width, p) + BlockSum(Product(d, d), height, width)
  {
    var n := NumParams(b6Param);
    var h := Minus(q, p);
    var e, e', d := Error(b6Param, dx, dy, residue, p), Error(b6Param, dx, dy, residue, q), Predicted(b6Param, dx, dy, h, n);
    var f, g0, g1, g2 := Product(e', e'), Product(e, e), Product(e, d), Product(d, d);
    NoCorrelation(b6Param, dx, dy, residue, height, width, p, h, n);
    assert SquaredError(b6Param, dx, dy, residue, height, width, q) == BlockSum(f, height, width);
    assert SquaredError(b6Param, dx, dy, residue, height, width, p) == BlockSum(g0, height, width);
    hide Error, Predicted, Product, Solves, SquaredError;
    forall j, k ensures f(j, k) == g0(j, k) + 2 * g1(j, k) + 1 * g2(j, k) + 0 * g2(j, k) {
      SquareTerm(b6Param, dx, dy, residue, p, q, j, k);
    }
    BlockSumCombine(f, g0, g1, g2, g2, 2, 1, 0, height, width);
  }

  lemma SquareTerm(b6Param: bool, dx: Field, dy: Field, residue: Field, p: int -> int, q: int -> int, j: int, k: int)
    ensures var e, e' := Error(b6Param, dx, dy, residue, p), Error(b6Param, dx, dy, residue, q);
            var d := Predicted(b6Param, dx, dy, Minus(q, p), NumParams(b6Param));
            Product(e', e')(j, k) == Product(e, e)(j, k) + 2 * Product(e, d)(j, k) + Product(d, d)(j, k)
  {
    var n := NumParams(b6Param);
    var e, d := Error(b6Param, dx, dy, residue, p), Predicted(b6Param, dx, dy, Minus(q, p), n);
    DotOfDifference(q, p, CoeffsOf(b6Param, dx, dy, j, k), n);
    hide Dot, CoeffsOf, Minus;
    assert d(j, k) == Dot(Minus(q, p), CoeffsOf(b6Param, dx, dy, j, k), n);
    assert e(j, k) == Dot(p, CoeffsOf(b6Param, dx, dy, j, k), n) - 8 * residue(j, k);
    assert Error(b6Param, dx, dy, residue, q)(j, k) == Dot(q, CoeffsOf(b6Param, dx, dy, j, k), n) - 8 * residue(j, k);
    SquareOfSum(e(j, k), d(j, k));
  }

  lemma SquareOfSum(x: int, y: int)
    ensures (x + y) * (x + y) == x * x + 2 * (x * y) + y * y
  {}

  lemma {:induction false} SquaresSum(f: Field, height: nat, width: nat)
    ensures BlockSum(Product(f, f), height, width) >= 0
  {
    if height > 0 {
      SquaresSum(f, height - 1, width);
      SquaresRowSum(f, height - 1, width);
    }
  }

  lemma {:induction false} SquaresRowSum(f: Field, j: int, width: nat)
    ensures RowSum(Product(f, f), j, width) >= 0
  {
    if width > 0 {
      SquaresRowSum(f, j, width - 1);
      assert f(j, width - 1) * f(j, width - 1) >= 0;
    }
  }

  /** No motion explains the residue better than one that solves the equations. */
  lemma SolutionIsBest(b6Param: bool, dx: Field, dy: Field, residue: Field, height: nat, width: nat, p: int -> int, q: int -> int)
    requires Solves(b6Param, dx, dy, residue, height, width, p)
    ensures SquaredError(b6Param, dx, dy, residue, height, width, p) <= SquaredError(b6Param, dx, dy, residue, height, width, q)
  {
    hide Solves, SquaredError, Predicted, Product;
    LeastSquares(b6Param, dx, dy, residue, height, width, p, q);
    SquaresSum(Predicted(b6Param, dx, dy, Minus(q, p), NumParams(b6Param)), height, width);
  }

  // A motion that explains the residue

  /** A motion that predicts every sample's residue solves the equations. */
  lemma ExactMotionSolves(b6Param: bool, dx: Field, dy: Field, residue: Field, height: nat, width: nat, p: int -> int)
    requires forall j, k :: 0 <= j < height && 0 <= k < width ==>
      Predicted(b6Param, dx, dy, p, NumParams(b6Param))(j, k) == 8 * residue(j, k)
    ensures Solves(b6Param, dx, dy, residue, height, width, p)
  {
    var e := Error(b6Param, dx, dy, residue, p);
    forall j, k | 0 <= j < height && 0 <= k < width ensures e(j, k) == 0 {
      hide Predicted;
    }
    forall a | 0 <= a < NumParams(b6Param)
      ensures Dot(p, MatrixRow(b6Param, dx, dy, height, width, a), NumParams(b6Param))
           == BlockSum(Weighted(b6Param, dx, dy, residue, a), height, width)
    {
      hide Error, Predicted, Weighted, MatrixRow, Dot;
      ErrorCorrelation(b6Param, dx, dy, residue, height, width, p, a);
      ProductWithZero(Coefficient(b6Param, dx, dy, a), e, height, width);
    }
  }

  lemma {:induction false} ProductWithZero(f: Field, e: Field, height: nat, width: nat)
    requires forall j, k :: 0 <= j < height && 0 <= k < width ==> e(j, k) == 0
    ensures BlockSum(Product(f, e), height, width) == 0
  {
    if height > 0 {
      ProductWithZero(f, e, height - 1, width);
      RowWithZero(f, e, height - 1, width);
    }
  }

  lemma {:induction false} RowWithZero(f: Field, e: Field, j: nat, width: nat)
    requires forall k :: 0 <= k < width ==> e(j, k) == 0
    ensures RowSum(Product(f, e), j, width) == 0
  {
    if width > 0 {
      RowWithZero(f, e, j, width - 1);
      assert e(j, width - 1) == 0;
    }
  }

  // Slopes

  /** A picture that rises by u from column to column and by v from row to row. */
  function Slope(base: int, u: int, v: int): Field { (j, k) => base + u * k + v * j }

  /** What a motion changes in such a picture, if every 4x4 block moves as its centre does. */
  function Moved(b6Param: bool, u: int, v: int, p: int -> int): Field
  {
    (j, k) => if j < 0 || k < 0 then 0 else Change(b6Param, u, v, k - k % 4 + 2, j - j % 4 + 2, p)
  }

  /** The gradients that the Sobel filters leave of a picture. */
  function SobelOf(d: Sobel.Direction, pred: Field, height: nat, width: nat): Field
  {
    (j, k) => Sobel.Nearest(d, pred, height, width, j, k)
  }

  lemma SlopeGradients(base: int, u: int, v: int, height: nat, width: nat, j: int, k: int)
    ensures SobelOf(Sobel.Horizontal, Slope(base, u, v), height, width)(j, k) == 8 * u
    ensures SobelOf(Sobel.Vertical, Slope(base, u, v), height, width)(j, k) == 8 * v
  {
    SlopeAround(base, u, v, Clip3(1, height - 2, j), Clip3(1, width - 2, k));
  }

  lemma SlopeAround(base: int, u: int, v: int, j: int, k: int)
    ensures Sobel.Gradient(Sobel.Horizontal, Slope(base, u, v), j, k) == 8 * u
    ensures Sobel.Gradient(Sobel.Vertical, Slope(base, u, v), j, k) == 8 * v
  {
    var s := Slope(base, u, v);
    assert s(j, k + 1) - s(j, k - 1) == s(j - 1, k + 1) - s(j - 1, k - 1) == s(j + 1, k + 1) - s(j + 1, k - 1) == 2 * u;
    assert s(j + 1, k) - s(j - 1, k) == s(j + 1, k - 1) - s(j - 1, k - 1) == s(j + 1, k + 1) - s(j - 1, k + 1) == 2 * v;
  }

  lemma EightTimes(b6Param: bool, u: int, v: int, x: nat, y: nat, p: int -> int)
    ensures Change(b6Param, 8 * u, 8 * v, x, y, p) == 8 * Change(b6Param, u, v, x, y, p)
  {}

  lemma SlopePrediction(b6Param: bool, base: int, u: int, v: int, height: nat, width: nat, p: int -> int, j: nat, k: nat)
    ensures var pred := Slope(base, u, v);
            var dx, dy := SobelOf(Sobel.Horizontal, pred, height, width), SobelOf(Sobel.Vertical, pred, height, width);
            Predicted(b6Param, dx, dy, p, NumParams(b6Param))(j, k) == 8 * Moved(b6Param, u, v, p)(j, k)
  {
    var pred, x, y := Slope(base, u, v), k - k % 4 + 2, j - j % 4 + 2;
    var dx, dy := SobelOf(Sobel.Horizontal, pred, height, width), SobelOf(Sobel.Vertical, pred, height, width);
    assert Moved(b6Param, u, v, p)(j, k) == Change(b6Param, u, v, x, y, p);
    hide Predicted, SobelOf, Slope, Change, Moved;
    CoeffsAreMotion(b6Param, dx, dy, p, j, k, x, y);
    SlopeGradients(base, u, v, height, width, j, k);
    EightTimes(b6Param, u, v, x, y, p);
  }

  /**
   * Gradient filters and equations together: in a picture of constant slope, the residue of an affine motion gives equations
   * that this motion solves, and no other motion leaves less.
   */
  lemma MotionOfSlope(b6Param: bool, base: int, u: int, v: int, height: nat, width: nat, p: int -> int, q: int -> int)
    ensures var pred, residue := Slope(base, u, v), Moved(b6Param, u, v, p);
            var dx, dy := SobelOf(Sobel.Horizontal, pred, height, width), SobelOf(Sobel.Vertical, pred, height, width);
            && Solves(b6Param, dx, dy, residue, height, width, p)
            && SquaredError(b6Param, dx, dy, residue, height, width, p) <= SquaredError(b6Param, dx, dy, residue, height, width, q)
  {
    var pred, residue := Slope(base, u, v), Moved(b6Param, u, v, p);
    var dx, dy := SobelOf(Sobel.Horizontal, pred, height, width), SobelOf(Sobel.Vertical, pred, height, width);
    hide Solves, SquaredError, Predicted, SobelOf, Moved, Slope, NumParams;
    forall j, k | 0 <= j < height && 0 <= k < width
      ensures Predicted(b6Param, dx, dy, p, NumParams(b6Param))(j, k) == 8 * residue(j, k)
    {
      SlopePrediction(b6Param, base, u, v, height, width, p, j, k);
    }
    ExactMotionSolves(b6Param, dx, dy, residue, height, width, p);
    SolutionIsBest(b6Param, dx, dy, residue, height, width, p, q);
  }
}

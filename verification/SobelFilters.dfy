/** The two gradient filters of AffineGradientSearch.cpp. */
module SobelFilters {
  import opened Arithmetic
  import opened AffineGradient

  datatype Direction = Horizontal | Vertical

  /** The kernel of the filter, at an inner sample. */
  function Gradient(d: Direction, pred: Field, j: int, k: int): int
  {
    match d
    case Horizontal =>
      pred(j - 1, k + 1) - pred(j - 1, k - 1) + 2 * pred(j, k + 1) - 2 * pred(j, k - 1) + pred(j + 1, k + 1) - pred(j + 1, k - 1)
    case Vertical =>
      pred(j + 1, k - 1) - pred(j - 1, k - 1) + 2 * pred(j + 1, k) - 2 * pred(j - 1, k) + pred(j + 1, k + 1) - pred(j - 1, k + 1)
  }

  /** The gradient at the nearest sample that is not on the border. */
  function Nearest(d: Direction, pred: Field, height: int, width: int, j: int, k: int): int
  {
    Gradient(d, pred, Clip3(1, height - 2, j), Clip3(1, width - 2, k))
  }

  /** A picture given by a polynomial in the column k and the row j. */
  function Polynomial(a: int, b: int, c: int, d: int, e: int, f: int, g: int): Field
  {
    (j: int, k: int) => a + b * k + c * j + d * (k * k) + e * (j * k) + f * (j * j) + g * (k * (j * j))
  }

  /** The difference across a column of such a picture. */
  lemma Across(a: int, b: int, c: int, d: int, e: int, f: int, g: int, j: int, k: int)
    ensures var p := Polynomial(a, b, c, d, e, f, g);
            p(j, k + 1) - p(j, k - 1) == 2 * b + 4 * (d * k) + 2 * (e * j) + 2 * (g * (j * j))
  {
    assert (k + 1) * (k + 1) - (k - 1) * (k - 1) == 4 * k;
    Distribute(d, (k + 1) * (k + 1) - (k - 1) * (k - 1), (k - 1) * (k - 1));
    Distribute(b, k, 1);
    Distribute(b, k, -1);
    var m, n := j * k, j * j;
    assert j * (k + 1) == m + j && j * (k - 1) == m - j;
    Distribute(e, m, j);
    Distribute(e, m - j, j);
    assert (k + 1) * n == k * n + n && (k - 1) * n == k * n - n;
    Distribute(g, k * n, n);
    Distribute(g, k * n - n, n);
    assert d * (4 * k) == 4 * (d * k);
  }

  lemma RowsTogether(e: int, g: int, j: int)
    ensures e * (j - 1) + 2 * (e * j) + e * (j + 1) == 4 * (e * j)
    ensures g * ((j - 1) * (j - 1)) + 2 * (g * (j * j)) + g * ((j + 1) * (j + 1)) == 4 * (g * (j * j)) + 2 * g
  {
    Distribute(e, j, 1);
    Distribute(e, j, -1);
    var n, before, after := j * j, (j - 1) * (j - 1), (j + 1) * (j + 1);
    assert before + after == 2 * n + 2;
    Distribute(g, before, after);
    Distribute(g, n, n + 2);
    Distribute(g, n, 2);
  }

  /** Eight times the slope, exactly so for pictures of second degree; the weights 1, 2, 1 add half of the next term's curvature. */
  lemma GradientOfPolynomial(a: int, b: int, c: int, d: int, e: int, f: int, g: int, j: int, k: int)
    ensures Gradient(Horizontal, Polynomial(a, b, c, d, e, f, g), j, k)
         == 8 * (b + 2 * (d * k) + e * j + g * (j * j)) + 4 * g
  {
    var p := Polynomial(a, b, c, d, e, f, g);
    Across(a, b, c, d, e, f, g, j - 1, k);
    Across(a, b, c, d, e, f, g, j, k);
    Across(a, b, c, d, e, f, g, j + 1, k);
    RowsTogether(e, g, j);
    hide Polynomial;
  }

  /** Either filter is the other one on the transposed picture. */
  lemma GradientTransposed(pred: Field, transposed: Field, j: int, k: int)
    requires forall r, c :: transposed(r, c) == pred(c, r)
    ensures Gradient(Vertical, pred, j, k) == Gradient(Horizontal, transposed, k, j)
  {}

  predicate Inner(x: int, size: int) { 1 <= x < size - 1 }

  /** A sample has the gradient of the nearest sample in an inner row, and of the nearest one in an inner column. */
  lemma NearestOfNearest(d: Direction, pred: Field, height: int, width: int, j: int, k: int)
    requires height >= 3 && width >= 3
    ensures Nearest(d, pred, height, width, j, k) == Nearest(d, pred, height, width, Clip3(1, height - 2, j), k)
    ensures Nearest(d, pred, height, width, j, k) == Nearest(d, pred, height, width, j, Clip3(1, width - 2, k))
    ensures Inner(j, height) && Inner(k, width) ==> Nearest(d, pred, height, width, j, k) == Gradient(d, pred, j, k)
  {}

  /** Row by row: the inner samples, then the two ends of the row; then the corners, the top and the bottom. */
  method HorizontalSobelFilter(pred: Field, derivate: array2<int>, width: nat, height: nat)
    requires width >= 3 && height >= 3 && derivate.Length0 >= height && derivate.Length1 >= width
    modifies derivate
    ensures forall j, k :: 0 <= j < height && 0 <= k < width ==> derivate[j, k] == Nearest(Horizontal, pred, height, width, j, k)
  {
    for j := 1 to height - 1
      invariant forall r, c :: 1 <= r < j && 0 <= c < width ==> derivate[r, c] == Nearest(Horizontal, pred, height, width, r, c)
    {
      HorizontalRow(pred, derivate, j, width, height);
    }
    hide Nearest, Gradient;
    NearestOfNearest(Horizontal, pred, height, width, 1, 0);
    NearestOfNearest(Horizontal, pred, height, width, 1, width - 1);
    NearestOfNearest(Horizontal, pred, height, width, height - 2, 0);
    NearestOfNearest(Horizontal, pred, height, width, height - 2, width - 1);
    TopAndBottom(derivate, width, height);
    forall j, k | 0 <= j < height && 0 <= k < width ensures derivate[j, k] == Nearest(Horizontal, pred, height, width, j, k) {
      NearestOfNearest(Horizontal, pred, height, width, j, k);
    }
  }

  method HorizontalRow(pred: Field, derivate: array2<int>, j: nat, width: nat, height: nat)
    requires width >= 3 && Inner(j, height) && derivate.Length0 >= height && derivate.Length1 >= width
    modifies derivate
    ensures forall c :: 0 <= c < width ==> derivate[j, c] == Nearest(Horizontal, pred, height, width, j, c)
    ensures forall r, c :: 0 <= r < derivate.Length0 && 0 <= c < derivate.Length1 && r != j ==> derivate[r, c] == old(derivate[r, c])
  {
    hide Gradient;
    for k := 1 to width - 1
      invariant forall c :: 1 <= c < k ==> derivate[j, c] == Gradient(Horizontal, pred, j, c)
      invariant forall r, c :: 0 <= r < derivate.Length0 && 0 <= c < derivate.Length1 && r != j ==> derivate[r, c] == old(derivate[r, c])
    {
      derivate[j, k] := Gradient(Horizontal, pred, j, k);
    }
    derivate[j, 0] := derivate[j, 1];
    derivate[j, width - 1] := derivate[j, width - 2];
  }

  /** Column by column: the inner samples, then the two ends of the column; then the corners, the left and the right. */
  method VerticalSobelFilter(pred: Field, derivate: array2<int>, width: nat, height: nat)
    requires width >= 3 && height >= 3 && derivate.Length0 >= height && derivate.Length1 >= width
    modifies derivate
    ensures forall j, k :: 0 <= j < height && 0 <= k < width ==> derivate[j, k] == Nearest(Vertical, pred, height, width, j, k)
  {
    for k := 1 to width - 1
      invariant forall r, c :: 0 <= r < height && 1 <= c < k ==> derivate[r, c] == Nearest(Vertical, pred, height, width, r, c)
    {
      VerticalColumn(pred, derivate, k, width, height);
    }
    hide Nearest, Gradient;
    NearestOfNearest(Vertical, pred, height, width, 0, 1);
    NearestOfNearest(Vertical, pred, height, width, height - 1, 1);
    NearestOfNearest(Vertical, pred, height, width, 0, width - 2);
    NearestOfNearest(Vertical, pred, height, width, height - 1, width - 2);
    LeftAndRight(derivate, width, height);
    forall j, k | 0 <= j < height && 0 <= k < width ensures derivate[j, k] == Nearest(Vertical, pred, height, width, j, k) {
      NearestOfNearest(Vertical, pred, height, width, j, k);
    }
  }

  method VerticalColumn(pred: Field, derivate: array2<int>, k: nat, width: nat, height: nat)
    requires height >= 3 && Inner(k, width) && derivate.Length0 >= height && derivate.Length1 >= width
    modifies derivate
    ensures forall r :: 0 <= r < height ==> derivate[r, k] == Nearest(Vertical, pred, height, width, r, k)
    ensures forall r, c :: 0 <= r < derivate.Length0 && 0 <= c < derivate.Length1 && c != k ==> derivate[r, c] == old(derivate[r, c])
  {
    hide Gradient;
    for j := 1 to height - 1
      invariant forall r :: 1 <= r < j ==> derivate[r, k] == Gradient(Vertical, pred, r, k)
      invariant forall r, c :: 0 <= r < derivate.Length0 && 0 <= c < derivate.Length1 && c != k ==> derivate[r, c] == old(derivate[r, c])
    {
      derivate[j, k] := Gradient(Vertical, pred, j, k);
    }
    derivate[0, k] := derivate[1, k];
    derivate[height - 1, k] := derivate[height - 2, k];
  }

  /** Each corner becomes the inner sample diagonally next to it. */
  method Corners(derivate: array2<int>, width: nat, height: nat)
    requires width >= 3 && height >= 3 && derivate.Length0 >= height && derivate.Length1 >= width
    modifies derivate
    ensures derivate[0, 0] == old(derivate[1, 1]) && derivate[0, width - 1] == old(derivate[1, width - 2])
    ensures derivate[height - 1, 0] == old(derivate[height - 2, 1])
    ensures derivate[height - 1, width - 1] == old(derivate[height - 2, width - 2])
    ensures forall r, c :: 0 <= r < derivate.Length0 && 0 <= c < derivate.Length1 && !((r == 0 || r == height - 1) && (c == 0 || c == width - 1)) ==>
      derivate[r, c] == old(derivate[r, c])
  {
    derivate[0, 0] := derivate[1, 1];
    derivate[0, width - 1] := derivate[1, width - 2];
    derivate[height - 1, 0] := derivate[height - 2, 1];
    derivate[height - 1, width - 1] := derivate[height - 2, width - 2];
  }

  /** The corners, then the rest of the top and the bottom row. */
  method TopAndBottom(derivate: array2<int>, width: nat, height: nat)
    requires width >= 3 && height >= 3 && derivate.Length0 >= height && derivate.Length1 >= width
    requires derivate[1, 0] == derivate[1, 1] && derivate[1, width - 1] == derivate[1, width - 2]
    requires derivate[height - 2, 0] == derivate[height - 2, 1] && derivate[height - 2, width - 1] == derivate[height - 2, width - 2]
    modifies derivate
    ensures forall r, c :: 0 <= r < height && 0 <= c < width ==> derivate[r, c] == old(derivate[Clip3(1, height - 2, r), c])
  {
    Corners(derivate, width, height);
    for j := 1 to width - 1
      invariant forall r, c :: 0 <= r < height && 0 <= c < width ==>
        derivate[r, c] == if c < j || c == width - 1 then old(derivate[Clip3(1, height - 2, r), c]) else old(derivate[r, c])
    {
      derivate[0, j] := derivate[1, j];
      derivate[height - 1, j] := derivate[height - 2, j];
    }
  }

  /** The corners, then the rest of the left and the right column. */
  method LeftAndRight(derivate: array2<int>, width: nat, height: nat)
    requires width >= 3 && height >= 3 && derivate.Length0 >= height && derivate.Length1 >= width
    requires derivate[0, 1] == derivate[1, 1] && derivate[0, width - 2] == derivate[1, width - 2]
    requires derivate[height - 1, 1] == derivate[height - 2, 1] && derivate[height - 1, width - 2] == derivate[height - 2, width - 2]
    modifies derivate
    ensures forall r, c :: 0 <= r < height && 0 <= c < width ==> derivate[r, c] == old(derivate[r, Clip3(1, width - 2, c)])
  {
    Corners(derivate, width, height);
    for j := 1 to height - 1
      invariant forall r, c :: 0 <= r < height && 0 <= c < width ==>
        derivate[r, c] == if r < j || r == height - 1 then old(derivate[r, Clip3(1, width - 2, c)]) else old(derivate[r, c])
    {
      derivate[j, 0] := derivate[j, 1];
      derivate[j, width - 1] := derivate[j, width - 2];
    }
  }
}

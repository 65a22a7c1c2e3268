/** What the loop filter computes: a rounded weighted mean over a diamond, whatever the row pointers and the orientation. */
module AlfFilterLaws {
  import opened Arithmetic
  import opened BitArithmetic
  import opened AlfClassification
  import opened AlfFilter
  import opened AlfSymmetry

  // The diamond

  /** A pair of opposite samples: so many rows and columns from the centre in one direction, and in the other. */
  datatype Tap = Tap(row: int, col: int)

  /** One row of taps, from right to left. */
  function RowTaps(row: int, from: int, downTo: int): seq<Tap>
    decreases from - downTo
  {
    if from < downTo then [] else [Tap(row, from)] + RowTaps(row, from - 1, downTo)
  }

  /** Half of a diamond in raster order, from the given row up to the centre's own, which ends beside the centre. */
  function HalfDiamond(radius: nat, row: nat): seq<Tap>
  {
    if row == 0 then RowTaps(0, radius, 1) else RowTaps(row, radius - row, row - radius) + HalfDiamond(radius, row - 1)
  }

  function Radius(shape: Shape): nat { if shape == Diamond7 then 3 else 2 }

  function Taps(shape: Shape): seq<Tap> { HalfDiamond(Radius(shape), Radius(shape)) }

  /** How far the samples of a tap are above or below the centre: no further than the virtual boundary. */
  function Far(tap: Tap, dist: nat): int { if tap.row < dist then tap.row else dist }

  /** The clipped difference of one sample to the centre. */
  function Difference(limit: int, val: int, curr: int): int
  {
    var d := val - curr;
    if d < -limit then -limit else if d > limit then limit else d
  }

  /** The weighted clipped differences of the first n taps around (r, c). */
  function Weighted(taps: seq<Tap>, n: nat, rec: Plane, r: int, c: int, dist: nat, f: seq<int>, clip: seq<int>): int
    requires n <= |taps| <= |f| == |clip|
  {
    if n == 0 then 0
    else
      var t, d, curr := taps[n - 1], Far(taps[n - 1], dist), rec(r, c);
      Weighted(taps, n - 1, rec, r, c, dist, f, clip)
      + f[n - 1] * (Difference(clip[n - 1], rec(r + d, c + t.col), curr) + Difference(clip[n - 1], rec(r - d, c - t.col), curr))
  }

  lemma TapsOf7()
    ensures Taps(Diamond7) == [Tap(3, 0), Tap(2, 1), Tap(2, 0), Tap(2, -1), Tap(1, 2), Tap(1, 1), Tap(1, 0), Tap(1, -1), Tap(1, -2),
                               Tap(0, 3), Tap(0, 2), Tap(0, 1)]
  {
    assert RowTaps(3, 0, 0) == [Tap(3, 0)];
    assert RowTaps(2, 1, -1) == [Tap(2, 1), Tap(2, 0), Tap(2, -1)];
    assert RowTaps(1, 2, -2) == [Tap(1, 2)] + ([Tap(1, 1), Tap(1, 0), Tap(1, -1)] + RowTaps(1, -2, -2));
    assert RowTaps(0, 3, 1) == [Tap(0, 3), Tap(0, 2), Tap(0, 1)];
    assert HalfDiamond(3, 1) == RowTaps(1, 2, -2) + RowTaps(0, 3, 1);
    assert HalfDiamond(3, 2) == RowTaps(2, 1, -1) + HalfDiamond(3, 1);
    assert HalfDiamond(3, 3) == RowTaps(3, 0, 0) + HalfDiamond(3, 2);
  }

  lemma TapsOf5()
    ensures Taps(Diamond5) == [Tap(2, 0), Tap(1, 1), Tap(1, 0), Tap(1, -1), Tap(0, 2), Tap(0, 1)]
  {
    assert RowTaps(2, 0, 0) == [Tap(2, 0)];
    assert RowTaps(1, 1, -1) == [Tap(1, 1), Tap(1, 0), Tap(1, -1)];
    assert RowTaps(0, 2, 1) == [Tap(0, 2), Tap(0, 1)];
    assert HalfDiamond(2, 1) == RowTaps(1, 1, -1) + RowTaps(0, 2, 1);
    assert HalfDiamond(2, 2) == RowTaps(2, 0, 0) + HalfDiamond(2, 1);
  }

  /** One more tap, in the filter's own terms. */
  lemma WeightedStep(taps: seq<Tap>, n: nat, rec: Plane, r: int, c: int, dist: nat, f: seq<int>, clip: seq<int>, tap: Tap,
                     row0: int, col0: int, row1: int, col1: int)
    requires n < |taps| <= |f| == |clip| && taps[n] == tap && tap.row >= 0
    requires row0 == r + MinInt(tap.row, dist) && row1 == r - MinInt(tap.row, dist) && col0 == c + tap.col && col1 == c - tap.col
    ensures Weighted(taps, n + 1, rec, r, c, dist, f, clip)
         == Weighted(taps, n, rec, r, c, dist, f, clip) + Term(f[n], clip[n], rec(r, c), rec(row0, col0), rec(row1, col1))
  {
    hide Weighted;
    TermIsDifference(f[n], clip[n], rec(r, c), rec(row0, col0), rec(row1, col1));
    WeightedGrows(taps, n, rec, r, c, dist, f, clip);
  }

  lemma WeightedGrows(taps: seq<Tap>, n: nat, rec: Plane, r: int, c: int, dist: nat, f: seq<int>, clip: seq<int>)
    requires n < |taps| <= |f| == |clip|
    ensures var t, d, curr := taps[n], Far(taps[n], dist), rec(r, c);
            Weighted(taps, n + 1, rec, r, c, dist, f, clip) == Weighted(taps, n, rec, r, c, dist, f, clip)
              + f[n] * (Difference(clip[n], rec(r + d, c + t.col), curr) + Difference(clip[n], rec(r - d, c - t.col), curr))
  {}

  lemma TermIsDifference(coeff: int, limit: int, curr: int, val0: int, val1: int)
    ensures Term(coeff, limit, curr, val0, val1) == coeff * (Difference(limit, val0, curr) + Difference(limit, val1, curr))
  {}

  /** The four pairs in the outer rows. */
  lemma OuterTaps(taps: seq<Tap>, rec: Plane, r: int, c: int, dist: nat, f: seq<int>, clip: seq<int>, p: Rows)
    requires |f| == |clip| == NUM_COEFF && taps == Taps(Diamond7) && |taps| == 12 && p == ClampedRows(r, dist)
    ensures Weighted(taps, 4, rec, r, c, dist, f, clip)
         == Term(f[0], clip[0], rec(p.img0, c), rec(p.img5, c), rec(p.img6, c))
            + Term(f[1], clip[1], rec(p.img0, c), rec(p.img3, c + 1), rec(p.img4, c - 1))
            + Term(f[2], clip[2], rec(p.img0, c), rec(p.img3, c), rec(p.img4, c))
            + Term(f[3], clip[3], rec(p.img0, c), rec(p.img3, c - 1), rec(p.img4, c + 1))
  {
    hide Term, Taps;
    TapsOf7();
    assert Weighted(taps, 0, rec, r, c, dist, f, clip) == 0;
    assert p.img0 == r;
    hide Weighted;
    WeightedStep(taps, 0, rec, r, c, dist, f, clip, Tap(3, 0), p.img5, c, p.img6, c);
    WeightedStep(taps, 1, rec, r, c, dist, f, clip, Tap(2, 1), p.img3, c + 1, p.img4, c - 1);
    WeightedStep(taps, 2, rec, r, c, dist, f, clip, Tap(2, 0), p.img3, c, p.img4, c);
    WeightedStep(taps, 3, rec, r, c, dist, f, clip, Tap(2, -1), p.img3, c - 1, p.img4, c + 1);
  }

  lemma TapSum7IsWeighted(rec: Plane, r: int, c: int, dist: nat, f: seq<int>, clip: seq<int>)
    requires |f| == |clip| == NUM_COEFF && |Taps(Diamond7)| == 12
    ensures TapSum(Diamond7, rec, ClampedRows(r, dist), c, f, clip) == Weighted(Taps(Diamond7), 12, rec, r, c, dist, f, clip)
  {
    hide Term, Taps, Weighted;
    var taps, p := Taps(Diamond7), ClampedRows(r, dist);
    TapsOf7();
    OuterTaps(taps, rec, r, c, dist, f, clip, p);
    assert p.img0 == r;
    WeightedStep(taps, 4, rec, r, c, dist, f, clip, Tap(1, 2), p.img1, c + 2, p.img2, c - 2);
    WeightedStep(taps, 5, rec, r, c, dist, f, clip, Tap(1, 1), p.img1, c + 1, p.img2, c - 1);
    WeightedStep(taps, 6, rec, r, c, dist, f, clip, Tap(1, 0), p.img1, c, p.img2, c);
    WeightedStep(taps, 7, rec, r, c, dist, f, clip, Tap(1, -1), p.img1, c - 1, p.img2, c + 1);
    WeightedStep(taps, 8, rec, r, c, dist, f, clip, Tap(1, -2), p.img1, c - 2, p.img2, c + 2);
    WeightedStep(taps, 9, rec, r, c, dist, f, clip, Tap(0, 3), p.img0, c + 3, p.img0, c - 3);
    WeightedStep(taps, 10, rec, r, c, dist, f, clip, Tap(0, 2), p.img0, c + 2, p.img0, c - 2);
    WeightedStep(taps, 11, rec, r, c, dist, f, clip, Tap(0, 1), p.img0, c + 1, p.img0, c - 1);
    hide ClampedRows;
  }

  lemma TapSum5IsWeighted(rec: Plane, r: int, c: int, dist: nat, f: seq<int>, clip: seq<int>)
    requires |f| == |clip| == NUM_COEFF && |Taps(Diamond5)| == 6
    ensures TapSum(Diamond5, rec, ClampedRows(r, dist), c, f, clip) == Weighted(Taps(Diamond5), 6, rec, r, c, dist, f, clip)
  {
    hide Term;
    var taps, p := Taps(Diamond5), ClampedRows(r, dist);
    TapsOf5();
    hide Taps;
    assert Weighted(taps, 0, rec, r, c, dist, f, clip) == 0;
    assert p.img0 == r;
    hide Weighted;
    WeightedStep(taps, 0, rec, r, c, dist, f, clip, Tap(2, 0), p.img3, c, p.img4, c);
    WeightedStep(taps, 1, rec, r, c, dist, f, clip, Tap(1, 1), p.img1, c + 1, p.img2, c - 1);
    WeightedStep(taps, 2, rec, r, c, dist, f, clip, Tap(1, 0), p.img1, c, p.img2, c);
    WeightedStep(taps, 3, rec, r, c, dist, f, clip, Tap(1, -1), p.img1, c - 1, p.img2, c + 1);
    WeightedStep(taps, 4, rec, r, c, dist, f, clip, Tap(0, 2), p.img0, c + 2, p.img0, c - 2);
    WeightedStep(taps, 5, rec, r, c, dist, f, clip, Tap(0, 1), p.img0, c + 1, p.img0, c - 1);
    hide ClampedRows;
  }

  /** The sum over the row pointers is the sum over the diamond. */
  lemma TapSumIsWeighted(shape: Shape, rec: Plane, r: int, c: int, dist: nat, f: seq<int>, clip: seq<int>)
    requires |f| == |clip| == NUM_COEFF
    ensures |Taps(shape)| < NUM_COEFF
    ensures TapSum(shape, rec, ClampedRows(r, dist), c, f, clip) == Weighted(Taps(shape), |Taps(shape)|, rec, r, c, dist, f, clip)
  {
    hide Taps, TapSum, Weighted, ClampedRows;
    TapCount(shape);
    if shape == Diamond7 {
      TapSum7IsWeighted(rec, r, c, dist, f, clip);
    } else {
      TapSum5IsWeighted(rec, r, c, dist, f, clip);
    }
  }

  lemma TapCount(shape: Shape)
    ensures |Taps(shape)| == (if shape == Diamond7 then 12 else 6) < NUM_COEFF
  {
    TapsOf7();
    TapsOf5();
  }

  lemma {:induction false} ShiftDownIsFloor(x: int, n: nat)
    ensures ShiftDown(x, n) == x / Pow2(n)
    decreases n
  {
    if n > 0 {
      ShiftDownIsFloor(x / 2, n - 1);
      DivideTwice(x, 2, Pow2(n - 1));
    }
  }

  lemma Shifts(x: int)
    ensures ShiftDown(x, 7) == x / 128 && ShiftDown(x, 10) == x / 1024
  {
    Pow2Small();
    assert Pow2(10) == 2 * Pow2(9) && Pow2(9) == 2 * Pow2(8);
    hide ShiftDown, Pow2;
    ShiftDownIsFloor(x, 7);
    ShiftDownIsFloor(x, 10);
  }

  /** A sample plus its sum over the diamond in 128ths, or in 1024ths, rounded to the nearest. */
  lemma SampleIsMean(shape: Shape, rec: Plane, r: int, c: int, dist: nat, f: seq<int>, clip: seq<int>, near: bool, rng: ClpRng)
    requires |f| == |clip| == NUM_COEFF
    ensures |Taps(shape)| < NUM_COEFF
    ensures var sum := Weighted(Taps(shape), |Taps(shape)|, rec, r, c, dist, f, clip);
            FilterSample(shape, rec, ClampedRows(r, dist), c, f, clip, near, rng)
            == Clip3(rng.min, rng.max, rec(r, c) + if near then (sum + 512) / 1024 else (sum + 64) / 128)
  {
    hide Taps, TapSum, Weighted, ShiftDown;
    TapSumIsWeighted(shape, rec, r, c, dist, f, clip);
    var sum := TapSum(shape, rec, ClampedRows(r, dist), c, f, clip);
    Shifts(sum + 64);
    Shifts(sum + 512);
    assert ClampedRows(r, dist).img0 == r;
    hide ClampedRows;
  }

  /**
   * The filter at any position: the sample plus the weighted clipped differences of the diamond around it, in 128ths and
   * rounded to the nearest, or in 1024ths next to the virtual boundary.
   */
  lemma FilteredIsMean(shape: Shape, rec: Plane, b: Boundary, r: int, c: int, y: int, f: seq<int>, clip: seq<int>, rng: ClpRng)
    requires |f| == |clip| == NUM_COEFF
    ensures |Taps(shape)| < NUM_COEFF
    ensures var dist := RowsToBoundary(b, b.Row(y));
            var sum := Weighted(Taps(shape), |Taps(shape)|, rec, r, c, dist, f, clip);
            FilteredAt(shape, rec, b, r, c, y, f, clip, rng)
            == Clip3(rng.min, rng.max, rec(r, c) + if dist == 0 then (sum + 512) / 1024 else (sum + 64) / 128)
  {
    var dist := RowsToBoundary(b, b.Row(y));
    hide Taps, Weighted, FilterSample, ClampedRows, MaskRow;
    SampleIsMean(shape, rec, r, c, dist, f, clip, dist == 0, rng);
  }

  // Filters without clipping

  /** The weighted samples of the first n pairs. */
  function Pairs(taps: seq<Tap>, n: nat, rec: Plane, r: int, c: int, dist: nat, f: seq<int>): int
    requires n <= |taps| <= |f|
  {
    if n == 0 then 0
    else
      var t, d := taps[n - 1], Far(taps[n - 1], dist);
      Pairs(taps, n - 1, rec, r, c, dist, f) + f[n - 1] * (rec(r + d, c + t.col) + rec(r - d, c - t.col))
  }

  /** Twice the sum of the first n weights: what the centre gives to the pairs. */
  function Given(n: nat, f: seq<int>): int
    requires n <= |f|
  {
    if n == 0 then 0 else Given(n - 1, f) + 2 * f[n - 1]
  }

  /** No difference of the first n pairs is clipped. */
  ghost predicate Linear(taps: seq<Tap>, n: nat, rec: Plane, r: int, c: int, dist: nat, clip: seq<int>)
    requires n <= |taps| <= |clip|
  {
    forall k :: 0 <= k < n ==>
      var t, d := taps[k], Far(taps[k], dist);
      Abs(rec(r + d, c + t.col) - rec(r, c)) <= clip[k] && Abs(rec(r - d, c - t.col) - rec(r, c)) <= clip[k]
  }

  lemma {:induction false} WeightedOfLinear(taps: seq<Tap>, n: nat, rec: Plane, r: int, c: int, dist: nat, f: seq<int>, clip: seq<int>)
    requires n <= |taps| <= |f| == |clip| && Linear(taps, n, rec, r, c, dist, clip)
    ensures Weighted(taps, n, rec, r, c, dist, f, clip) == Pairs(taps, n, rec, r, c, dist, f) - Given(n, f) * rec(r, c)
  {
    if n > 0 {
      WeightedOfLinear(taps, n - 1, rec, r, c, dist, f, clip);
      var t, d, curr := taps[n - 1], Far(taps[n - 1], dist), rec(r, c);
      PairOfLinear(f[n - 1], rec(r + d, c + t.col), rec(r - d, c - t.col), curr, Given(n - 1, f));
      assert Difference(clip[n - 1], rec(r + d, c + t.col), curr) == rec(r + d, c + t.col) - curr;
      assert Difference(clip[n - 1], rec(r - d, c - t.col), curr) == rec(r - d, c - t.col) - curr;
    }
  }

  lemma PairOfLinear(w: int, a: int, b: int, curr: int, given: int)
    ensures w * ((a - curr) + (b - curr)) == w * (a + b) - 2 * w * curr
    ensures (given + 2 * w) * curr == given * curr + 2 * w * curr
  {}

  /** Away from the boundary a filter that clips nothing is a mean whose weights, the centre's included, sum to 128. */
  lemma LinearFilterIsMean(shape: Shape, rec: Plane, b: Boundary, r: int, c: int, y: int, f: seq<int>, clip: seq<int>, rng: ClpRng)
    requires |f| == |clip| == NUM_COEFF && |Taps(shape)| <= NUM_COEFF && RowsToBoundary(b, b.Row(y)) > 0
    requires Linear(Taps(shape), |Taps(shape)|, rec, r, c, RowsToBoundary(b, b.Row(y)), clip)
    ensures var dist, n := RowsToBoundary(b, b.Row(y)), |Taps(shape)|;
            FilteredAt(shape, rec, b, r, c, y, f, clip, rng)
            == Clip3(rng.min, rng.max, ((128 - Given(n, f)) * rec(r, c) + Pairs(Taps(shape), n, rec, r, c, dist, f) + 64) / 128)
  {
    hide Taps, Weighted, Given, Pairs, Linear, RowsToBoundary, MaskRow, FilteredAt, Clip3;
    var dist, n, curr := RowsToBoundary(b, b.Row(y)), |Taps(shape)|, rec(r, c);
    FilteredIsMean(shape, rec, b, r, c, y, f, clip, rng);
    WeightedOfLinear(Taps(shape), n, rec, r, c, dist, f, clip);
    CentreWeight(curr, Given(n, f), Pairs(Taps(shape), n, rec, r, c, dist, f));
  }

  lemma CentreWeight(curr: int, given: int, pairs: int)
    ensures ((128 - given) * curr + pairs + 64) / 128 == curr + (pairs - given * curr + 64) / 128
  {
    assert (128 - given) * curr == 128 * curr - given * curr;
    var x := pairs - given * curr + 64;
    assert (128 * curr + x) / 128 == curr + x / 128;
  }

  /** With clip values of one more than the greatest sample, as the fixed filters have, nothing is clipped. */
  lemma DefaultClipsAreLinear(shape: Shape, rec: Plane, bits: nat, r: int, c: int, dist: nat, clip: seq<int>)
    requires |clip| == NUM_COEFF && |Taps(shape)| <= NUM_COEFF && HasDepth(rec, bits)
    requires forall k :: 0 <= k < NUM_COEFF ==> clip[k] == Pow2(bits)
    ensures Linear(Taps(shape), |Taps(shape)|, rec, r, c, dist, clip)
  {
    hide Taps, Pow2;
  }

  lemma {:induction false} OneWeight(taps: seq<Tap>, n: nat, rec: Plane, r: int, c: int, dist: nat, f: seq<int>, k: nat)
    requires n <= |taps| <= |f| && k < |taps| && forall i :: 0 <= i < |taps| && i != k ==> f[i] == 0
    ensures var t, d := taps[k], Far(taps[k], dist);
            Pairs(taps, n, rec, r, c, dist, f) == if k < n then f[k] * (rec(r + d, c + t.col) + rec(r - d, c - t.col)) else 0
    ensures Given(n, f) == if k < n then 2 * f[k] else 0
  {
    if n > 0 { OneWeight(taps, n - 1, rec, r, c, dist, f, k); }
  }

  /** A filter of one coefficient of one half, clipping nothing, gives the rounded mean of that pair. */
  lemma HalfTap(shape: Shape, rec: Plane, b: Boundary, r: int, c: int, y: int, f: seq<int>, clip: seq<int>, rng: ClpRng, k: nat)
    requires |f| == |clip| == NUM_COEFF && k < |Taps(shape)| <= NUM_COEFF && RowsToBoundary(b, b.Row(y)) > 0
    requires Linear(Taps(shape), |Taps(shape)|, rec, r, c, RowsToBoundary(b, b.Row(y)), clip)
    requires f[k] == 64 && forall i :: 0 <= i < |Taps(shape)| && i != k ==> f[i] == 0
    ensures var t, d := Taps(shape)[k], Far(Taps(shape)[k], RowsToBoundary(b, b.Row(y)));
            FilteredAt(shape, rec, b, r, c, y, f, clip, rng)
            == Clip3(rng.min, rng.max, (rec(r + d, c + t.col) + rec(r - d, c - t.col) + 1) / 2)
  {
    hide Taps, RowsToBoundary, MaskRow, FilteredAt, Linear;
    LinearFilterIsMean(shape, rec, b, r, c, y, f, clip, rng);
    OneWeight(Taps(shape), |Taps(shape)|, rec, r, c, RowsToBoundary(b, b.Row(y)), f, k);
  }

  // Filter sets

  /** The sets of all classes, one behind the other. */
  function FilterSet(filters: seq<seq<int>>): (s: seq<int>)
    ensures (forall i :: 0 <= i < |filters| ==> |filters[i]| == NUM_COEFF) ==> |s| == |filters| * NUM_COEFF
  {
    if filters == [] then [] else FilterSet(filters[..|filters| - 1]) + filters[|filters| - 1]
  }

  /** The slice of a class is the filter that was put there. */
  lemma {:induction false} SliceOfFilterSet(filters: seq<seq<int>>, k: nat)
    requires k < |filters| && forall i :: 0 <= i < |filters| ==> |filters[i]| == NUM_COEFF
    ensures ClassSlice(FilterSet(filters), k) == filters[k]
    decreases |filters|
  {
    var front := filters[..|filters| - 1];
    if k < |front| {
      SliceOfFilterSet(front, k);
      assert ClassSlice(FilterSet(filters), k) == ClassSlice(FilterSet(front), k);
    }
  }

  /**
   * Away from the boundary, a luma sample becomes the mean over the diamond in the plane that the transpose index turns,
   * with the weights and clip values of its class as they were given.
   */
  lemma FilterOfClass(flt: Filter, filters: seq<seq<int>>, clips: seq<seq<int>>, rec: Plane, b: Boundary, cl: AlfClassifier,
                      r: int, c: int, y: int)
    requires flt.Valid() && !flt.chroma && cl.classIdx < 25 && cl.transposeIdx < 4 && RowsToBoundary(b, b.Row(y)) >= 3
    requires |filters| == |clips| == 25 && flt.filterSet == FilterSet(filters) && flt.clipSet == FilterSet(clips)
    requires forall i :: 0 <= i < 25 ==> |filters[i]| == |clips[i]| == NUM_COEFF
    ensures |Taps(flt.shape)| < NUM_COEFF
    ensures var turned, (r', c') := Turned(cl.transposeIdx, rec), TurnedPosition(cl.transposeIdx, r, c);
            var sum := Weighted(Taps(flt.shape), |Taps(flt.shape)|, turned, r', c', 3, filters[cl.classIdx], clips[cl.classIdx]);
            flt.At(rec, b, cl, r, c, y) == Clip3(flt.rng.min, flt.rng.max, rec(r, c) + (sum + 64) / 128)
  {
    hide Taps, Weighted, MaskRow, FilterSet, Filter.At, FilteredAt, FilterSample, Permute, ClassSlice;
    var turned, f, clip := Turned(cl.transposeIdx, rec), filters[cl.classIdx], clips[cl.classIdx];
    var (r', c') := TurnedPosition(cl.transposeIdx, r, c);
    SliceOfFilterSet(filters, cl.classIdx);
    SliceOfFilterSet(clips, cl.classIdx);
    PlainIsFiltered(flt, rec, b, cl, r, c, y);
    FilterTurned(flt.shape, cl.transposeIdx, rec, r, c, f, clip, flt.rng);
    assert turned(r', c') == rec(r, c);
    PlainIsMean(flt.shape, turned, r', c', f, clip, flt.rng);
  }

  lemma PlainIsMean(shape: Shape, rec: Plane, r: int, c: int, f: seq<int>, clip: seq<int>, rng: ClpRng)
    requires |f| == |clip| == NUM_COEFF
    ensures |Taps(shape)| < NUM_COEFF
    ensures FilterSample(shape, rec, PlainRows(r), c, f, clip, false, rng)
         == Clip3(rng.min, rng.max, rec(r, c) + (Weighted(Taps(shape), |Taps(shape)|, rec, r, c, 3, f, clip) + 64) / 128)
  {
    hide *;
    ThreeRowsArePlain(r);
    SampleIsMean(shape, rec, r, c, 3, f, clip, false, rng);
  }

  lemma ThreeRowsArePlain(r: int)
    ensures ClampedRows(r, 3) == PlainRows(r)
  {}
}

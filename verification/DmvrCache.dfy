/** The cache of DMVR vectors from which CodingStructure.cpp's addCU hands out slices. */
module DmvrCaches {
  import opened Arithmetic
  import opened Geometry
  import opened MotionHistory

  const DMVR_SUBCU_SIZE_LOG2: nat := 4

  /** Only luma blocks of at least 8x8 and 128 samples refine their vectors. */
  predicate Refines(block: Area)
  {
    block.height >= 8 && block.width >= 8 && block.Size() >= 128
  }

  /** One vector per 16x16 part, at least one in either direction. */
  function MvdArrSize(block: Area): nat
  {
    MulNat(Max(1, Down(block.width, DMVR_SUBCU_SIZE_LOG2)), Max(1, Down(block.height, DMVR_SUBCU_SIZE_LOG2)))
  }

  function MvdTotal(blocks: seq<Area>): nat
    requires forall b :: b in blocks ==> Refines(b)
  {
    if blocks == [] then 0 else MvdTotal(blocks[..|blocks| - 1]) + MvdArrSize(blocks[|blocks| - 1])
  }

  lemma DownIsDivision(x: nat)
    ensures Down(x, 4) == x / 16 && Down(x, 3) == x / 8
  {
    assert Down(x, 4) == Down(x / 2, 3) && Down(x, 3) == Down(x / 2, 2) && Down(x / 2, 3) == Down(x / 4, 2);
    assert Down(x / 2, 2) == Down(x / 4, 1) && Down(x / 4, 2) == Down(x / 8, 1);
  }

  lemma MulMonotone(a: nat, b: nat, c: nat, d: nat)
    requires a <= c && b <= d
    ensures MulNat(a, b) <= MulNat(c, d)
  {
    assert a * b <= c * b <= c * d;
  }

  /** A block takes at most one vector per 64 samples. */
  lemma MvdArrSizeBound(block: Area)
    requires Refines(block)
    ensures 64 * MvdArrSize(block) <= block.Size()
  {
    var w, h := block.width / 8, block.height / 8;
    DownIsDivision(block.width);
    DownIsDivision(block.height);
    MulMonotone(Max(1, Down(block.width, 4)), Max(1, Down(block.height, 4)), w, h);
    hide Down;
    MulMonotone(8 * w, 8 * h, block.width, block.height);
    EightTimesEight(w, h);
    hide MulNat;
  }

  lemma EightTimesEight(w: nat, h: nat)
    ensures MulNat(8 * w, 8 * h) == 64 * MulNat(w, h)
  {}

  lemma {:induction false} MvdTotalBound(blocks: seq<Area>)
    requires forall b :: b in blocks ==> Refines(b)
    ensures 64 * MvdTotal(blocks) <= TotalSize(blocks)
    decreases |blocks|
  {
    if blocks != [] {
      MvdTotalBound(blocks[..|blocks| - 1]);
      MvdArrSizeBound(blocks[|blocks| - 1]);
    }
  }

  class DmvrCache {
    const size: nat
    var offset: nat
    // the area that is being coded, and the luma blocks that took a slice since the last Reset
    ghost var area: Area
    ghost var blocks: seq<Area>

    ghost predicate Valid()
      reads this
    {
      && area.Size() <= 64 * size
      && Packed(blocks, area) && (forall b :: b in blocks ==> Refines(b))
      && offset == MvdTotal(blocks)
    }

    /** createTempBuffers: one vector per 8x8 part of the area, whose sides are multiples of 8. */
    constructor (allocArea: Area)
      requires allocArea.width % 8 == 0 && allocArea.height % 8 == 0
      ensures Valid() && blocks == [] && area == allocArea && 64 * size == allocArea.Size()
    {
      DownIsDivision(allocArea.width);
      DownIsDivision(allocArea.height);
      size := MulNat(Down(allocArea.width, 3), Down(allocArea.height, 3));
      offset, area, blocks := 0, allocArea, [];
      new;
      assert MulNat(8 * (allocArea.width / 8), 8 * (allocArea.height / 8)) == 64 * size;
    }

    /** initStructData: starts again, for an area that compactResize accepts. */
    method Reset(newArea: Area)
      requires newArea.Size() <= 64 * size
      modifies this
      ensures Valid() && blocks == [] && area == newArea
    {
      offset, area, blocks := 0, newArea, [];
    }

    /** The slice of a new block apart from all earlier ones: it starts behind the slices taken and ends inside the cache. */
    method Allocate(block: Area) returns (start: nat)
      requires Valid() && Refines(block) && Inside(block, area)
      requires forall i :: 0 <= i < |blocks| ==> Separate(blocks[i], block)
      modifies this
      ensures Valid() && blocks == old(blocks) + [block] && area == old(area)
      ensures start == old(offset) && start + MvdArrSize(block) == offset <= size
      ensures old(offset) < size
    {
      start := offset;
      offset := offset + MvdArrSize(block);
      assert (blocks + [block])[..|blocks|] == blocks;
      blocks := blocks + [block];
      MvdTotalBound(blocks);
      PackedSize(blocks, area);
      MvdArrSizePositive(block);
    }

    /** addCU's part for a luma block: only blocks that can refine their vectors take a slice. */
    method AddVectors(block: Area) returns (taken: bool, start: nat)
      requires Valid()
      requires Refines(block) ==> Inside(block, area) && forall i :: 0 <= i < |blocks| ==> Separate(blocks[i], block)
      modifies this
      ensures Valid() && area == old(area)
      ensures taken <==> Refines(block)
      ensures taken ==> blocks == old(blocks) + [block] && start == old(offset) && start + MvdArrSize(block) == offset <= size
      ensures !taken ==> blocks == old(blocks) && offset == old(offset)
    {
      taken, start := false, 0;
      if block.height >= 8 && block.width >= 8 && block.Size() >= 128 {
        start := Allocate(block);
        taken := true;
      }
    }
  }

  // What the slices are for: InterPrediction.cpp refines a block in parts of at most 16x16 samples, in raster order

  const DMVR_SUBCU_SIZE: nat := 16

  /** How many parts a side is cut into; the last one may be shorter. */
  function Parts(side: nat): nat { (side + DMVR_SUBCU_SIZE - 1) / DMVR_SUBCU_SIZE }

  /** The sides that a slice is made for. */
  predicate WholeParts(side: nat) { side <= DMVR_SUBCU_SIZE || side % DMVR_SUBCU_SIZE == 0 }

  lemma SideVectors(side: nat)
    requires side >= 1
    ensures 1 <= Max(1, Down(side, DMVR_SUBCU_SIZE_LOG2)) <= Parts(side)
    ensures Max(1, Down(side, DMVR_SUBCU_SIZE_LOG2)) == Parts(side) <==> WholeParts(side)
  {
    DownIsDivision(side);
    hide Down;
  }

  /** A slice has a vector for every part exactly when the sides are at most 16 or multiples of 16, and never one too many. */
  lemma VectorForEveryPart(block: Area)
    requires block.width >= 1 && block.height >= 1
    ensures MvdArrSize(block) <= MulNat(Parts(block.width), Parts(block.height))
    ensures MvdArrSize(block) == MulNat(Parts(block.width), Parts(block.height)) <==> WholeParts(block.width) && WholeParts(block.height)
  {
    SideVectors(block.width);
    SideVectors(block.height);
    var a, b := Max(1, Down(block.width, DMVR_SUBCU_SIZE_LOG2)), Max(1, Down(block.height, DMVR_SUBCU_SIZE_LOG2));
    hide Down, Parts, WholeParts;
    MulStrict(a, b, Parts(block.width), Parts(block.height));
  }

  lemma MulStrict(a: nat, b: nat, c: nat, d: nat)
    requires 1 <= a <= c && 1 <= b <= d
    ensures MulNat(a, b) <= MulNat(c, d)
    ensures MulNat(a, b) == MulNat(c, d) <==> a == c && b == d
  {
    ProductsInOrder(a, c, b);
    ProductsInOrder(b, d, c);
    if a < c { MultiplyMore(c, a, b); }
    if b < d { MultiplyMore(d, b, c); }
  }

  /** The vector of part (i, j), row j, of a block, counted from the start of its slice. */
  function PartIndex(block: Area, i: nat, j: nat): nat { MulNat(j, Parts(block.width)) + i }

  predicate HasPart(block: Area, i: nat, j: nat)
  {
    i < Parts(block.width) && j < Parts(block.height)
  }

  lemma PartInSlice(block: Area, i: nat, j: nat)
    requires block.width >= 1 && block.height >= 1 && WholeParts(block.width) && WholeParts(block.height) && HasPart(block, i, j)
    ensures PartIndex(block, i, j) < MvdArrSize(block)
  {
    VectorForEveryPart(block);
    var w, h := Parts(block.width), Parts(block.height);
    hide Parts, MvdArrSize, WholeParts;
    ProductsInOrder(j + 1, h, w);
    Distribute(w, j, 1);
    assert w * h == h * w;
  }

  lemma PartsApart(block: Area, i: nat, j: nat, i': nat, j': nat)
    requires HasPart(block, i, j) && HasPart(block, i', j') && PartIndex(block, i, j) == PartIndex(block, i', j')
    ensures i == i' && j == j'
  {
    var w := Parts(block.width);
    hide Parts;
    Quotient(j, i, w);
    Quotient(j', i', w);
  }

  /** Where the slice of block k starts. */
  function SliceStart(blocks: seq<Area>, k: nat): nat
    requires k <= |blocks| && forall b :: b in blocks ==> Refines(b)
  {
    MvdTotal(blocks[..k])
  }

  lemma {:induction false} SliceEnds(blocks: seq<Area>, k: nat, l: nat)
    requires k < l <= |blocks| && forall b :: b in blocks ==> Refines(b)
    ensures SliceStart(blocks, k) + MvdArrSize(blocks[k]) <= SliceStart(blocks, l)
    decreases l
  {
    assert blocks[..l][..l - 1] == blocks[..l - 1];
    if k < l - 1 { SliceEnds(blocks, k, l - 1); }
  }

  /** The vectors of different parts or different blocks are different entries of the cache. */
  lemma VectorsApart(blocks: seq<Area>, k: nat, i: nat, j: nat, k': nat, i': nat, j': nat)
    requires k < |blocks| && k' < |blocks| && forall b :: b in blocks ==> Refines(b) && WholeParts(b.width) && WholeParts(b.height)
    requires HasPart(blocks[k], i, j) && HasPart(blocks[k'], i', j')
    requires SliceStart(blocks, k) + PartIndex(blocks[k], i, j) == SliceStart(blocks, k') + PartIndex(blocks[k'], i', j')
    ensures k == k' && i == i' && j == j'
  {
    hide SliceStart, MvdArrSize, HasPart, PartIndex, WholeParts;
    PartInSlice(blocks[k], i, j);
    PartInSlice(blocks[k'], i', j');
    if k < k' {
      SliceEnds(blocks, k, k');
    } else if k' < k {
      SliceEnds(blocks, k', k);
    } else {
      PartsApart(blocks[k], i, j, i', j');
    }
  }

  /** The side of a part. */
  function PartSide(side: nat): nat { Min(side, DMVR_SUBCU_SIZE) }

  lemma PartsCover(side: nat)
    requires side >= 1 && WholeParts(side)
    ensures PartSide(side) >= 1 && MulNat(Parts(side), PartSide(side)) == side
  {}

  /** Of the parts in raster order, those before the n-th have what was found at their place in the block. */
  ghost predicate Refined(v: seq<Mv>, start: nat, block: Area, found: (nat, nat) -> Mv, n: nat)
  {
    forall i, j :: HasPart(block, i, j) && PartIndex(block, i, j) < n ==>
      && start + PartIndex(block, i, j) < |v|
      && v[start + PartIndex(block, i, j)] == found(MulNat(i, PartSide(block.width)), MulNat(j, PartSide(block.height)))
  }

  lemma RefinedStep(v: seq<Mv>, start: nat, block: Area, found: (nat, nat) -> Mv, i: nat, j: nat)
    requires HasPart(block, i, j) && start + PartIndex(block, i, j) < |v| && Refined(v, start, block, found, PartIndex(block, i, j))
    ensures var n := PartIndex(block, i, j);
            Refined(v[start + n := found(MulNat(i, PartSide(block.width)), MulNat(j, PartSide(block.height)))], start, block, found, n + 1)
  {
    var n := PartIndex(block, i, j);
    hide MulNat, PartSide;
    forall i', j' | HasPart(block, i', j') && PartIndex(block, i', j') == n ensures i' == i && j' == j {
      PartsApart(block, i, j, i', j');
    }
    hide HasPart, PartIndex;
  }

  /** Whether one more step stays within a side. */
  lemma NextPart(side: nat, k: nat)
    requires side >= 1 && WholeParts(side) && k <= Parts(side)
    ensures MulNat(k, PartSide(side)) < side <==> k < Parts(side)
    ensures MulNat(k + 1, PartSide(side)) == MulNat(k, PartSide(side)) + PartSide(side)
  {
    PartsCover(side);
    var d, n := PartSide(side), Parts(side);
    hide PartSide, Parts, WholeParts;
    Distribute(d, k, 1);
    if k < n { MultiplyMore(n, k, d); }
  }

  /**
   * The refinement loop of a block whose sides are whole parts: one vector per part, in raster order from the start of the
   * block's slice, all of them inside it; the other entries are left alone.
   */
  method RefineParts(vectors: array<Mv>, start: nat, block: Area, found: (nat, nat) -> Mv)
    requires block.width >= 1 && block.height >= 1 && WholeParts(block.width) && WholeParts(block.height)
    requires start + MvdArrSize(block) <= vectors.Length
    modifies vectors
    ensures Refined(vectors[..], start, block, found, MvdArrSize(block))
    ensures forall k :: 0 <= k < vectors.Length && !(start <= k < start + MvdArrSize(block)) ==> vectors[k] == old(vectors[k])
  {
    var dy := PartSide(block.height);
    var num, y := 0, 0;
    ghost var j := 0;
    ghost var was := vectors[..];
    PartsCover(block.height);
    RefineNothing(vectors[..], start, block, found);
    assert SameOutside(vectors[..], was, start, block);
    VectorForEveryPart(block);
    hide Refined, HasPart, PartSide, WholeParts, Parts, MulNat, PartIndex, MvdArrSize, SameOutside;
    while y < block.height
      invariant j <= Parts(block.height) && y == MulNat(j, dy) && num == PartIndex(block, 0, j)
      invariant Refined(vectors[..], start, block, found, num) && SameOutside(vectors[..], was, start, block)
      decreases Parts(block.height) - j
    {
      NextPart(block.height, j);
      num := RefineRow(vectors, start, block, found, num, y, j, was);
      y, j := y + dy, j + 1;
    }
    NextPart(block.height, j);
    AllRows(block);
    OutsideIsSame(vectors[..], was, start, block);
  }

  lemma OutsideIsSame(v: seq<Mv>, was: seq<Mv>, start: nat, block: Area)
    requires SameOutside(v, was, start, block)
    ensures |v| == |was| && forall k :: 0 <= k < |v| && !(start <= k < start + MvdArrSize(block)) ==> v[k] == was[k]
  {}

  /** The parts of one row. */
  method RefineRow(vectors: array<Mv>, start: nat, block: Area, found: (nat, nat) -> Mv, first: nat, y: nat, ghost j: nat, ghost was: seq<Mv>)
    returns (num: nat)
    requires block.width >= 1 && block.height >= 1 && WholeParts(block.width) && WholeParts(block.height)
    requires start + MvdArrSize(block) <= vectors.Length && j < Parts(block.height)
    requires y == MulNat(j, PartSide(block.height)) && first == PartIndex(block, 0, j)
    requires Refined(vectors[..], start, block, found, first) && SameOutside(vectors[..], was, start, block)
    modifies vectors
    ensures num == PartIndex(block, 0, j + 1)
    ensures Refined(vectors[..], start, block, found, num) && SameOutside(vectors[..], was, start, block)
  {
    var dx := PartSide(block.width);
    var x := 0;
    ghost var i := 0;
    num := first;
    PartsCover(block.width);
    assert MulNat(0, dx) == 0;
    hide Refined, SameOutside, PartSide, WholeParts, Parts, MulNat, PartIndex, MvdArrSize;
    while x < block.width
      invariant i <= Parts(block.width) && x == MulNat(i, dx) && num == PartIndex(block, i, j)
      invariant Refined(vectors[..], start, block, found, num) && SameOutside(vectors[..], was, start, block)
      decreases Parts(block.width) - i
    {
      ghost var before := vectors[..];
      NextPart(block.width, i);
      OnePart(before, was, start, block, found, i, j);
      vectors[start + num] := found(x, y);
      assert vectors[..] == before[start + num := found(x, y)];
      num, x, i := num + 1, x + dx, i + 1;
    }
    NextPart(block.width, i);
    NextRowIndex(block, j);
  }

  lemma OnePart(v: seq<Mv>, was: seq<Mv>, start: nat, block: Area, found: (nat, nat) -> Mv, i: nat, j: nat)
    requires block.width >= 1 && block.height >= 1 && WholeParts(block.width) && WholeParts(block.height)
    requires start + MvdArrSize(block) <= |v| && i < Parts(block.width) && j < Parts(block.height)
    requires Refined(v, start, block, found, PartIndex(block, i, j)) && SameOutside(v, was, start, block)
    ensures var n := PartIndex(block, i, j);
            && start + n < |v| && PartIndex(block, i + 1, j) == n + 1
            && var v' := v[start + n := found(MulNat(i, PartSide(block.width)), MulNat(j, PartSide(block.height)))];
               Refined(v', start, block, found, n + 1) && SameOutside(v', was, start, block)
  {
    PartInSlice(block, i, j);
    hide Refined, PartSide, Parts, WholeParts, MulNat, MvdArrSize;
    RefinedStep(v, start, block, found, i, j);
  }

  /** The rows of parts fill the slice. */
  lemma AllRows(block: Area)
    requires block.width >= 1 && block.height >= 1 && WholeParts(block.width) && WholeParts(block.height)
    ensures PartIndex(block, 0, Parts(block.height)) == MvdArrSize(block)
  {
    VectorForEveryPart(block);
    hide Parts;
    assert MulNat(Parts(block.height), Parts(block.width)) == MulNat(Parts(block.width), Parts(block.height));
  }

  lemma NextRowIndex(block: Area, j: nat)
    ensures PartIndex(block, Parts(block.width), j) == PartIndex(block, 0, j + 1)
  {
    Distribute(Parts(block.width), j, 1);
  }

  lemma RefineNothing(v: seq<Mv>, start: nat, block: Area, found: (nat, nat) -> Mv)
    ensures Refined(v, start, block, found, 0) && PartIndex(block, 0, 0) == 0
  {}

  ghost predicate SameOutside(v: seq<Mv>, was: seq<Mv>, start: nat, block: Area)
  {
    |v| == |was| && forall k :: 0 <= k < |v| && !(start <= k < start + MvdArrSize(block)) ==> v[k] == was[k]
  }

  lemma MvdArrSizePositive(block: Area)
    ensures MvdArrSize(block) >= 1
  {
    MulMonotone(1, 1, Max(1, Down(block.width, 4)), Max(1, Down(block.height, 4)));
  }
}

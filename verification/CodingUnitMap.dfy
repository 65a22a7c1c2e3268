/** The map from positions to coding units that CodingStructure.cpp keeps beside its list of coding units. */
module CodingUnitMap {
  import opened Geometry
  import opened Units

  predicate AlignedArea(a: Area, s: UnitScale)
  {
    && Aligned(a.x, s.posx) && Aligned(a.width, s.posx)
    && Aligned(a.y, s.posy) && Aligned(a.height, s.posy)
  }

  function MapWidth(area: Area, s: UnitScale): (w: nat)
  {
    DownPositive(area.width, s.posx);
    Down(area.width, s.posx)
  }

  function MapHeight(area: Area, s: UnitScale): (h: nat)
  {
    DownPositive(area.height, s.posy);
    Down(area.height, s.posy)
  }

  /** The unit in column x and row y of an area's map belongs to a block, as the scaled block says. */
  predicate Covers(block: Area, area: Area, s: UnitScale, x: nat, y: nat)
  {
    && block.Valid()
    && Down(block.x, s.posx) - Down(area.x, s.posx) <= x < Down(block.x, s.posx) - Down(area.x, s.posx) + Down(block.width, s.posx)
    && Down(block.y, s.posy) - Down(area.y, s.posy) <= y < Down(block.y, s.posy) - Down(area.y, s.posy) + Down(block.height, s.posy)
  }

  function BlockOf(cu: CodingUnit, i: nat): Area
  {
    if i < |cu.blocks| then cu.blocks[i] else Area(0, 0, 0, 0)
  }

  /** One entry agrees with the list: it names the unit whose block covers it, or is null if there is none. */
  ghost predicate EntryAgrees(entry: CodingUnit?, cus: seq<CodingUnit>, i: nat, area: Area, s: UnitScale, x: nat, y: nat)
  {
    && (entry != null ==> entry in cus)
    && (forall cu :: cu in cus ==> (Covers(BlockOf(cu, i), area, s, x, y) <==> entry == cu))
  }

  ghost predicate MapAgrees(ptrMap: seq<CodingUnit?>, cus: seq<CodingUnit>, i: nat, area: Area, s: UnitScale)
  {
    var w, h := MapWidth(area, s), MapHeight(area, s);
    && MulNat(w, h) <= |ptrMap|
    && forall x: nat, y: nat {:trigger RsAddr(x, y, w)} :: x < w && y < h ==>
         0 <= RsAddr(x, y, w) < |ptrMap| && EntryAgrees(ptrMap[RsAddr(x, y, w)], cus, i, area, s, x, y)
  }

  /** A block that may be added: inside the area, on the unit grid, and apart from all blocks present. */
  ghost predicate Fits(block: Area, cus: seq<CodingUnit>, i: nat, area: Area, s: UnitScale)
  {
    block.Valid() ==>
      && Inside(block, area) && AlignedArea(block, s)
      && forall cu :: cu in cus && BlockOf(cu, i).Valid() ==> Separate(BlockOf(cu, i), block)
  }

  ghost predicate WellPlaced(cus: seq<CodingUnit>, i: nat, area: Area, s: UnitScale)
  {
    forall cu :: cu in cus && BlockOf(cu, i).Valid() ==> Inside(BlockOf(cu, i), area) && AlignedArea(BlockOf(cu, i), s)
  }

  // Positions

  /** The entry that getCU reads for a position. */
  function EntryIndex(p: Position, area: Area, s: UnitScale): int
  {
    RsAddr(Down(p.x - area.x, s.posx), Down(p.y - area.y, s.posy), MapWidth(area, s))
  }

  /** For a position inside the area, the entry's column and row are in range, and covered by exactly the blocks containing it. */
  lemma PositionUnit(p: Position, area: Area, s: UnitScale, block: Area) returns (x: nat, y: nat)
    requires area.Contains(p) && AlignedArea(area, s)
    requires block.Valid() ==> AlignedArea(block, s)
    ensures x < MapWidth(area, s) && y < MapHeight(area, s) && EntryIndex(p, area, s) == RsAddr(x, y, MapWidth(area, s))
    ensures Covers(block, area, s, x, y) <==> block.Valid() && block.Contains(p)
    ensures x == Down(p.x, s.posx) - Down(area.x, s.posx) && y == Down(p.y, s.posy) - Down(area.y, s.posy)
  {
    ContainsExact(area, p);
    DownRange(p.x, area.x, area.width, s.posx);
    DownRange(p.y, area.y, area.height, s.posy);
    DownSub(p.x, area.x, s.posx);
    DownSub(p.y, area.y, s.posy);
    x, y := Down(p.x, s.posx) - Down(area.x, s.posx), Down(p.y, s.posy) - Down(area.y, s.posy);
    if block.Valid() {
      ContainsExact(block, p);
      DownRange(p.x, block.x, block.width, s.posx);
      DownRange(p.y, block.y, block.height, s.posy);
    }
  }

  /** The entry read for a position is the unit whose block contains it, or null if no block does. */
  lemma LookupAgrees(ptrMap: seq<CodingUnit?>, cus: seq<CodingUnit>, i: nat, area: Area, s: UnitScale, p: Position)
    requires MapAgrees(ptrMap, cus, i, area, s) && WellPlaced(cus, i, area, s) && AlignedArea(area, s) && area.Contains(p)
    ensures 0 <= EntryIndex(p, area, s) < |ptrMap|
    ensures var entry := ptrMap[EntryIndex(p, area, s)];
            && (entry != null ==> entry in cus)
            && (forall cu :: cu in cus ==> (BlockOf(cu, i).Valid() && BlockOf(cu, i).Contains(p) <==> entry == cu))
  {
    var x, y := PositionUnit(p, area, s, Area(0, 0, 0, 0));
    assert EntryAgrees(ptrMap[RsAddr(x, y, MapWidth(area, s))], cus, i, area, s, x, y);
    forall cu | cu in cus
      ensures BlockOf(cu, i).Valid() && BlockOf(cu, i).Contains(p) <==> ptrMap[EntryIndex(p, area, s)] == cu
    {
      var x', y' := PositionUnit(p, area, s, BlockOf(cu, i));
    }
  }

  // Adding a block

  /** Two separate aligned blocks cover no unit together. */
  lemma SeparateUnits(a: Area, b: Area, area: Area, s: UnitScale, x: nat, y: nat)
    requires Separate(a, b) && AlignedArea(a, s) && AlignedArea(b, s)
    ensures !(Covers(a, area, s, x, y) && Covers(b, area, s, x, y))
  {
    hide Down, Up;
    DownAdd(a.x, a.width, s.posx);
    DownAdd(b.x, b.width, s.posx);
    DownAdd(a.y, a.height, s.posy);
    DownAdd(b.y, b.height, s.posy);
    DownOrder(b.x, a.x + a.width, s.posx);
    DownOrder(a.x, b.x + b.width, s.posx);
    DownOrder(b.y, a.y + a.height, s.posy);
    DownOrder(a.y, b.y + b.height, s.posy);
  }

  ghost predicate Filled(before: seq<CodingUnit?>, after: seq<CodingUnit?>, cu: CodingUnit, block: Area, area: Area, s: UnitScale)
  {
    var w, h := MapWidth(area, s), MapHeight(area, s);
    && |after| == |before|
    && (forall k :: 0 <= k < |after| && k >= MulNat(w, h) ==> after[k] == before[k])
    && forall x: nat, y: nat {:trigger RsAddr(x, y, w)} :: x < w && y < h && RsAddr(x, y, w) < |after| ==>
         0 <= RsAddr(x, y, w) && after[RsAddr(x, y, w)] == if Covers(block, area, s, x, y) then cu else before[RsAddr(x, y, w)]
  }

  lemma FilledTail(before: seq<CodingUnit?>, after: seq<CodingUnit?>, cu: CodingUnit, block: Area, area: Area, s: UnitScale, k: nat)
    requires Filled(before, after, cu, block, area, s) && MulNat(MapWidth(area, s), MapHeight(area, s)) <= k < |after|
    ensures |after| == |before| && after[k] == before[k]
  {}

  lemma FilledAgrees(before: seq<CodingUnit?>, after: seq<CodingUnit?>, cus: seq<CodingUnit>, cu: CodingUnit, i: nat,
                     area: Area, s: UnitScale)
    requires MapAgrees(before, cus, i, area, s) && WellPlaced(cus, i, area, s)
    requires cu !in cus && Fits(BlockOf(cu, i), cus, i, area, s)
    requires Filled(before, after, cu, BlockOf(cu, i), area, s)
    ensures MapAgrees(after, cus + [cu], i, area, s) && WellPlaced(cus + [cu], i, area, s)
  {
    var w, h, block := MapWidth(area, s), MapHeight(area, s), BlockOf(cu, i);
    forall x: nat, y: nat {:trigger RsAddr(x, y, w)} | x < w && y < h
      ensures 0 <= RsAddr(x, y, w) < |after|
      ensures EntryAgrees(after[RsAddr(x, y, w)], cus + [cu], i, area, s, x, y)
    {
      RsAddrBound(x, y, w, h);
      var entry := before[RsAddr(x, y, w)];
      assert EntryAgrees(entry, cus, i, area, s, x, y);
      if Covers(block, area, s, x, y) {
        forall c | c in cus ensures !Covers(BlockOf(c, i), area, s, x, y)
        {
          if BlockOf(c, i).Valid() { SeparateUnits(BlockOf(c, i), block, area, s, x, y); }
        }
      }
    }
  }

  /** The rectangle that fillMapPtr_Core fills, as columns and rows of the map. */
  method FillPtrMap(ptrMap: array<CodingUnit?>, offset: nat, mapStride: nat, width: nat, height: nat, val: CodingUnit,
                    ghost x0: nat, ghost y0: nat, ghost rows: nat)
    requires offset == RsAddr(x0, y0, mapStride) && 0 < width && x0 + width <= mapStride
    requires 0 < height && y0 + height <= rows && MulNat(mapStride, rows) <= ptrMap.Length
    modifies ptrMap
    ensures forall k :: MulNat(mapStride, rows) <= k < ptrMap.Length ==> ptrMap[k] == old(ptrMap[k])
    ensures forall x: nat, y: nat {:trigger RsAddr(x, y, mapStride)} :: x < mapStride && y < rows ==>
      0 <= RsAddr(x, y, mapStride) < ptrMap.Length &&
      ptrMap[RsAddr(x, y, mapStride)]
      == if x0 <= x < x0 + width && y0 <= y < y0 + height then val else old(ptrMap[RsAddr(x, y, mapStride)])
  {
    hide RsAddr, MulNat;
    if width == mapStride {
      RsAddrStart(x0, y0, mapStride, height);
      WholeRows(y0, height, mapStride, rows);
      FillN(ptrMap, offset, width * height, val);
      forall x: nat, y: nat {:trigger RsAddr(x, y, mapStride)} | x < mapStride && y < rows
        ensures 0 <= RsAddr(x, y, mapStride) < MulNat(mapStride, rows)
        ensures offset <= RsAddr(x, y, mapStride) < offset + width * height <==> y0 <= y < y0 + height
      {
        RsAddrBound(x, y, mapStride, rows);
        RowsRange(x, y, y0, height, mapStride);
      }
    } else {
      var row := 0;
      var at := offset;
      forall x: nat, y: nat {:trigger RsAddr(x, y, mapStride)} | x < mapStride && y < rows
        ensures 0 <= RsAddr(x, y, mapStride) < MulNat(mapStride, rows)
      {
        RsAddrBound(x, y, mapStride, rows);
      }
      while row < height
        invariant 0 <= row <= height && at == RsAddr(x0, y0 + row, mapStride)
        invariant forall k :: MulNat(mapStride, rows) <= k < ptrMap.Length ==> ptrMap[k] == old(ptrMap[k])
        invariant forall x: nat, y: nat {:trigger RsAddr(x, y, mapStride)} :: x < mapStride && y < rows ==>
          ptrMap[RsAddr(x, y, mapStride)]
          == if x0 <= x < x0 + width && y0 <= y < y0 + row then val else old(ptrMap[RsAddr(x, y, mapStride)])
      {
        RowInside(x0, y0 + row, width, mapStride, rows);
        ghost var before := ptrMap[..];
        FillN(ptrMap, at, width, val);
        forall x: nat, y: nat {:trigger RsAddr(x, y, mapStride)} | x < mapStride && y < rows
          ensures ptrMap[RsAddr(x, y, mapStride)]
               == if x0 <= x < x0 + width && y0 <= y < y0 + row + 1 then val else old(ptrMap[RsAddr(x, y, mapStride)])
        {
          RowRange(x, y, x0, y0 + row, width, mapStride);
          assert before[RsAddr(x, y, mapStride)] == if x0 <= x < x0 + width && y0 <= y < y0 + row then val else old(ptrMap[RsAddr(x, y, mapStride)]);
        }
        RsAddrNextRow(x0, y0 + row, mapStride);
        at := at + mapStride;
        row := row + 1;
      }
    }
  }

  /** std::fill_n. */
  method FillN(a: array<CodingUnit?>, from: nat, n: nat, val: CodingUnit)
    requires from + n <= a.Length
    modifies a
    ensures forall k :: 0 <= k < a.Length ==> a[k] == if from <= k < from + n then val else old(a[k])
  {
    var k := 0;
    while k < n
      invariant 0 <= k <= n
      invariant forall j :: 0 <= j < a.Length ==> a[j] == if from <= j < from + k then val else old(a[j])
    {
      a[from + k] := val;
      k := k + 1;
    }
  }

  lemma RsAddrStart(x0: nat, y0: nat, stride: nat, height: nat)
    requires x0 + stride <= stride
    ensures x0 == 0 && RsAddr(x0, y0, stride) == stride * y0
  {}

  lemma WholeRows(y0: nat, height: nat, stride: nat, rows: nat)
    requires y0 + height <= rows
    ensures stride * y0 + stride * height <= MulNat(stride, rows) && stride * height >= 0 && stride * y0 >= 0
  {
    var rest := rows - y0 - height;
    assert stride * rest >= 0;
    assert stride * (y0 + height + rest) == stride * y0 + stride * height + stride * rest;
  }

  lemma RowsRange(x: nat, y: nat, y0: nat, height: nat, stride: nat)
    requires x < stride
    ensures stride * y0 <= RsAddr(x, y, stride) < stride * y0 + stride * height <==> y0 <= y < y0 + height
  {
    assert stride * (y0 + height) == stride * y0 + stride * height;
    if y < y0 {
      LaterRow(y, y0, stride);
    } else if y < y0 + height {
      LaterRow(y, y0 + height, stride);
      assert stride * (y - y0) >= 0 && stride * y == stride * y0 + stride * (y - y0);
    } else {
      assert stride * (y - y0 - height) >= 0 && stride * y == stride * (y0 + height) + stride * (y - y0 - height);
    }
  }

  lemma RowInside(x0: nat, y: nat, width: nat, stride: nat, rows: nat)
    requires x0 + width <= stride && y < rows
    ensures 0 <= RsAddr(x0, y, stride) && RsAddr(x0, y, stride) + width <= MulNat(stride, rows)
  {
    LaterRow(y, rows, stride);
  }

  /** A run of entries starting at column x0 of row y0 and staying in that row holds exactly its columns. */
  lemma RowRange(x: nat, y: nat, x0: nat, y0: nat, width: nat, stride: nat)
    requires x < stride && x0 + width <= stride
    ensures RsAddr(x0, y0, stride) <= RsAddr(x, y, stride) < RsAddr(x0, y0, stride) + width
        <==> y == y0 && x0 <= x < x0 + width
  {
    if y < y0 {
      LaterRow(y, y0, stride);
    } else if y0 < y {
      LaterRow(y0, y, stride);
    }
  }

  lemma RsAddrNextRow(x: nat, y: nat, stride: nat)
    ensures RsAddr(x, y + 1, stride) == RsAddr(x, y, stride) + stride
  {}
}

/** Positions, areas, unit scaling and raster addresses of Common.h. */
module Geometry {

  // Coordinates and extents that 32-bit positions and sizes can add up without overflow.
  type Coord = x: int | -0x4000_0000 <= x < 0x4000_0000

  type Extent = x: int | 0 <= x <= 0x4000_0000

  datatype Position = Position(x: Coord, y: Coord)

  datatype Area = Area(x: Coord, y: Coord, width: Extent, height: Extent)
  {
    predicate Valid() { width != 0 && height != 0 }

    function Size(): nat { MulNat(width, height) }

    /** One unsigned 32-bit comparison per coordinate. */
    predicate Contains(p: Position)
    {
      (p.x - x) % 0x1_0000_0000 < width && (p.y - y) % 0x1_0000_0000 < height
    }
  }

  function MulNat(a: nat, b: nat): nat { a * b }

  lemma ContainsExact(a: Area, p: Position)
    ensures a.Contains(p) <==> a.x <= p.x < a.x + a.width && a.y <= p.y < a.y + a.height
  {}

  // Scaling

  datatype UnitScale = UnitScale(posx: nat, posy: nat)

  function Down(x: int, s: nat): int
    decreases s
  {
    if s == 0 then x else Down(x / 2, s - 1)
  }

  function Up(x: int, s: nat): int
  {
    if s == 0 then x else 2 * Up(x, s - 1)
  }

  lemma {:induction false} UpAdd(x: int, y: int, s: nat)
    ensures Up(x + y, s) == Up(x, s) + Up(y, s)
  {
    if s > 0 { UpAdd(x, y, s - 1); }
  }

  predicate Aligned(x: int, s: nat)
  {
    Up(Down(x, s), s) == x
  }

  lemma {:induction false} AlignedEven(x: int, s: nat)
    requires Aligned(x, s)
    ensures s > 0 ==> x % 2 == 0 && Aligned(x / 2, s - 1)
  {}

  lemma {:induction false} DownSub(p: int, o: int, s: nat)
    requires Aligned(o, s)
    ensures Down(p - o, s) == Down(p, s) - Down(o, s)
    decreases s
  {
    if s > 0 {
      AlignedEven(o, s);
      assert (p - o) / 2 == p / 2 - o / 2;
      DownSub(p / 2, o / 2, s - 1);
    }
  }

  lemma {:induction false} DownAdd(o: int, w: int, s: nat)
    requires Aligned(o, s) && Aligned(w, s)
    ensures Down(o + w, s) == Down(o, s) + Down(w, s) && Aligned(o + w, s)
    decreases s
  {
    if s > 0 {
      AlignedEven(o, s);
      AlignedEven(w, s);
      DownAdd(o / 2, w / 2, s - 1);
    }
  }

  /** Scaling down keeps the order with respect to aligned coordinates. */
  lemma {:induction false} DownOrder(p: int, o: int, s: nat)
    requires Aligned(o, s)
    ensures o <= p <==> Down(o, s) <= Down(p, s)
    decreases s
  {
    if s > 0 {
      AlignedEven(o, s);
      DownOrder(p / 2, o / 2, s - 1);
    }
  }

  /** A position lies in an aligned range exactly when its unit lies in the scaled range. */
  lemma DownRange(p: int, o: int, w: int, s: nat)
    requires Aligned(o, s) && Aligned(w, s)
    ensures o <= p < o + w <==> Down(o, s) <= Down(p, s) < Down(o, s) + Down(w, s)
  {
    DownAdd(o, w, s);
    DownOrder(p, o, s);
    DownOrder(p, o + w, s);
  }

  lemma {:induction false} DownPositive(w: int, s: nat)
    requires w >= 0
    ensures 0 <= Down(w, s) <= w
    ensures w > 0 && Aligned(w, s) ==> Down(w, s) > 0
  {
    if s > 0 {
      DownPositive(w / 2, s - 1);
      if w > 0 && Aligned(w, s) {
        AlignedEven(w, s);
      }
    }
  }

  /** The scaled area of an aligned block is the product of its scaled sides. */
  lemma {:induction false} DownProduct(w: nat, h: nat, sx: nat, sy: nat)
    requires Aligned(w, sx) && Aligned(h, sy)
    ensures Down(w, sx) >= 0 && Down(h, sy) >= 0
    ensures Down(MulNat(w, h), sx + sy) == MulNat(Down(w, sx), Down(h, sy))
    decreases sx, sy
  {
    DownPositive(w, sx);
    DownPositive(h, sy);
    if sx > 0 {
      AlignedEven(w, sx);
      DownProduct(w / 2, h, sx - 1, sy);
      HalfProduct(w, h);
    } else if sy > 0 {
      AlignedEven(h, sy);
      DownProduct(w, h / 2, sx, sy - 1);
      HalfProduct(h, w);
    }
  }

  lemma HalfProduct(w: nat, h: nat)
    requires w % 2 == 0
    ensures MulNat(w, h) / 2 == MulNat(w / 2, h) && MulNat(h, w) == MulNat(w, h)
  {
    assert MulNat(w, h) == 2 * MulNat(w / 2, h) by {
      assert w == 2 * (w / 2);
      assert (2 * (w / 2)) * h == 2 * ((w / 2) * h);
    }
  }

  // Raster addresses

  /** rsAddr: the address of column x in row y. */
  function RsAddr(x: int, y: int, stride: nat): int
  {
    stride * y + x
  }

  lemma LaterRow(y: nat, h: nat, stride: nat)
    requires y < h
    ensures stride * y + stride <= stride * h
  {
    var rest := h - y - 1;
    assert h == y + 1 + rest;
    assert stride * rest >= 0;
    assert stride * (y + 1 + rest) == stride * y + stride + stride * rest;
  }

  lemma RsAddrBound(x: nat, y: nat, w: nat, h: nat)
    requires x < w && y < h
    ensures 0 <= RsAddr(x, y, w) < MulNat(w, h)
  {
    LaterRow(y, h, w);
  }

  // Packing

  predicate Inside(a: Area, outer: Area)
  {
    && outer.x <= a.x && a.x + a.width <= outer.x + outer.width
    && outer.y <= a.y && a.y + a.height <= outer.y + outer.height
  }

  predicate Separate(a: Area, b: Area)
  {
    || a.x + a.width <= b.x || b.x + b.width <= a.x
    || a.y + a.height <= b.y || b.y + b.height <= a.y
  }

  ghost predicate Packed(blocks: seq<Area>, outer: Area)
  {
    && (forall i :: 0 <= i < |blocks| ==> Inside(blocks[i], outer))
    && (forall i, j :: 0 <= i < j < |blocks| ==> Separate(blocks[i], blocks[j]))
  }

  ghost function Cells(a: Area): set<(int, int)>
  {
    set x, y | a.x <= x < a.x + a.width && a.y <= y < a.y + a.height :: (x, y)
  }

  ghost function RowCells(x: int, w: nat, y: int): set<(int, int)>
  {
    set u | x <= u < x + w :: (u, y)
  }

  lemma {:induction false} RowCellsCount(x: int, w: nat, y: int)
    ensures |RowCells(x, w, y)| == w
  {
    if w > 0 {
      RowCellsCount(x, w - 1, y);
      assert RowCells(x, w, y) == RowCells(x, w - 1, y) + {(x + w - 1, y)};
    } else {
      assert RowCells(x, 0, y) == {};
    }
  }

  lemma CellsLastRow(a: Area)
    requires a.height > 0
    ensures var rest, row := a.(height := a.height - 1), RowCells(a.x, a.width, a.y + a.height - 1);
            Cells(a) == Cells(rest) + row && Cells(rest) !! row
  {}

  lemma MulNatRow(w: nat, h: nat)
    requires h > 0
    ensures MulNat(w, h) == MulNat(w, h - 1) + w
  {}

  lemma {:induction false} CellsCount(a: Area)
    ensures |Cells(a)| == a.Size()
    decreases a.height
  {
    if a.height == 0 {
      assert Cells(a) == {};
    } else {
      hide Cells, RowCells, MulNat;
      CellsLastRow(a);
      CellsCount(a.(height := a.height - 1));
      RowCellsCount(a.x, a.width, a.y + a.height - 1);
      MulNatRow(a.width, a.height);
    }
  }

  function TotalSize(blocks: seq<Area>): nat
  {
    if blocks == [] then 0 else TotalSize(blocks[..|blocks| - 1]) + blocks[|blocks| - 1].Size()
  }

  ghost function AllCells(blocks: seq<Area>): set<(int, int)>
  {
    if blocks == [] then {} else AllCells(blocks[..|blocks| - 1]) + Cells(blocks[|blocks| - 1])
  }

  lemma {:induction false} SeparateFromAll(blocks: seq<Area>, b: Area)
    requires forall i :: 0 <= i < |blocks| ==> Separate(blocks[i], b)
    ensures AllCells(blocks) !! Cells(b)
    decreases |blocks|
  {
    if blocks != [] {
      SeparateFromAll(blocks[..|blocks| - 1], b);
      assert Separate(blocks[|blocks| - 1], b);
    }
  }

  lemma {:induction false} AllCellsCount(blocks: seq<Area>, outer: Area)
    requires Packed(blocks, outer)
    ensures |AllCells(blocks)| == TotalSize(blocks) && AllCells(blocks) <= Cells(outer)
    decreases |blocks|
  {
    if blocks != [] {
      var init, last := blocks[..|blocks| - 1], blocks[|blocks| - 1];
      AllCellsCount(init, outer);
      CellsCount(last);
      SeparateFromAll(init, last);
      assert Inside(last, outer);
    }
  }

  /** Disjoint blocks inside an area do not cover more than the area. */
  lemma PackedSize(blocks: seq<Area>, outer: Area)
    requires Packed(blocks, outer)
    ensures TotalSize(blocks) <= outer.Size()
  {
    AllCellsCount(blocks, outer);
    CellsCount(outer);
    SubsetSize(AllCells(blocks), Cells(outer));
  }

  lemma SubsetSize<T>(a: set<T>, b: set<T>)
    requires a <= b
    ensures |a| <= |b|
  {
    assert b == a + (b - a);
  }
}

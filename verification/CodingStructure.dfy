/** CodingStructure.cpp: the list of coding units, the position maps kept beside it, and lookup through the parents. */
module CodingStructures {
  import opened Geometry
  import opened Units
  import opened CodingUnitMap

  class CodingStructure {
    const parent: CodingStructure?
    // this structure and the ones around it
    ghost const ancestors: set<CodingStructure>
    ghost const depth: nat

    // one unit scale and one map per channel
    const scales: seq<UnitScale>
    const cuPtr: seq<array<CodingUnit?>>

    var area: seq<Area>
    var cus: seq<CodingUnit>
    var numCUs: nat

    /** The number of map entries that the current area needs. */
    ghost function MapSize(i: nat): nat
      reads this
      requires i < |scales| && i < |area|
    {
      SizeFor(area, i)
    }

    /** A map per channel, large enough for the area, which lies on the unit grid. */
    ghost predicate Shaped()
      reads this
    {
      && |scales| == |cuPtr| == |area| && numCUs == |cus|
      && (forall i, j :: 0 <= i < j < |cuPtr| ==> cuPtr[i] != cuPtr[j])
      && (forall i :: 0 <= i < |area| ==> AlignedArea(area[i], scales[i]) && MapSize(i) <= cuPtr[i].Length)
    }

    /** The maps agree with the list. */
    ghost predicate Valid()
      reads this, cuPtr
    {
      && Shaped()
      && (forall i :: 0 <= i < |area| ==>
            MapAgrees(cuPtr[i][..], cus, i, area[i], scales[i]) && WellPlaced(cus, i, area[i], scales[i]))
    }

    /** Entries that the current area does not use are null. */
    ghost predicate Tidy()
      reads this, cuPtr
      requires Shaped()
    {
      forall i, k :: 0 <= i < |area| && MapSize(i) <= k < cuPtr[i].Length ==> cuPtr[i][k] == null
    }

    /** createTempBuffers: allocates the maps for the largest area, all null. */
    constructor (parent: CodingStructure?, scales: seq<UnitScale>, area: seq<Area>)
      requires |scales| == |area| && forall i :: 0 <= i < |area| ==> AlignedArea(area[i], scales[i])
      requires parent != null ==> parent.Linked()
      ensures Valid() && Tidy() && cus == [] && this.area == area && this.scales == scales
      ensures this.parent == parent && Linked() && fresh(cuPtr)
    {
      this.parent, this.scales, this.area, cus, numCUs := parent, scales, area, [], 0;
      depth := if parent == null then 0 else parent.depth + 1;
      ancestors := {this} + if parent == null then {} else parent.ancestors;
      var maps: seq<array<CodingUnit?>> := [];
      for i := 0 to |area|
        invariant |maps| == i && fresh(maps)
        invariant forall j, k :: 0 <= j < k < i ==> maps[j] != maps[k]
        invariant forall j :: 0 <= j < i ==>
          maps[j].Length == MulNat(MapWidth(area[j], scales[j]), MapHeight(area[j], scales[j]))
        invariant forall j, k :: 0 <= j < i && 0 <= k < maps[j].Length ==> maps[j][k] == null
      {
        var size := MulNat(MapWidth(area[i], scales[i]), MapHeight(area[i], scales[i]));
        var ptrMap := new CodingUnit?[size](_ => null);
        maps := maps + [ptrMap];
      }
      cuPtr := maps;
      new;
      EmptyAgrees();
    }

    /** With no units listed, the maps agree exactly when the used entries are null. */
    lemma EmptyAgrees()
      requires Shaped() && cus == []
      ensures Valid() <==> forall i, k :: 0 <= i < |area| && 0 <= k < MapSize(i) ==> cuPtr[i][k] == null
    {
      forall i | 0 <= i < |area|
        ensures MapAgrees(cuPtr[i][..], cus, i, area[i], scales[i])
            <==> forall k :: 0 <= k < MapSize(i) ==> cuPtr[i][k] == null
      {
        NullMapAgrees(cuPtr[i][..], i, area[i], scales[i]);
      }
    }

    /** Forgets all units, and clears as many entries of each map as the current area has. */
    method ClearCUs(force: bool)
      requires Shaped()
      modifies this`cus, this`numCUs, cuPtr
      ensures Shaped() && cus == []
      ensures old(numCUs) == 0 && !force ==> forall i :: 0 <= i < |cuPtr| ==> cuPtr[i][..] == old(cuPtr[i][..])
      ensures old(numCUs) != 0 || force ==> Valid()
      ensures forall i, k :: 0 <= i < |area| && 0 <= k < cuPtr[i].Length ==>
        cuPtr[i][k] == if (old(numCUs) != 0 || force) && k < SizeFor(area, i) then null else old(cuPtr[i][k])
    {
      if numCUs == 0 && !force {
        return;
      }
      for i := 0 to |cuPtr|
        invariant forall j, k :: 0 <= j < i && 0 <= k < cuPtr[j].Length ==>
          cuPtr[j][k] == if k < MapSize(j) then null else old(cuPtr[j][k])
        invariant forall j, k :: i <= j < |cuPtr| && 0 <= k < cuPtr[j].Length ==> cuPtr[j][k] == old(cuPtr[j][k])
      {
        DownProduct(area[i].width, area[i].height, scales[i].posx, scales[i].posy);
        Memset(cuPtr[i], Down(area[i].Size(), scales[i].posx + scales[i].posy));
      }
      cus := [];
      numCUs := 0;
      EmptyAgrees();
    }

    /** Makes the structure stand for another area; the maps are left as they are. */
    method CompactResize(newArea: seq<Area>)
      requires Shaped() && ResizesTo(newArea)
      modifies this`area
      ensures Shaped() && area == newArea
    {
      area := newArea;
    }

    ghost predicate ResizesTo(newArea: seq<Area>)
      reads this
    {
      && |newArea| == |scales| == |cuPtr|
      && forall i :: 0 <= i < |newArea| ==>
           && AlignedArea(newArea[i], scales[i])
           && MulNat(MapWidth(newArea[i], scales[i]), MapHeight(newArea[i], scales[i])) <= cuPtr[i].Length
    }

    /**
     * Clears for the old area, then resizes. The maps agree with the empty list afterwards exactly when the entries of the
     * new area were cleared or null already.
     */
    method InitStructData(newArea: seq<Area>)
      requires Shaped() && ResizesTo(newArea)
      modifies this, cuPtr
      ensures Shaped() && cus == [] && area == newArea
      ensures Valid() <==> forall i, k :: 0 <= i < |newArea| && 0 <= k < SizeFor(newArea, i) ==>
        (old(numCUs) != 0 && k < SizeFor(old(area), i)) || old(cuPtr[i][k]) == null
      ensures forall i, k :: 0 <= i < |newArea| && 0 <= k < cuPtr[i].Length ==>
        cuPtr[i][k] == if old(numCUs) != 0 && k < SizeFor(old(area), i) then null else old(cuPtr[i][k])
    {
      hide SizeFor, MapAgrees, WellPlaced, AlignedArea;
      ClearCUs(false);
      CompactResize(newArea);
      EmptyAgrees();
    }

    /** From a structure without stale entries the maps always agree afterwards, and there are no stale entries anywhere. */
    method InitTidyStructData(newArea: seq<Area>)
      requires Valid() && Tidy() && ResizesTo(newArea)
      modifies this, cuPtr
      ensures Valid() && Tidy() && cus == [] && area == newArea
    {
      EmptyAgreesIfNone();
      InitStructData(newArea);
    }

    /**
     * Resizes, then clears for the new area, whatever earlier calls have left behind the old one. The maps agree with the
     * empty list afterwards exactly when there was a unit to clear for or the entries of the new area were null already;
     * entries behind the new area stay as they are.
     */
    method InitSubStructure(newArea: seq<Area>)
      requires Shaped() && ResizesTo(newArea)
      modifies this, cuPtr
      ensures Shaped() && cus == [] && area == newArea
      ensures Valid() <==>
        (old(numCUs) != 0 || forall i, k :: 0 <= i < |newArea| && 0 <= k < SizeFor(newArea, i) ==> old(cuPtr[i][k]) == null)
      ensures forall i, k :: 0 <= i < |newArea| && 0 <= k < cuPtr[i].Length ==>
        cuPtr[i][k] == if old(numCUs) != 0 && k < SizeFor(newArea, i) then null else old(cuPtr[i][k])
    {
      CompactResize(newArea);
      ClearCUs(false);
      EmptyAgrees();
    }

    /** From a structure without stale entries the maps always agree, and stay without any exactly when there was nothing behind. */
    method InitTidySubStructure(newArea: seq<Area>)
      requires Valid() && Tidy() && ResizesTo(newArea)
      modifies this, cuPtr
      ensures Valid() && cus == [] && area == newArea
      ensures Tidy() <==>
        forall i, k :: 0 <= i < |area| && MapSize(i) <= k < cuPtr[i].Length ==> old(cuPtr[i][k]) == null
    {
      EmptyAgreesIfNone();
      InitSubStructure(newArea);
    }

    /**
     * The run that goes wrong: units are there, the structure shrinks, and without a unit added in between it grows again.
     * The second call clears nothing, so the maps agree with the empty list exactly when no unit was entered behind the
     * smaller area; otherwise a lookup there still returns a forgotten unit.
     */
    method ShrinkAndGrow(smaller: seq<Area>, larger: seq<Area>)
      requires Shaped() && numCUs != 0 && ResizesTo(smaller) && ResizesTo(larger)
      modifies this, cuPtr
      ensures Shaped() && cus == [] && area == larger
      ensures Valid() <==>
        forall i, k :: 0 <= i < |larger| && SizeFor(smaller, i) <= k < SizeFor(larger, i) ==> old(cuPtr[i][k]) == null
      ensures forall i, k :: 0 <= i < |larger| && SizeFor(smaller, i) <= k < cuPtr[i].Length ==> cuPtr[i][k] == old(cuPtr[i][k])
    {
      InitSubStructure(smaller);
      InitSubStructure(larger);
    }

    ghost function SizeFor(a: seq<Area>, i: nat): nat
      requires i < |scales| && i < |a|
    {
      MulNat(MapWidth(a[i], scales[i]), MapHeight(a[i], scales[i]))
    }

    lemma EmptyAgreesIfNone()
      requires Valid() && Tidy()
      ensures numCUs == 0 ==> forall i, k :: 0 <= i < |area| && 0 <= k < cuPtr[i].Length ==> cuPtr[i][k] == null
    {
      if cus == [] {
        EmptyAgrees();
      }
    }

    /** Appends a unit with the given blocks and enters it in the map of every channel it codes. */
    method AddCU(blocks: seq<Area>) returns (cu: CodingUnit)
      requires Valid() && |blocks| <= |area|
      requires forall i :: 0 <= i < |blocks| ==> Fits(blocks[i], cus, i, area[i], scales[i])
      modifies this`cus, this`numCUs, cuPtr
      ensures Valid() && fresh(cu) && cu.blocks == blocks && cu.idx == numCUs
      ensures cus == old(cus) + [cu]
      ensures old(Tidy()) ==> Tidy()
    {
      hide MapAgrees, WellPlaced, Filled, Fits;
      ghost var before := cus;
      cu := new CodingUnit(blocks, numCUs + 1);
      assert cu !in before;
      cus := cus + [cu];
      numCUs := numCUs + 1;
      for i := 0 to |cuPtr|
        invariant cus == before + [cu] && numCUs == |cus|
        invariant forall j :: i <= j < |cuPtr| ==> cuPtr[j][..] == old(cuPtr[j][..])
        invariant forall j :: 0 <= j < i ==>
          Filled(old(cuPtr[j][..]), cuPtr[j][..], cu, BlockOf(cu, j), area[j], scales[j])
      {
        BlockFits(cu, before, i);
        EnterCU(cu, i, before);
      }
      forall i | 0 <= i < |area|
        ensures MapAgrees(cuPtr[i][..], cus, i, area[i], scales[i]) && WellPlaced(cus, i, area[i], scales[i])
      {
        BlockFits(cu, before, i);
        FilledAgrees(old(cuPtr[i][..]), cuPtr[i][..], before, cu, i, area[i], scales[i]);
      }
      if old(Tidy()) {
        forall i, k | 0 <= i < |area| && MapSize(i) <= k < cuPtr[i].Length
          ensures cuPtr[i][k] == null
        {
          FilledTail(old(cuPtr[i][..]), cuPtr[i][..], cu, BlockOf(cu, i), area[i], scales[i], k);
        }
      }
    }

    lemma BlockFits(cu: CodingUnit, others: seq<CodingUnit>, i: nat)
      requires |scales| == |area| && i < |area|
      requires forall j :: 0 <= j < |cu.blocks| && j < |area| ==> Fits(cu.blocks[j], others, j, area[j], scales[j])
      ensures Fits(BlockOf(cu, i), others, i, area[i], scales[i])
    {}

    /** One channel of AddCU's loop. */
    method EnterCU(cu: CodingUnit, i: nat, ghost others: seq<CodingUnit>)
      requires Shaped() && i < |cuPtr| && Fits(BlockOf(cu, i), others, i, area[i], scales[i])
      modifies cuPtr[i]
      ensures Filled(old(cuPtr[i][..]), cuPtr[i][..], cu, BlockOf(cu, i), area[i], scales[i])
    {
      var block, s := BlockOf(cu, i), scales[i];
      if !block.Valid() {
        return;
      }
      hide Covers, AlignedArea, Aligned, Down, Up, RsAddr, MulNat, MapWidth, MapHeight;
      var stride := MapWidth(area[i], s);
      var x0, y0, width, height := ScaledBlock(block, area[i], s);
      ghost var rows := MapHeight(area[i], s);
      RsAddrBound(x0, y0, stride, rows);
      FillPtrMap(cuPtr[i], RsAddr(x0, y0, stride), stride, width, height, cu, x0, y0, rows);
    }

    ghost predicate Linked()
      decreases depth
    {
      && this in ancestors
      && (parent == null ==> ancestors == {this})
      && (parent != null ==> parent.depth < depth && ancestors == {this} + parent.ancestors && parent.Linked())
    }

    /** The innermost of this structure and the ones around it whose area contains the position. */
    ghost function Innermost(pos: Position, ch: nat): (cs: CodingStructure?)
      reads ancestors
      requires Linked()
      ensures cs != null ==> cs in ancestors && ch < |cs.area| && cs.area[ch].Contains(pos)
      decreases depth
    {
      if ch < |area| && area[ch].Contains(pos) then this
      else if parent == null then null
      else parent.Innermost(pos, ch)
    }

    /** Where a lookup starts: a separate chroma tree asks the structure around it for luma. */
    ghost function Owner(pos: Position, ch: nat, chromaTree: bool): (cs: CodingStructure?)
      reads ancestors
      requires Linked()
    {
      if !(chromaTree && ch == 0) then Innermost(pos, ch)
      else if parent == null then null
      else parent.Innermost(pos, ch)
    }

    /** May answer a lookup: contains the position, and is not this structure if luma is asked of a separate chroma tree. */
    ghost predicate MayAnswer(a: CodingStructure, pos: Position, ch: nat, chromaTree: bool)
      reads a
    {
      a in ancestors && ch < |a.area| && a.area[ch].Contains(pos) && (chromaTree && ch == 0 ==> a != this)
    }

    /** Among the structures that may answer, the owner is the one with the greatest depth. */
    lemma OwnerIsDeepest(pos: Position, ch: nat, chromaTree: bool)
      requires Linked()
      ensures var owner := Owner(pos, ch, chromaTree);
        && (owner == null <==> forall a :: a in ancestors ==> !MayAnswer(a, pos, ch, chromaTree))
        && (owner != null ==> MayAnswer(owner, pos, ch, chromaTree))
        && (owner != null ==> forall a :: a in ancestors && MayAnswer(a, pos, ch, chromaTree) && a != owner ==> a.depth < owner.depth)
    {
      hide Area.Contains;
      AncestorsAbove();
      if !(chromaTree && ch == 0) {
        InnermostIsDeepest(pos, ch);
      } else if parent != null {
        parent.InnermostIsDeepest(pos, ch);
      }
    }

    lemma AncestorsAbove()
      requires Linked()
      ensures forall a :: a in ancestors ==> a.depth <= depth && (a.depth == depth ==> a == this)
      ensures parent != null ==> this !in parent.ancestors
      decreases depth
    {
      if parent != null {
        parent.AncestorsAbove();
      }
    }

    lemma InnermostIsDeepest(pos: Position, ch: nat)
      requires Linked()
      ensures var owner := Innermost(pos, ch);
        && (owner == null <==> forall a :: a in ancestors ==> !(ch < |a.area| && a.area[ch].Contains(pos)))
        && (owner != null ==> forall a :: a in ancestors && ch < |a.area| && a.area[ch].Contains(pos) && a != owner ==> a.depth < owner.depth)
      decreases depth
    {
      hide Area.Contains;
      AncestorsAbove();
      if !(ch < |area| && area[ch].Contains(pos)) && parent != null {
        parent.InnermostIsDeepest(pos, ch);
      }
    }

    /** The unit at a position, from the innermost structure containing it; null outside all and where no unit was added. */
    method GetCU(pos: Position, ch: nat, chromaTree: bool) returns (cu: CodingUnit?)
      requires Linked() && forall cs :: cs in ancestors ==> cs.Valid()
      ensures var owner := Owner(pos, ch, chromaTree);
        && (owner == null ==> cu == null)
        && (owner != null ==>
             && (cu != null ==> cu in owner.cus)
             && (forall c :: c in owner.cus ==> (BlockOf(c, ch).Valid() && BlockOf(c, ch).Contains(pos) <==> cu == c)))
    {
      var cs: CodingStructure? := if chromaTree && ch == 0 then parent else this;
      while cs != null && !(ch < |cs.area| && cs.area[ch].Contains(pos))
        invariant cs != null ==> cs.Linked() && cs.ancestors <= ancestors && cs in ancestors
        invariant Owner(pos, ch, chromaTree) == if cs == null then null else cs.Innermost(pos, ch)
        decreases if cs == null then 0 else 1 + cs.depth
      {
        cs := cs.parent;
      }
      if cs == null {
        return null;
      }
      LookupAgrees(cs.cuPtr[ch][..], cs.cus, ch, cs.area[ch], cs.scales[ch], pos);
      cu := cs.cuPtr[ch][EntryIndex(pos, cs.area[ch], cs.scales[ch])];
    }
  }

  /** memset to null. */
  method Memset(a: array<CodingUnit?>, n: nat)
    requires n <= a.Length
    modifies a
    ensures forall k :: 0 <= k < a.Length ==> a[k] == if k < n then null else old(a[k])
  {
    for k := 0 to n
      invariant forall j :: 0 <= j < a.Length ==> a[j] == if j < k then null else old(a[j])
    {
      a[k] := null;
    }
  }

  /** The scaled block relative to the scaled area: inside the map, and exactly the units the block covers. */
  method ScaledBlock(block: Area, area: Area, s: UnitScale) returns (x0: nat, y0: nat, width: nat, height: nat)
    requires block.Valid() && Inside(block, area) && AlignedArea(block, s) && AlignedArea(area, s)
    ensures 0 < width && 0 < height && x0 + width <= MapWidth(area, s) && y0 + height <= MapHeight(area, s)
    ensures forall x: nat, y: nat :: Covers(block, area, s, x, y) <==> x0 <= x < x0 + width && y0 <= y < y0 + height
  {
    DownOrder(block.x, area.x, s.posx);
    DownOrder(block.y, area.y, s.posy);
    DownAdd(block.x, block.width, s.posx);
    DownAdd(block.y, block.height, s.posy);
    DownAdd(area.x, area.width, s.posx);
    DownAdd(area.y, area.height, s.posy);
    DownOrder(area.x + area.width, block.x + block.width, s.posx);
    DownOrder(area.y + area.height, block.y + block.height, s.posy);
    DownPositive(block.width, s.posx);
    DownPositive(block.height, s.posy);
    x0, width := Down(block.x, s.posx) - Down(area.x, s.posx), Down(block.width, s.posx);
    y0, height := Down(block.y, s.posy) - Down(area.y, s.posy), Down(block.height, s.posy);
  }

  lemma NullMapAgrees(ptrMap: seq<CodingUnit?>, i: nat, area: Area, s: UnitScale)
    requires MulNat(MapWidth(area, s), MapHeight(area, s)) <= |ptrMap|
    ensures MapAgrees(ptrMap, [], i, area, s)
        <==> forall k :: 0 <= k < MulNat(MapWidth(area, s), MapHeight(area, s)) ==> ptrMap[k] == null
  {
    var w, h := MapWidth(area, s), MapHeight(area, s);
    forall x: nat, y: nat {:trigger RsAddr(x, y, w)} | x < w && y < h
      ensures 0 <= RsAddr(x, y, w) < MulNat(w, h)
    {
      RsAddrBound(x, y, w, h);
    }
    if MapAgrees(ptrMap, [], i, area, s) {
      forall k | 0 <= k < MulNat(w, h)
        ensures ptrMap[k] == null
      {
        var x, y := ColumnAndRow(k, w, h);
        assert EntryAgrees(ptrMap[RsAddr(x, y, w)], [], i, area, s, x, y);
      }
    }
  }

  /** Every entry has a column and a row. */
  lemma {:induction false} ColumnAndRow(k: nat, w: nat, h: nat) returns (x: nat, y: nat)
    requires k < MulNat(w, h)
    ensures x < w && y < h && RsAddr(x, y, w) == k
    decreases h
  {
    if k < MulNat(w, h - 1) {
      x, y := ColumnAndRow(k, w, h - 1);
    } else {
      MulNatRow(w, h);
      x, y := k - MulNat(w, h - 1), h - 1;
    }
  }
}

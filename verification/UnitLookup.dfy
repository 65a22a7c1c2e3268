/** Lookup of a transform unit by position: getTU of CodingStructure.cpp, over the position maps and the chains of units. */
module UnitLookup {
  import opened Geometry
  import opened Units
  import CodingUnitMap
  import opened CodingStructures
  import opened TransformUnits

  /** The block of the transform unit's coding unit contains the position, and the structure lists that coding unit. */
  predicate CodedAt(cs: CodingStructure, tu: TransformUnit, pos: Position, ch: nat)
    reads cs, tu
  {
    && tu.cu != null && tu.cu in cs.cus
    && CodingUnitMap.BlockOf(tu.cu, ch).Valid() && CodingUnitMap.BlockOf(tu.cu, ch).Contains(pos)
  }

  /**
   * Walks to the innermost structure that contains the position, looks up the coding unit there and follows its transform
   * units: the result is the one that contains the position, or null outside all structures, where no coding unit was added,
   * and where none of its transform units is.
   */
  method GetTU(cs: CodingStructure, ghost stores: map<CodingStructure, TransformUnitStore>, pos: Position, ch: nat)
    returns (tu: TransformUnit?)
    requires cs.Linked() && forall a :: a in cs.ancestors ==> a.Valid() && a in stores
    requires forall a :: a in cs.ancestors ==> stores[a].Valid() && ch < |stores[a].area|
    requires forall a, c :: a in cs.ancestors && c in a.cus ==> stores[a].NamesFirst(c)
    ensures var owner := cs.Innermost(pos, ch);
      && (owner == null ==> tu == null)
      && (owner != null ==>
           && (tu != null ==> tu in stores[owner].tus && CodedAt(owner, tu, pos, ch) && BlockOf(tu, ch).Contains(pos))
           && (forall t :: t in stores[owner].tus && CodedAt(owner, t, pos, ch) && stores[owner].AllConsecutive(t.cu) ==>
                (BlockOf(t, ch).Contains(pos) <==> tu == t)))
  {
    hide CodingStructure.Valid, TransformUnitStore.Valid, TransformUnitStore.AllConsecutive, TransformUnitStore.NamesFirst;
    hide Area.Contains, BlockOf, CodingUnitMap.BlockOf;
    ghost var owner := cs.Innermost(pos, ch);
    var cu := cs.GetCU(pos, ch, false);
    if cu == null {
      return null;
    }
    tu := FollowTo(stores[owner], cu, pos, ch);
  }
}

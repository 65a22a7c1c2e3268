/** Coding and transform units. */
module Units {
  import opened Geometry

  class CodingUnit {
    // one block per channel; a channel the unit does not code has an empty block
    const blocks: seq<Area>
    const idx: nat
    var firstTU: TransformUnit?
    var lastTU: TransformUnit?

    constructor (blocks: seq<Area>, idx: nat)
      ensures this.blocks == blocks && this.idx == idx && firstTU == null && lastTU == null
    {
      this.blocks, this.idx, firstTU, lastTU := blocks, idx, null, null;
    }
  }

  class TransformUnit {
    // one block per component
    const blocks: seq<Area>
    const cu: CodingUnit?
    const idx: nat
    // where the unit's coefficients start in each component's array
    const coeffs: seq<nat>
    var next: TransformUnit?
    var prev: TransformUnit?

    constructor (blocks: seq<Area>, cu: CodingUnit?, idx: nat, coeffs: seq<nat>, prev: TransformUnit?)
      ensures this.blocks == blocks && this.cu == cu && this.idx == idx && this.coeffs == coeffs
      ensures next == null && this.prev == prev
    {
      this.blocks, this.cu, this.idx, this.coeffs, next, this.prev := blocks, cu, idx, coeffs, null, prev;
    }
  }
}

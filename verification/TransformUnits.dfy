/** Transform units of CodingStructure.cpp: their links, and the coefficient arrays they take slices of. */
module TransformUnits {
  import opened Geometry
  import opened Units

  function BlockOf(tu: TransformUnit, i: nat): Area
  {
    if i < |tu.blocks| then tu.blocks[i] else Area(0, 0, 0, 0)
  }

  /** The blocks of one component that are not empty, in the order of the units. */
  function ComponentBlocks(tus: seq<TransformUnit>, i: nat): seq<Area>
  {
    if tus == [] then []
    else
      var init := ComponentBlocks(tus[..|tus| - 1], i);
      var block := BlockOf(tus[|tus| - 1], i);
      if block.Valid() then init + [block] else init
  }

  /** Unit k starts its slice where the slices of the units before it end. */
  ghost predicate SlicesInOrder(tus: seq<TransformUnit>, i: nat)
  {
    forall k :: 0 <= k < |tus| && BlockOf(tus[k], i).Valid() ==>
      i < |tus[k].coeffs| && tus[k].coeffs[i] == TotalSize(ComponentBlocks(tus[..k], i))
  }

  /** The unit before position k, if it belongs to the same coding unit. */
  function Before(tus: seq<TransformUnit>, k: nat): TransformUnit?
    requires k < |tus|
  {
    if k > 0 && tus[k - 1].cu == tus[k].cu then tus[k - 1] else null
  }

  function After(tus: seq<TransformUnit>, k: nat): TransformUnit?
    requires k < |tus|
  {
    if k + 1 < |tus| && tus[k + 1].cu == tus[k].cu then tus[k + 1] else null
  }

  ghost predicate FirstOf(tus: seq<TransformUnit>, k: nat)
    requires k < |tus|
  {
    tus[k].cu != null && forall j :: 0 <= j < k ==> tus[j].cu != tus[k].cu
  }

  ghost predicate LastOf(tus: seq<TransformUnit>, k: nat)
    requires k < |tus|
  {
    tus[k].cu != null && forall j :: k < j < |tus| ==> tus[j].cu != tus[k].cu
  }

  /** A coding unit names the first and the last of its units. */
  ghost predicate Named(tus: seq<TransformUnit>)
    reads set tu | tu in tus :: tu.cu
  {
    && (forall k :: 0 <= k < |tus| && FirstOf(tus, k) ==> tus[k].cu.firstTU == tus[k])
    && (forall k :: 0 <= k < |tus| && LastOf(tus, k) ==> tus[k].cu.lastTU == tus[k])
  }

  ghost predicate Distinct(tus: seq<TransformUnit>)
  {
    forall j, k :: 0 <= j < k < |tus| ==> tus[j] != tus[k]
  }

  /** The end of the run of units of the same coding unit that contains position k. */
  function RunEnd(tus: seq<TransformUnit>, k: nat): (e: nat)
    requires k < |tus|
    ensures k < e <= |tus|
    decreases |tus| - k
  {
    if k + 1 < |tus| && tus[k + 1].cu == tus[k].cu then RunEnd(tus, k + 1) else k + 1
  }

  lemma {:induction false} RunHasOneCU(tus: seq<TransformUnit>, k: nat)
    requires k < |tus|
    ensures forall j :: k <= j < RunEnd(tus, k) ==> tus[j].cu == tus[k].cu
    ensures RunEnd(tus, k) < |tus| ==> tus[RunEnd(tus, k)].cu != tus[k].cu
    decreases |tus| - k
  {
    if k + 1 < |tus| && tus[k + 1].cu == tus[k].cu {
      RunHasOneCU(tus, k + 1);
    }
  }

  /** The units of a coding unit, in the order in which they were added. */
  function UnitsOf(tus: seq<TransformUnit>, cu: CodingUnit): seq<TransformUnit>
  {
    if tus == [] then []
    else if tus[0].cu == cu then [tus[0]] + UnitsOf(tus[1..], cu)
    else UnitsOf(tus[1..], cu)
  }

  class TransformUnitStore {
    const area: seq<Area>
    var tus: seq<TransformUnit>
    var numTUs: nat
    var offsets: seq<nat>

    ghost predicate Valid()
      reads this, tus, set tu | tu in tus :: tu.cu
    {
      Linked() && Sliced()
    }

    ghost predicate Linked()
      reads this`tus, this`numTUs, tus, set tu | tu in tus :: tu.cu
    {
      NeighboursLinked() && Named(tus)
    }

    /** Neighbours of the same coding unit are linked both ways, other neighbours are not. */
    ghost predicate NeighboursLinked()
      reads this`tus, this`numTUs, tus
    {
      && numTUs == |tus| && Distinct(tus)
      && (forall k :: 0 <= k < |tus| ==> tus[k].next == After(tus, k) && tus[k].prev == Before(tus, k))
    }

    /** Blocks do not overlap, and each unit's slice starts where the one before ends. */
    ghost predicate Sliced()
      reads this
    {
      && |offsets| == |area|
      && (forall i :: 0 <= i < |area| ==>
            && Packed(ComponentBlocks(tus, i), area[i])
            && SlicesInOrder(tus, i)
            && offsets[i] == TotalSize(ComponentBlocks(tus, i)))
    }

    /** createCoeffs: per component, an array of as many coefficients as its area has samples. */
    constructor (area: seq<Area>)
      ensures Valid() && tus == [] && this.area == area
    {
      this.area, tus, numTUs, offsets := area, [], 0, seq(|area|, _ => 0);
    }

    /**
     * Forgets all units and starts the coefficient arrays again; no listed coding unit keeps a transform unit. The early
     * return for an empty list, which the flag force would suppress, is compiled out (CLEAR_AND_CHECK_TUIDX is 0).
     */
    method ClearTUs(cus: seq<CodingUnit>)
      modifies this, cus
      ensures Valid() && tus == []
      ensures forall cu :: cu in cus ==> cu.firstTU == null && cu.lastTU == null && NamesFirst(cu)
    {
      offsets := seq(|area|, _ => 0);
      for i := 0 to |cus|
        invariant offsets == seq(|area|, _ => 0)
        invariant forall j :: 0 <= j < i ==> cus[j].firstTU == null && cus[j].lastTU == null
      {
        cus[i].firstTU, cus[i].lastTU := null, null;
      }
      tus, numTUs := [], 0;
    }

    /** A block may be added to component i: inside the area and apart from all blocks of that component. */
    ghost predicate Fits(block: Area, i: nat)
      reads this
      requires i < |area|
    {
      !block.Valid() ||
      (&& Inside(block, area[i])
       && forall k :: 0 <= k < |ComponentBlocks(tus, i)| ==> Separate(ComponentBlocks(tus, i)[k], block))
    }

    /** Appends a unit, links it to the one before if that has the same coding unit, and gives it its coefficients. */
    method AddTU(blocks: seq<Area>, cu: CodingUnit?) returns (tu: TransformUnit)
      requires Valid() && |blocks| <= |area|
      requires forall i :: 0 <= i < |blocks| ==> Fits(blocks[i], i)
      requires cu != null ==> NamesFirst(cu)
      modifies this, tus, cu
      ensures Valid() && fresh(tu) && tu.blocks == blocks && tu.cu == cu && tus == old(tus) + [tu]
      ensures forall c: CodingUnit :: old(allocated(c)) && old(NamesFirst(c)) ==> NamesFirst(c)
    {
      hide SlicesInOrder, Packed, FirstOf, LastOf, After, Before, Distinct, TotalSize, ComponentBlocks;
      tu := LinkTU(blocks, cu);
      if cu != null {
        NameTU(old(tus), tu, cu);
      } else {
        FirstLastAppend(old(tus), tu);
      }
      TakeSlices(old(tus), tu);
      forall c: CodingUnit | old(allocated(c)) && old(NamesFirst(c)) ensures NamesFirst(c) {
        assert forall k :: 0 <= k < |old(tus)| ==> tus[k] == old(tus)[k];
        assert c != cu ==> c.firstTU == old(c.firstTU);
        assert tus[|old(tus)|].cu == cu;
      }
    }

    /** The links of a new unit, which is appended to the list. */
    method LinkTU(blocks: seq<Area>, cu: CodingUnit?) returns (tu: TransformUnit)
      requires NeighboursLinked()
      modifies this`tus, this`numTUs, tus
      ensures NeighboursLinked() && fresh(tu) && tu.blocks == blocks && tu.cu == cu && tu.coeffs == offsets
      ensures tus == old(tus) + [tu]
    {
      hide After, Before;
      ghost var before := tus;
      var prevTU := if numTUs > 0 then tus[|tus| - 1] else null;
      var linked := prevTU != null && prevTU.cu == cu;
      tu := new TransformUnit(blocks, cu, numTUs + 1, offsets, if linked then prevTU else null);
      if linked {
        prevTU.next := tu;
      }
      tus := tus + [tu];
      numTUs := numTUs + 1;
      ghost var n := |before|;
      assert forall k :: 0 <= k < n - 1 ==> before[k] != before[n - 1];
      forall k | 0 <= k < |tus|
        ensures tus[k].next == After(tus, k) && tus[k].prev == Before(tus, k)
      {
        LinksAppend(before, tu, k);
      }
    }

    /** The coding unit's part of adding a unit. */
    method NameTU(ghost before: seq<TransformUnit>, tu: TransformUnit, cu: CodingUnit)
      requires tus == before + [tu] && tu.cu == cu && Named(before)
      requires cu.firstTU == null <==> forall k :: 0 <= k < |before| ==> before[k].cu != cu
      modifies cu
      ensures Named(tus) && cu.firstTU != null
    {
      hide FirstOf, LastOf;
      FirstLastAppend(before, tu);
      if cu.firstTU == null {
        cu.firstTU := tu;
      }
      cu.lastTU := tu;
    }

    /** The coefficients of a new unit: each component's offset moves on by the size of the unit's block. */
    method TakeSlices(ghost before: seq<TransformUnit>, tu: TransformUnit)
      requires tus == before + [tu] && tu.coeffs == offsets && |offsets| == |area| && |tu.blocks| <= |area|
      requires forall i :: 0 <= i < |area| ==>
        && Packed(ComponentBlocks(before, i), area[i]) && SlicesInOrder(before, i)
        && offsets[i] == TotalSize(ComponentBlocks(before, i))
      requires forall i :: 0 <= i < |area| && BlockOf(tu, i).Valid() ==>
        && Inside(BlockOf(tu, i), area[i])
        && forall k :: 0 <= k < |ComponentBlocks(before, i)| ==> Separate(ComponentBlocks(before, i)[k], BlockOf(tu, i))
      modifies this`offsets
      ensures Sliced()
    {
      hide SlicesInOrder, Packed, ComponentBlocks, TotalSize;
      for i := 0 to |area|
        invariant |offsets| == |area|
        invariant forall j :: 0 <= j < i ==> offsets[j] == TotalSize(ComponentBlocks(tus, j))
        invariant forall j :: i <= j < |area| ==> offsets[j] == tu.coeffs[j]
      {
        AppendBlock(before, tu, i);
        if BlockOf(tu, i).Valid() {
          offsets := offsets[i := offsets[i] + BlockOf(tu, i).Size()];
        }
      }
      forall i | 0 <= i < |area|
        ensures Packed(ComponentBlocks(tus, i), area[i]) && SlicesInOrder(tus, i)
      {
        AppendPacked(before, tu, i, area[i]);
      }
    }

    /** The units that following next visits, at most steps of them. */
    ghost function Walk(tu: TransformUnit?, steps: nat): seq<TransformUnit>
      reads this`tus, this`numTUs, tus
      requires NeighboursLinked() && (tu != null ==> tu in tus)
    {
      if tu == null || steps == 0 then []
      else
        assert tu.next != null ==> tu.next in tus;
        [tu] + Walk(tu.next, steps - 1)
    }

    lemma {:induction false} WalkIsRun(k: nat, steps: nat)
      requires NeighboursLinked() && k < |tus| && steps >= RunEnd(tus, k) - k
      ensures Walk(tus[k], steps) == tus[k..RunEnd(tus, k)]
      decreases |tus| - k
    {
      if k + 1 < |tus| && tus[k + 1].cu == tus[k].cu {
        WalkIsRun(k + 1, steps - 1);
        assert tus[k..RunEnd(tus, k)] == [tus[k]] + tus[k + 1..RunEnd(tus, k)];
      } else {
        assert tus[k..k + 1] == [tus[k]];
      }
    }

    /** Following prev undoes following next, within one coding unit. */
    lemma PrevUndoesNext(tu: TransformUnit)
      requires NeighboursLinked() && tu in tus
      ensures tu.next != null ==> tu.next in tus && tu.next.prev == tu && tu.next.cu == tu.cu
      ensures tu.prev != null ==> tu.prev in tus && tu.prev.next == tu && tu.prev.cu == tu.cu
    {
      var k :| 0 <= k < |tus| && tus[k] == tu;
      assert tu.next == After(tus, k) && tu.prev == Before(tus, k);
    }

    /** The units of a coding unit were added one after the other, the first one at position f. */
    ghost predicate Consecutive(f: nat)
      reads this`tus
      requires f < |tus|
    {
      forall j :: RunEnd(tus, f) <= j < |tus| ==> tus[j].cu != tus[f].cu
    }

    /**
     * From firstTU on, next visits the first run of the coding unit's units. That is all of them, in the order of
     * their insertion and ending at lastTU, exactly when they were added consecutively.
     */
    lemma FollowingNext(f: nat)
      requires Valid() && f < |tus| && FirstOf(tus, f)
      ensures tus[f].cu.firstTU == tus[f]
      ensures Walk(tus[f].cu.firstTU, |tus|) == UnitsOf(tus, tus[f].cu) <==> Consecutive(f)
      ensures Consecutive(f) ==> Walk(tus[f].cu.firstTU, |tus|) == tus[f..RunEnd(tus, f)]
      ensures Consecutive(f) ==> tus[f].cu.lastTU == tus[RunEnd(tus, f) - 1]
    {
      hide UnitsOf, Sliced, RunEnd, After, Before, Distinct;
      RunHasOneCU(tus, f);
      WalkIsRun(f, |tus|);
      UnitsOfRun(tus, f);
      if Consecutive(f) {
        assert LastOf(tus, RunEnd(tus, f) - 1);
      }
    }

    /** A coding unit names a first transform unit exactly when it has one. */
    ghost predicate NamesFirst(cu: CodingUnit)
      reads this`tus, tus, cu
    {
      cu.firstTU == null <==> forall k :: 0 <= k < |tus| ==> tus[k].cu != cu
    }

    /** All units of a coding unit were added one after the other. */
    ghost predicate AllConsecutive(cu: CodingUnit)
      reads this`tus
    {
      forall f :: 0 <= f < |tus| && FirstOf(tus, f) && tus[f].cu == cu ==> Consecutive(f)
    }

    /** The first unit of a run that contains a position is the only one; if none does, none of a consecutive coding unit does. */
    lemma FoundTU(f: nat, k: nat, ch: nat, pos: Position)
      requires Valid() && ch < |area| && f < |tus| && FirstOf(tus, f) && f <= k <= RunEnd(tus, f)
      requires forall j :: f <= j < k ==> !BlockOf(tus[j], ch).Contains(pos)
      requires k < RunEnd(tus, f) ==> BlockOf(tus[k], ch).Contains(pos)
      ensures AllConsecutive(tus[f].cu) ==> forall j :: 0 <= j < |tus| && tus[j].cu == tus[f].cu ==>
        (BlockOf(tus[j], ch).Contains(pos) <==> k < RunEnd(tus, f) && tus[j] == tus[k])
    {
      hide RunEnd, ComponentBlocks, SlicesInOrder, Packed;
      RunHasOneCU(tus, f);
      if AllConsecutive(tus[f].cu) {
        assert Consecutive(f);
        forall j | 0 <= j < |tus| && tus[j].cu == tus[f].cu
          ensures BlockOf(tus[j], ch).Contains(pos) <==> k < RunEnd(tus, f) && tus[j] == tus[k]
        {
          if k < RunEnd(tus, f) && j != k {
            SeparateBlocks(tus, ch, k, j, area[ch], pos);
          }
        }
      }
    }

    /** Safety of the coefficient arrays: every slice is as long as its block, inside the array, and apart from all others. */
    lemma SlicesAreSafe(i: nat, k: nat, l: nat)
      requires Sliced() && i < |area| && k < l < |tus| && BlockOf(tus[k], i).Valid() && BlockOf(tus[l], i).Valid()
      ensures i < |tus[k].coeffs| && i < |tus[l].coeffs|
      ensures tus[k].coeffs[i] + BlockOf(tus[k], i).Size() <= tus[l].coeffs[i]
      ensures tus[l].coeffs[i] + BlockOf(tus[l], i).Size() <= offsets[i] <= area[i].Size()
    {
      hide TotalSize, ComponentBlocks, Packed;
      SliceEnd(tus, i, k);
      SliceEnd(tus, i, l);
      TotalSizeGrows(tus, i, k + 1, l);
      TotalSizeGrows(tus, i, l + 1, |tus|);
      assert tus[..|tus|] == tus;
      PackedSize(ComponentBlocks(tus, i), area[i]);
    }
  }

  /** The unit of a coding unit that contains a position, found by following next from the first one. */
  method FollowTo(ghost store: TransformUnitStore, cu: CodingUnit, pos: Position, ch: nat) returns (tu: TransformUnit?)
    requires store.Valid() && ch < |store.area| && store.NamesFirst(cu)
    ensures tu != null ==> tu in store.tus && tu.cu == cu && BlockOf(tu, ch).Contains(pos)
    ensures store.AllConsecutive(cu) ==>
      forall k :: 0 <= k < |store.tus| && store.tus[k].cu == cu ==> (BlockOf(store.tus[k], ch).Contains(pos) <==> tu == store.tus[k])
  {
    hide TransformUnitStore.Sliced, RunEnd, After, Before, ComponentBlocks, Distinct, LastOf, TransformUnitStore.AllConsecutive;
    hide BlockOf, Area.Contains;
    tu := cu.firstTU;
    if tu == null {
      return null;
    }
    ghost var f := FirstIndex(store.tus, cu);
    ghost var k;
    tu, k := FollowRun(store, tu, f, pos, ch);
    RunHasOneCU(store.tus, f);
    store.FoundTU(f, k, ch, pos);
  }

  /** From the first unit of a run to the first one that contains the position, or to the end of the run. */
  method FollowRun(ghost store: TransformUnitStore, first: TransformUnit, ghost f: nat, pos: Position, ch: nat)
    returns (tu: TransformUnit?, ghost k: nat)
    requires store.Valid() && f < |store.tus| && first == store.tus[f]
    ensures f <= k <= RunEnd(store.tus, f) && tu == if k < RunEnd(store.tus, f) then store.tus[k] else null
    ensures forall j :: f <= j < k ==> !BlockOf(store.tus[j], ch).Contains(pos)
    ensures tu != null ==> BlockOf(tu, ch).Contains(pos)
  {
    hide TransformUnitStore.Sliced, RunEnd, After, Before, ComponentBlocks, Distinct, LastOf, FirstOf, BlockOf, Area.Contains;
    tu, k := first, f;
    ghost var e := RunEnd(store.tus, f);
    while tu != null && !BlockOf(tu, ch).Contains(pos)
      invariant f <= k <= e && tu == if k < e then store.tus[k] else null
      invariant forall j :: f <= j < k ==> !BlockOf(store.tus[j], ch).Contains(pos)
      decreases e - k
    {
      RunEndStep(store.tus, f, k);
      tu := tu.next;
      k := k + 1;
    }
  }

  lemma LinksAppend(before: seq<TransformUnit>, tu: TransformUnit, k: nat)
    requires k <= |before|
    ensures var tus, n := before + [tu], |before|;
      && After(tus, k) == (if k == n then null else if k == n - 1 && tu.cu == before[k].cu then tu else After(before, k))
      && Before(tus, k) == (if k < n then Before(before, k) else if n > 0 && before[n - 1].cu == tu.cu then before[n - 1] else null)
  {}

  /** A new unit is the last one of its coding unit, and the first one if there was none; others stay what they were. */
  lemma FirstLastAppend(before: seq<TransformUnit>, tu: TransformUnit)
    ensures var tus, n := before + [tu], |before|;
      && (forall k :: 0 <= k < n && FirstOf(tus, k) ==> FirstOf(before, k))
      && (forall k :: 0 <= k < n && LastOf(tus, k) ==> LastOf(before, k) && before[k].cu != tu.cu)
      && (FirstOf(tus, n) ==> forall k :: 0 <= k < n ==> before[k].cu != tu.cu)
      && (forall k :: 0 <= k < |tus| && (FirstOf(tus, k) || LastOf(tus, k)) ==> tus[k].cu != null)
      && (forall k :: 0 <= k < n && FirstOf(tus, k) && before[k].cu == tu.cu ==> !(forall j :: 0 <= j < n ==> before[j].cu != tu.cu))
  {
    var tus, n := before + [tu], |before|;
    assert tus[n] == tu && forall j :: 0 <= j < n ==> tus[j] == before[j];
  }

  lemma AppendBlock(before: seq<TransformUnit>, tu: TransformUnit, i: nat)
    ensures ComponentBlocks(before + [tu], i)
         == ComponentBlocks(before, i) + (if BlockOf(tu, i).Valid() then [BlockOf(tu, i)] else [])
    ensures TotalSize(ComponentBlocks(before + [tu], i))
         == TotalSize(ComponentBlocks(before, i)) + (if BlockOf(tu, i).Valid() then BlockOf(tu, i).Size() else 0)
  {
    assert (before + [tu])[..|before|] == before;
    var init := ComponentBlocks(before, i);
    assert (init + [BlockOf(tu, i)])[..|init|] == init;
  }

  lemma AppendPacked(before: seq<TransformUnit>, tu: TransformUnit, i: nat, area: Area)
    requires Packed(ComponentBlocks(before, i), area) && SlicesInOrder(before, i)
    requires i < |tu.coeffs| && tu.coeffs[i] == TotalSize(ComponentBlocks(before, i))
    requires BlockOf(tu, i).Valid() ==>
      && Inside(BlockOf(tu, i), area)
      && forall k :: 0 <= k < |ComponentBlocks(before, i)| ==> Separate(ComponentBlocks(before, i)[k], BlockOf(tu, i))
    ensures Packed(ComponentBlocks(before + [tu], i), area) && SlicesInOrder(before + [tu], i)
  {
    AppendBlock(before, tu, i);
    hide ComponentBlocks, TotalSize;
    var tus := before + [tu];
    forall k | 0 <= k < |tus| && BlockOf(tus[k], i).Valid()
      ensures i < |tus[k].coeffs| && tus[k].coeffs[i] == TotalSize(ComponentBlocks(tus[..k], i))
    {
      assert tus[..k] == before[..k] && before[..|before|] == before;
    }
  }

  lemma {:induction false} FirstIndex(tus: seq<TransformUnit>, cu: CodingUnit) returns (f: nat)
    requires exists k :: 0 <= k < |tus| && tus[k].cu == cu
    ensures f < |tus| && FirstOf(tus, f) && tus[f].cu == cu
  {
    f := 0;
    while tus[f].cu != cu
      invariant f < |tus| && forall j :: 0 <= j < f ==> tus[j].cu != cu
      invariant exists k :: f <= k < |tus| && tus[k].cu == cu
      decreases |tus| - f
    {
      f := f + 1;
    }
  }

  lemma {:induction false} RunEndStep(tus: seq<TransformUnit>, f: nat, k: nat)
    requires f <= k < |tus| && k < RunEnd(tus, f)
    ensures After(tus, k) == if k + 1 < RunEnd(tus, f) then tus[k + 1] else null
  {
    RunHasOneCU(tus, f);
  }

  /** All units of a coding unit are the run starting at its first one, exactly when none comes later. */
  lemma UnitsOfRun(tus: seq<TransformUnit>, f: nat)
    requires f < |tus| && FirstOf(tus, f)
    ensures UnitsOf(tus, tus[f].cu) == tus[f..RunEnd(tus, f)]
      <==> forall j :: RunEnd(tus, f) <= j < |tus| ==> tus[j].cu != tus[f].cu
  {
    RunHasOneCU(tus, f);
    var cu, e := tus[f].cu, RunEnd(tus, f);
    UnitsOfSplit(tus, f, e, cu);
    UnitsOfNoneFrom(tus, e, cu);
    hide *;
    NothingAppended(tus[f..e], UnitsOf(tus[e..], cu));
  }

  lemma NothingAppended<T>(a: seq<T>, b: seq<T>)
    ensures a + b == a <==> b == []
  {
    assert |a + b| == |a| + |b|;
  }

  lemma UnitsOfSplit(tus: seq<TransformUnit>, f: nat, e: nat, cu: CodingUnit)
    requires f <= e <= |tus|
    requires forall j :: 0 <= j < f ==> tus[j].cu != cu
    requires forall j :: f <= j < e ==> tus[j].cu == cu
    ensures UnitsOf(tus, cu) == tus[f..e] + UnitsOf(tus[e..], cu)
  {
    hide UnitsOf;
    assert tus == tus[..f] + (tus[f..e] + tus[e..]);
    UnitsOfConcat(tus[..f], tus[f..e] + tus[e..], cu);
    UnitsOfConcat(tus[f..e], tus[e..], cu);
    UnitsOfNone(tus[..f], cu);
    UnitsOfAll(tus[f..e], cu);
  }

  lemma UnitsOfNoneFrom(tus: seq<TransformUnit>, e: nat, cu: CodingUnit)
    requires e <= |tus|
    ensures UnitsOf(tus[e..], cu) == [] <==> forall j :: e <= j < |tus| ==> tus[j].cu != cu
  {
    hide UnitsOf;
    UnitsOfNone(tus[e..], cu);
    assert forall j :: e <= j < |tus| ==> tus[j] == tus[e..][j - e];
    assert forall j :: 0 <= j < |tus| - e ==> tus[e..][j] == tus[e + j];
  }

  lemma {:induction false} UnitsOfConcat(s: seq<TransformUnit>, t: seq<TransformUnit>, cu: CodingUnit)
    ensures UnitsOf(s + t, cu) == UnitsOf(s, cu) + UnitsOf(t, cu)
    decreases |s|
  {
    if s == [] {
      assert s + t == t;
    } else {
      assert (s + t)[1..] == s[1..] + t;
      UnitsOfConcat(s[1..], t, cu);
    }
  }

  lemma {:induction false} UnitsOfNone(s: seq<TransformUnit>, cu: CodingUnit)
    ensures UnitsOf(s, cu) == [] <==> forall j :: 0 <= j < |s| ==> s[j].cu != cu
    decreases |s|
  {
    if s != [] {
      UnitsOfNone(s[1..], cu);
      assert forall j :: 1 <= j < |s| ==> s[j] == s[1..][j - 1];
    }
  }

  lemma {:induction false} UnitsOfAll(s: seq<TransformUnit>, cu: CodingUnit)
    requires forall j :: 0 <= j < |s| ==> s[j].cu == cu
    ensures UnitsOf(s, cu) == s
    decreases |s|
  {
    if s != [] {
      UnitsOfAll(s[1..], cu);
    }
  }

  /** A block's place among the blocks of its component. */
  lemma {:induction false} BlockIndex(tus: seq<TransformUnit>, i: nat, k: nat, l: nat)
    requires k < l <= |tus| && BlockOf(tus[k], i).Valid()
    ensures var n := |ComponentBlocks(tus[..k], i)|;
            n < |ComponentBlocks(tus[..l], i)| && ComponentBlocks(tus[..l], i)[n] == BlockOf(tus[k], i)
    decreases l
  {
    assert tus[..l] == tus[..l - 1] + [tus[l - 1]];
    AppendBlock(tus[..l - 1], tus[l - 1], i);
    if k < l - 1 {
      BlockIndex(tus, i, k, l - 1);
    }
  }

  lemma PackedApart(blocks: seq<Area>, area: Area, m: nat, n: nat)
    requires Packed(blocks, area) && m < n < |blocks|
    ensures Separate(blocks[m], blocks[n])
  {}

  /** A position lies in at most one block of a component. */
  lemma SeparateBlocks(tus: seq<TransformUnit>, i: nat, k: nat, l: nat, area: Area, pos: Position)
    requires k < |tus| && l < |tus| && k != l && Packed(ComponentBlocks(tus, i), area)
    ensures !(BlockOf(tus[k], i).Contains(pos) && BlockOf(tus[l], i).Contains(pos))
  {
    var a, b := if k < l then k else l, if k < l then l else k;
    if BlockOf(tus[a], i).Contains(pos) && BlockOf(tus[b], i).Contains(pos) {
      ContainsExact(BlockOf(tus[a], i), pos);
      ContainsExact(BlockOf(tus[b], i), pos);
      BlockIndex(tus, i, a, b);
      BlockIndex(tus, i, a, |tus|);
      BlockIndex(tus, i, b, |tus|);
      assert tus[..|tus|] == tus;
      var blocks := ComponentBlocks(tus, i);
      var m, n := |ComponentBlocks(tus[..a], i)|, |ComponentBlocks(tus[..b], i)|;
      PackedApart(blocks, area, m, n);
    }
  }

  lemma SliceEnd(tus: seq<TransformUnit>, i: nat, k: nat)
    requires SlicesInOrder(tus, i) && k < |tus| && BlockOf(tus[k], i).Valid()
    ensures i < |tus[k].coeffs| && tus[k].coeffs[i] == TotalSize(ComponentBlocks(tus[..k], i))
    ensures tus[k].coeffs[i] + BlockOf(tus[k], i).Size() == TotalSize(ComponentBlocks(tus[..k + 1], i))
  {
    assert tus[..k + 1] == tus[..k] + [tus[k]];
    AppendBlock(tus[..k], tus[k], i);
  }

  lemma {:induction false} TotalSizeGrows(tus: seq<TransformUnit>, i: nat, k: nat, l: nat)
    requires k <= l <= |tus|
    ensures TotalSize(ComponentBlocks(tus[..k], i)) <= TotalSize(ComponentBlocks(tus[..l], i))
    decreases l
  {
    if k < l {
      assert tus[..l] == tus[..l - 1] + [tus[l - 1]];
      AppendBlock(tus[..l - 1], tus[l - 1], i);
      TotalSizeGrows(tus, i, k, l - 1);
    }
  }
}

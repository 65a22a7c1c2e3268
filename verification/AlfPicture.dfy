/** Classification and filtering one after the other, as EncAdaptiveLoopFilter.cpp calls them for a luma block. */
module AlfPicture {
  import opened AlfClassification
  import opened AlfFilter

  /** The first row, or column, of the 4x4 block that coordinate x of a block lies in. */
  function Corner(x: int): int { x - x % 4 }

  /** What sample (i, j) of a block becomes: filtered with the class of the 4x4 block around it, as the plane has it. */
  function ClassifiedAndFiltered(flt: Filter, rec: Plane, b: Boundary, posX: int, posY: int, dstY: nat, shift: nat, i: int, j: int): int
    requires flt.Valid()
  {
    var cl := BlockClass(rec, b, posY + Corner(i), posX + Corner(j), dstY + Corner(i), shift);
    if cl.classIdx < 25 then flt.At(rec, b, cl, posY + i, posX + j, dstY + i) else 0
  }

  ghost predicate Whole(flt: Filter, rec: Plane, b: Boundary, posX: int, posY: int, dstX: nat, dstY: nat, shift: nat, m: int, n: int, v: int)
  {
    flt.Valid() && v == ClassifiedAndFiltered(flt, rec, b, posX, posY, dstY, shift, m - dstY, n - dstX)
  }

  /** Classifies a luma block and filters it: every sample by the class and orientation of its own 4x4 block in the plane. */
  method ClassifyAndFilter(classifier: array<AlfClassifier>, flt: Filter, rec: Plane, b: Boundary, dst: array2<int>,
                           posX: int, posY: int, dstX: nat, dstY: nat, width: nat, height: nat, shift: nat)
    requires HasDepth(rec, 10) && b.Valid() && flt.Valid() && !flt.chroma && dstY % 2 == 0
    requires width % 4 == 0 && height % 4 == 0 && 0 < width <= MAX_CU_SIZE && 0 < height <= MAX_CU_SIZE
    requires classifier.Length == (MAX_CU_SIZE / 4) * (MAX_CU_SIZE / 4)
    requires dstY + height <= dst.Length0 && dstX + width <= dst.Length1
    modifies classifier, dst
    ensures forall m, n :: InRect(m, n, dstY, dstX, height, width) ==> Whole(flt, rec, b, posX, posY, dstX, dstY, shift, m, n, dst[m, n])
    ensures forall m, n :: 0 <= m < dst.Length0 && 0 <= n < dst.Length1 && !InRect(m, n, dstY, dstX, height, width) ==>
      dst[m, n] == old(dst[m, n])
  {
    hide HasDepth, BlockClass, RowClassified, Filter.Valid, Filter.At, Whole, BlockCall.Done, BlockCall.Classified, PowerOfTwo;
    DeriveClassificationBlk(classifier, rec, posX, posY, dstY, width, height, shift, b);
    var call := BlockCall(classifier[..], rec, dstX, dstY, posX, posY, flt, b);
    forall i, j | 0 <= i < height && 0 <= j < width ensures call.Classified(i, j) {
      ClassifierOfBlock(call, width, height, shift, i, j);
    }
    FilterBlk(call, dst, width, height);
    forall m, n | InRect(m, n, dstY, dstX, height, width)
      ensures Whole(flt, rec, b, posX, posY, dstX, dstY, shift, m, n, dst[m, n])
    {
      ClassifierOfBlock(call, width, height, shift, m - dstY, n - dstX);
      DoneIsWhole(call, shift, m, n, dst[m, n]);
    }
  }

  /** The entry that the filter looks up for a sample is the one that the classification wrote for its 4x4 block. */
  lemma ClassifierOfBlock(call: BlockCall, width: nat, height: nat, shift: nat, i: nat, j: nat)
    requires |call.classifier| == 32 * 32 && !call.flt.chroma && i < height <= MAX_CU_SIZE && j < width <= MAX_CU_SIZE
    requires width % 4 == 0 && height % 4 == 0
    requires forall p :: 0 <= p < height / 4 ==>
      RowClassified(call.classifier, call.rec, call.b, call.srcX, call.srcY, call.dstY, shift, p, width / 4)
    ensures call.ClassifierAt(i, j)
         == BlockClass(call.rec, call.b, call.srcY + Corner(i), call.srcX + Corner(j), call.dstY + Corner(i), shift)
    ensures call.Classified(i, j)
  {
    hide BlockClass;
    var p, k := i / 4, j / 4;
    assert Corner(i) == 4 * p && Corner(j) == 4 * k;
    assert RowClassified(call.classifier, call.rec, call.b, call.srcX, call.srcY, call.dstY, shift, p, width / 4);
    BlockClassRange(call.rec, call.b, call.srcY + 4 * p, call.srcX + 4 * k, call.dstY + 4 * p, shift);
  }

  lemma BlockClassRange(rec: Plane, b: Boundary, r: int, c: int, y: int, shift: nat)
    ensures BlockClass(rec, b, r, c, y, shift).classIdx < 25
  {
    ClassRange(WindowSum(rec, b, Ver, r, c, y), WindowSum(rec, b, Hor, r, c, y), WindowSum(rec, b, Diag0, r, c, y),
               WindowSum(rec, b, Diag1, r, c, y), AtBoundary(b, y), shift);
  }

  lemma DoneIsWhole(call: BlockCall, shift: nat, m: int, n: int, v: int)
    requires call.Done(m, n, v)
    requires call.ClassifierAt(m - call.dstY, n - call.dstX)
          == BlockClass(call.rec, call.b, call.srcY + Corner(m - call.dstY), call.srcX + Corner(n - call.dstX),
                        call.dstY + Corner(m - call.dstY), shift)
    ensures Whole(call.flt, call.rec, call.b, call.srcX, call.srcY, call.dstX, call.dstY, shift, m, n, v)
  {
    hide BlockClass, Filter.At, Filter.Valid, BlockCall.ClassifierAt;
    var i, j := m - call.dstY, n - call.dstX;
    assert call.srcY + m - call.dstY == call.srcY + i && call.srcX + n - call.dstX == call.srcX + j && call.dstY + i == m;
  }
}

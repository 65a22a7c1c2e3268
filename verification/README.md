# Verified models of the VVenC common library

VVenC is an encoder for Rec. ITU-T H.266. This project models pieces of its common library (and one trace tool and a few
callers that rely on them) and proves what they promise.

- **Bit streams** (`BitArithmetic`, `OutputBitstream`, `InputBitstream`, `BitstreamRoundTrip`, `EmulationPrevention`,
  `Substreams`): a writer with up to seven held bits and a reader with a differently laid out held byte. Both stand for a
  sequence of bits, and every method is proved against that sequence. The start-code scan is proved against the scan that
  writes NAL units, and the sizes of substreams against their places in the payload.
- **Coding structure** (`Geometry`, `Units`, `CodingUnitMap`, `CodingStructure`, `TransformUnits`, `UnitLookup`,
  `DmvrCache`, `MotionHistory`): position maps beside the list of coding units, linked transform units with slices of
  coefficient arrays, the cache of refinement vectors, and the history-based motion vector table.
- **Adaptive loop filter** (`AlfClassification`, `AlfClassificationLaws`, `AlfFilter`, `AlfFilterLaws`, `AlfSymmetry`,
  `AlfPicture`, `CrossComponentFilter`): classification by in-place sums and what it makes of known textures, the two filter shapes with
  permuted coefficients and substituted row pointers as weighted means, how the two work together and depend on the
  orientation of the picture, and the cross-component filter.
- **Sample buffers** (`BorderExtension`, `PelStorages`, `CandidateList`, `SortedBuffers`, `ChromaScaling`): border extension
  at the level of addresses, ownership of allocations, the sorted prediction buffers together with the candidate list they
  follow, and the in-place chroma scaling.
- **Affine gradient search** (`AffineGradient`, `AffineMotion`, `SobelFilters`): the normal equations, the gradient
  filters, and the affine motion that both together are for.
- **Trace collapsing** (`TraceCollapse`, `TraceCollapser`): the stack algorithm of the flame graph script.

Code that updates objects or arrays step by step is modelled by classes and methods with loops; what those methods compute
is stated by functions, and the laws are lemmas about these functions.

Some points where the code decides what can be stated:

- Bit stream counters have 32 bits, so streams hold fewer than 2^29 bytes. A shift by 32 of a zero value is taken as zero.
- At a byte boundary `extractSubstream` copies whole bytes and fills up with zeros past the end of the data; elsewhere it
  fails there. `ExtractSubstream` states both, and that the two ways agree for available bits.
- A payload that ends in an odd number of zero bytes is not given back by removing emulation prevention bytes.
- `initSubStructure` resizes before it clears, and clears only when there was a unit. Entries behind the new area may be
  stale afterwards, and a later call may grow into them; `InitSubStructure` has the exact condition for any state, and
  `ShrinkAndGrow` the failing run.
- `clearTUs` has no early return, because `CLEAR_AND_CHECK_TUIDX` is 0 (source/Lib/CommonLib/TypeDef.h:129).
- `takeOwnership` of a storage with fewer components leaves the other allocations of the receiver where they are, without
  views; they are freed by `destroy`.
- Motion candidates are compared by the original's equality, which ignores vectors of unused lists, the weight index and the
  half-pel flag. The table keeps the newer of two equal candidates.
- `load_events` sorts by start only, so events of equal start may come in the wrong order; `ChainsAreEnclosing` and
  `SelfTimes` have the exact condition, and `ShorterFirst` the smallest failing family.
- Forward chroma scaling with a scale above one maps different magnitudes to the same value, but the least one that is lost
  may already be clipped. `RoundTripOfAll` and `RoundTripOfBlock` have the exact condition, `RoundTripOfSample` the one for
  a single sample.
- A vector slice is too short for blocks with a side above 16 that is no multiple of 16; `VectorForEveryPart` has the exact
  condition. Sides of coding units that refine their vectors are powers of two.
- Names with semicolons make identifiers of the trace tool ambiguous; `CutOfJoin` has the exact condition.
- A failed format check in the middle of `PelStorage::swap` leaves the components before it exchanged.

## Model

| member | source | states |
|---|---|---|
| OutputBitstreams.OutputBitstream.Write | source/Lib/CommonLib/BitStream.cpp:122-164 | refuses more than 32 bits and values that do not fit, without changing anything; otherwise the stream's bits grow by exactly the n bits of the value, most significant first, whatever number of bits is held |
| OutputBitstreams.NextHeldBits | source/Lib/CommonLib/BitStream.cpp:138 | the truncated shift leaves the last bits of the value at the top of the new held byte and zeros below them |
| OutputBitstreams.WriteBitsValue | source/Lib/CommonLib/BitStream.cpp:138-152 | the 64-bit justify step: the word to be written and the new held bits are the old held bits followed by the value, and the word has 32 bits |
| OutputBitstreams.OutputBitstream.PushBytes | source/Lib/CommonLib/BitStream.cpp:153-159 | the fall-through switch appends the top bytes of the word, most significant first |
| OutputBitstreams.OutputBitstream.WriteAlignOne | source/Lib/CommonLib/BitStream.cpp:166-171 | fills up the last byte with ones, and adds nothing at a byte boundary |
| OutputBitstreams.OutputBitstream.WriteAlignZero | source/Lib/CommonLib/BitStream.cpp:173-182 | fills up the last byte with zeros, and adds nothing at a byte boundary |
| OutputBitstreams.OutputBitstream.WriteByteAlignment | source/Lib/CommonLib/BitStream.cpp:204-208 | appends a one bit and zeros up to the byte boundary, so that the last byte is never zero |
| OutputBitstreams.OutputBitstream.AddSubstream | source/Lib/CommonLib/BitStream.cpp:189-202 | appends exactly the bits of another stream at any alignment and leaves that stream alone |
| OutputBitstreams.OutputBitstream.ContentsLength | source/Lib/CommonLib/BitStream.h:125 | the counter of written bits is the number of bits of the stream |
| InputBitstreams.InputBitstream.Read | source/Lib/CommonLib/BitStream.cpp:266-326 | fails, changing nothing, exactly when n exceeds the bits left; otherwise returns the value of the next n bits and takes them, in all three shift and mask cases |
| InputBitstreams.InputBitstream.LoadWord | source/Lib/CommonLib/BitStream.cpp:303-313 | the second fall-through switch loads the next bytes of the stream as one number and moves past them |
| InputBitstreams.InputBitstream.PseudoRead | source/Lib/CommonLib/BitStream.cpp:250-263 | returns what a read of the zero-extended stream would return and takes nothing; fails exactly when more than 32 bits are wanted and more than 32 are left |
| InputBitstreams.InputBitstream.ReadOutTrailingBits | source/Lib/CommonLib/BitStream.cpp:340-352 | drops exactly the bits up to the next byte boundary and counts them |
| InputBitstreams.InputBitstream.ReadByteAlignment | source/Lib/CommonLib/BitStream.cpp:396-413 | succeeds exactly when a one bit and zeros up to the byte boundary come next, and then takes exactly those |
| InputBitstreams.InputBitstream.ExtractSubstream | source/Lib/CommonLib/BitStream.cpp:358-394 | yields the next bits padded with zeros to a byte and takes them; copying whole bytes and reading bit by bit agree wherever the bits are there; the exact condition for success, including the copy past the end, which takes all that is left |
| InputBitstreams.InputBitstream.CopyBytes | source/Lib/CommonLib/BitStream.cpp:362-372 | copies the bytes that are there and zeros for the rest |
| BitstreamRoundTrip.WriteAll | source/Lib/CommonLib/BitStream.cpp:122-164 | a history of writes appends the concatenation of the fields' bits |
| BitstreamRoundTrip.RoundTrip | source/Lib/CommonLib/BitStream.cpp:122-164 | any history of writes, ended by a byte alignment, is read back value by value, the alignment is then accepted, and no bit is left |
| BitstreamRoundTrip.WriteNested | source/Lib/CommonLib/BitStream.cpp:189-202 | fields, a nested stream and more fields written one behind the other |
| BitstreamRoundTrip.SubstreamRoundTrip | source/Lib/CommonLib/BitStream.cpp:358-394 | extraction undoes appending at any alignment: the nested stream's bits come back padded, and the fields behind it still read correctly |
| EmulationPrevention.CountStartCodeEmulations | source/Lib/CommonLib/BitStream.cpp:210-240 | terminates in bounds and equals the number of 0x03 bytes that a left-to-right scan puts in front of other bytes, starting again after each and never counting one at the end |
| EmulationPrevention.WritePayload | source/Lib/EncoderLib/NALwrite.cpp:78-136 | writes exactly that scan's output, with the final 0x03 when the payload ends in a zero byte, inside its buffer of twice the size plus one |
| EmulationPrevention.EscapeLength | source/Lib/CommonLib/BitStream.cpp:210-240 | what the counter counts is by how much the written payload grows, apart from the final 0x03 |
| EmulationPrevention.EscapeHasNoStartCode | source/Lib/EncoderLib/NALwrite.cpp:82-97 | no written payload contains 00 00 00, 00 00 01 or 00 00 02, nor 00 00 03 followed by more than 03, nor ends in a zero byte |
| EmulationPrevention.PayloadRoundTrip | source/Lib/EncoderLib/NALwrite.cpp:126-134 | removing emulation prevention bytes gives back the payload exactly when it ends in an even number of zero bytes; otherwise a 0x03 is left at the end |
| Substreams.FinishSubstream | source/Lib/EncoderLib/EncSlice.cpp:1598-1604 | ends a substream in a byte other than zero, whatever was written, and measures it: below 2^29 bytes the size is the length of its payload |
| Substreams.EscapeOfTwo | source/Lib/EncoderLib/NALwrite.cpp:78-136 | behind a byte other than zero the scan starts afresh, so payloads and their insertions can be put together from those of the parts |
| Substreams.SubstreamInPayload | source/Lib/EncoderLib/EncSlice.cpp:1598-1604 | in the payload of any list of ended substreams, every one lies as its own payload behind the bytes that the sizes of those in front count |
| Substreams.SizesAddUp | source/Lib/EncoderLib/EncSlice.cpp:1598-1604 | the sizes of all substreams add up to the length of the payload of the whole |
| Substreams.FinishSubstreams | source/Lib/EncoderLib/EncSlice.cpp:1588-1607 | ends all substreams of a slice, with a size for each but the last |
| Substreams.SizesLeadToSubstream | source/Lib/EncoderLib/EncSlice.cpp:1598-1604 | in a payload below 2^29 bytes the sizes recorded for a slice lead to the start and the end of every substream, the last one included |
| CodingUnitMap.LookupAgrees | source/Lib/CommonLib/Common.h:146-149 | in a map that agrees with the unit list, the entry read through the scaled raster address is the unit whose block contains the position, or null when none does |
| CodingUnitMap.FillPtrMap | source/Lib/CommonLib/Buffer.cpp:318-332 | fills exactly the rectangle of map entries, whether it takes whole rows at once or row by row |
| CodingUnitMap.PositionUnit | source/Lib/CommonLib/Common.h:134-149 | a position lies in an aligned block exactly when its unit is one that the block covers |
| CodingStructures.CodingStructure.AddCU | source/Lib/CommonLib/CodingStructure.cpp:285-305 | a unit in free space is appended, and afterwards every map agrees with the list again |
| CodingStructures.CodingStructure.EnterCU | source/Lib/CommonLib/CodingStructure.cpp:291-304 | enters a unit in exactly the map entries that its block covers |
| CodingStructures.CodingStructure.ClearCUs | source/Lib/CommonLib/CodingStructure.cpp:988-1003 | empties the list and clears exactly the entries of the current area, entry by entry, or does nothing at all when the list is empty and nothing forces it |
| CodingStructures.CodingStructure.InitStructData | source/Lib/CommonLib/CodingStructure.cpp:940-945 | clearing before resizing, from any state: the maps agree with the empty list exactly when every entry of the new area lay in the old one and was cleared, or was null |
| CodingStructures.CodingStructure.InitTidyStructData | source/Lib/CommonLib/CodingStructure.cpp:940-945 | from a structure without stale entries they always agree, and no stale entry is left anywhere |
| CodingStructures.CodingStructure.InitSubStructure | source/Lib/CommonLib/CodingStructure.cpp:683-725 | clearing after resizing, from any state: the maps agree with the empty list exactly when there was a unit to clear for or the entries of the new area were null; what lies behind the new area stays |
| CodingStructures.CodingStructure.InitTidySubStructure | source/Lib/CommonLib/CodingStructure.cpp:683-725 | from a structure without stale entries they always agree, and stale entries are left exactly where there were units behind the new area |
| CodingStructures.CodingStructure.ShrinkAndGrow | source/Lib/CommonLib/CodingStructure.cpp:683-725 | the run that goes wrong: a structure with units shrinks and grows again with no unit added in between; lookups are right exactly when no unit had been entered behind the smaller area |
| CodingStructures.CodingStructure.GetCU | source/Lib/CommonLib/CodingStructure.cpp:140-156 | after any such run the lookup walks to the innermost structure containing the position and returns the one unit there that contains it, or null |
| CodingStructures.CodingStructure.OwnerIsDeepest | source/Lib/CommonLib/CodingStructure.cpp:140-156 | the structure that answers is the deepest one around the position, the structure itself excluded when a separate chroma tree asks for luma; nothing is found exactly when there is none |
| CodingStructures.CodingStructure.constructor | source/Lib/CommonLib/CodingStructure.cpp:564-587 | new maps are all null and agree with the empty list |
| CodingStructures.ScaledBlock | source/Lib/CommonLib/Common.h:134-138 | the scaled block lies in the map and covers exactly the units of the block |
| Geometry.ContainsExact | source/Lib/CommonLib/Common.h:110 | the unsigned comparison of contains says exactly that both coordinates are in range |
| Geometry.PackedSize | source/Lib/CommonLib/CodingStructure.cpp:358-383 | pairwise separate blocks inside an area have together at most its number of samples |
| TransformUnits.TransformUnitStore.AddTU | source/Lib/CommonLib/CodingStructure.cpp:310-386 | a new transform unit is linked behind its predecessor, named by its coding unit, and given coefficient slices of exactly its block sizes inside the arrays; every coding unit goes on naming a first unit exactly when it has one |
| TransformUnits.TransformUnitStore.LinkTU | source/Lib/CommonLib/CodingStructure.cpp:330-356 | links the new unit to the last one exactly when both belong to the same coding unit |
| TransformUnits.TransformUnitStore.TakeSlices | source/Lib/CommonLib/CodingStructure.cpp:358-383 | each offset advances by the size of the unit's block in that component |
| TransformUnits.TransformUnitStore.SlicesAreSafe | source/Lib/CommonLib/CodingStructure.cpp:358-383 | slices have exactly their blocks' sizes, never overlap, and the offsets never pass the arrays that createCoeffs allocates |
| TransformUnits.TransformUnitStore.ClearTUs | source/Lib/CommonLib/CodingStructure.cpp:968-986 | empties the list, resets the offsets and the first and last unit of every coding unit; the early return that the flag guards is compiled out (source/Lib/CommonLib/TypeDef.h:129) |
| TransformUnits.TransformUnitStore.FollowingNext | source/Lib/CommonLib/CodingStructure.cpp:330-356 | following next from the first unit visits exactly a coding unit's units in insertion order exactly when they were added one after the other, and then ends at the last one |
| TransformUnits.TransformUnitStore.PrevUndoesNext | source/Lib/CommonLib/CodingStructure.cpp:330-356 | prev of next and next of prev are the unit itself |
| TransformUnits.FollowTo | source/Lib/CommonLib/CodingStructure.cpp:189-196 | returns a unit of the coding unit that contains the position, and for units added one after the other the only one that does, or null when none does |
| UnitLookup.GetTU | source/Lib/CommonLib/CodingStructure.cpp:176-199 | from the innermost structure that contains the position through the map of coding units to the transform unit there: a result always contains the position, null is returned outside all structures, and for units added one after the other it is exactly the one that contains the position |
| DmvrCaches.DmvrCache.Allocate | source/Lib/CommonLib/CodingStructure.cpp:273-283 | every slice of refinement vectors starts behind the ones taken before and ends inside the cache, for any separate blocks of the area |
| DmvrCaches.DmvrCache.AddVectors | source/Lib/CommonLib/CodingStructure.cpp:273-283 | only luma blocks of at least 8x8 and 128 samples take a slice, all others leave the cache alone |
| DmvrCaches.DmvrCache.constructor | source/Lib/CommonLib/CodingStructure.cpp:585-586 | the cache has one vector per 8x8 part of an area whose sides are multiples of 8 |
| DmvrCaches.MvdArrSizeBound | source/Lib/CommonLib/CodingStructure.cpp:273-278 | a block that refines its vectors takes at most one vector per 64 samples |
| DmvrCaches.VectorForEveryPart | source/Lib/CommonLib/CodingStructure.cpp:277 | a slice has as many vectors as the block has 16x16 parts if and only if both sides are at most 16 or multiples of 16, and otherwise fewer |
| DmvrCaches.RefineParts | source/Lib/CommonLib/InterPrediction.cpp:1325-1396 | for such blocks the refinement loop writes one vector for every part, in raster order and all inside the block's slice, and leaves every other entry of the cache alone |
| DmvrCaches.VectorsApart | source/Lib/CommonLib/InterPrediction.cpp:1325-1396 | the vectors of different parts, or of different blocks that took slices, are different entries of the cache |
| MotionHistory.MotionTable.AddMiToLut | source/Lib/CommonLib/CodingStructure.cpp:609-632 | after any history of candidates the table holds exactly the last occurrences of the newest different candidates, oldest first, up to its capacity |
| MotionHistory.MatchesIsSameMotion | source/Lib/CommonLib/MotionInfo.h:171-180 | two candidates match exactly when they stand for the same motion, with everything blanked out that is not used |
| MotionHistory.LastOccurrencesDistinct | source/Lib/CommonLib/CodingStructure.cpp:609-632 | the last occurrences of a history have no two matching candidates and match everything that ever came |
| MotionHistory.LastOccurrencesStep | source/Lib/CommonLib/CodingStructure.cpp:612-629 | one more candidate removes its older match and goes to the end |
| MotionHistory.TableProperties | source/Lib/CommonLib/CodingStructure.cpp:609-632 | the table never exceeds its capacity, never holds two matching candidates, has lost nothing before it is full, and ends with the newest candidate |
| AlfClassification.DeriveClassificationBlk | source/Lib/CommonLib/AdaptiveLoopFilter.cpp:536-740 | the overlapping in-place sums and table lookups give every 4x4 block the class and transpose index of the direct definition of section 8.8.5.3 of Rec. ITU-T H.266, for samples of up to 10 bits |
| AlfClassification.FillRow | source/Lib/CommonLib/AdaptiveLoopFilter.cpp:565-611 | one row of the gradient arrays holds two rows of gradients, read through row pointers that stop at the virtual boundary, with pairs summed in place |
| AlfClassification.ColumnSumIsWindowSum | source/Lib/CommonLib/AdaptiveLoopFilter.cpp:600-662 | four neighbouring entries of four array rows are the sum of the gradients in the window around the block, without the rows across the virtual boundary |
| AlfClassification.SumRows | source/Lib/CommonLib/AdaptiveLoopFilter.cpp:640-662 | adding three or four array rows gives that sum |
| AlfClassification.WindowSumBound | source/Lib/CommonLib/AdaptiveLoopFilter.cpp:640-662 | with 10-bit samples every sum is below 2^16 |
| AlfClassification.CrossProductExceeds | source/Lib/CommonLib/AdaptiveLoopFilter.cpp:704 | the 32-bit cross multiplication compares the exact products |
| AlfClassification.ToPelWraps | source/Lib/CommonLib/AdaptiveLoopFilter.cpp:592-593 | doubled samples are stored modulo 2^16, exactly so that samples below 2^14 survive |
| AlfClassification.ClassifySums | source/Lib/CommonLib/AdaptiveLoopFilter.cpp:664-737 | activity table, ternary choices and transpose table give the directly defined class and transpose index |
| AlfClassification.ClassRange | source/Lib/CommonLib/AdaptiveLoopFilter.cpp:664-737 | every class is below 25 and every transpose index below 4 |
| AlfClassification.ClassOfTurned | source/Lib/CommonLib/AdaptiveLoopFilter.cpp:680-737 | exchanging the vertical and horizontal sums, or the two diagonal ones, never changes the class |
| AlfClassificationLaws.ActivityOfMean | source/Lib/CommonLib/AdaptiveLoopFilter.cpp:664-678 | for every bit depth d, a window with mean gradient g has activity floor(g / 2^(d-7)), and floor(9g / 2^(d-4)) next to the virtual boundary |
| AlfClassificationLaws.LevelOfAlternating | source/Lib/CommonLib/AdaptiveLoopFilter.cpp:600-678 | the activity level of any window whose gradients are known, for every bit depth and with or without the rows that the virtual boundary cuts off |
| AlfClassificationLaws.ClassOfStripes | source/Lib/CommonLib/AdaptiveLoopFilter.cpp:536-740 | the class of stripes of any two heights: the level of their sum, horizontal or vertical weakly above 2 : 1 and strongly above 4.5 : 1, and the orientation |
| AlfClassificationLaws.ClassOfDiagonals | source/Lib/CommonLib/AdaptiveLoopFilter.cpp:536-740 | the class of waves along both diagonals: the level of the greater one, diagonal by the same ratios, and the orientation |
| AlfClassificationLaws.TurnedIsUpright | source/Lib/CommonLib/AdaptiveLoopFilter.cpp:680-737 | seen in the plane turned by its own transpose index, a block is more vertical than horizontal and has the first diagonal above the second |
| AlfClassificationLaws.GradientOfTurned | source/Lib/CommonLib/AdaptiveLoopFilter.cpp:680-737 | gradients of the turned plane are those of the plane in the turned direction, for all four transpose indices |
| AlfFilter.FilterTurned | source/Lib/CommonLib/AdaptiveLoopFilter.cpp:828-943 | away from the virtual boundary, filtering with transpose index 1, 2 or 3 is filtering with index 0 on the transposed, mirrored or rotated plane, for all coefficients and clip values and both shapes |
| AlfFilter.RowPointerChain | source/Lib/CommonLib/AdaptiveLoopFilter.cpp:875-909 | the chained substitutions equal symmetric clamping: a tap at vertical distance d is read at min(d, rows to the boundary) on both sides |
| AlfFilter.NoReadAcrossBoundary | source/Lib/CommonLib/AdaptiveLoopFilter.cpp:886-909 | changing any samples beyond the virtual boundary changes no filtered sample |
| AlfFilter.SegmentsEndAtBoundaries | source/Lib/CommonLib/AdaptiveLoopFilter.cpp:886-909 | what it calls a segment is the stretch of rows between two virtual boundaries |
| AlfFilter.FilterBlk | source/Lib/CommonLib/AdaptiveLoopFilter.cpp:742-978 | every sample of the block becomes the clamped, permuted and clipped filter of its neighbourhood with its class's coefficients; nothing outside the block changes |
| AlfFilter.Filter4x4 | source/Lib/CommonLib/AdaptiveLoopFilter.cpp:818-963 | one 4x4 block with one choice of coefficients |
| AlfFilterLaws.FilteredIsMean | source/Lib/CommonLib/AdaptiveLoopFilter.cpp:742-978 | a filtered sample is the sample plus the weighted clipped differences over the diamond in raster order, divided by 128, or by 1024 next to the virtual boundary, rounded to the nearest and clipped to the range |
| AlfFilterLaws.LinearFilterIsMean | source/Lib/CommonLib/AdaptiveLoopFilter.cpp:911-954 | where nothing is clipped, a filtered sample is the rounded mean of the diamond with weights that sum to 128, the centre's included |
| AlfFilterLaws.DefaultClipsAreLinear | source/Lib/CommonLib/AdaptiveLoopFilter.cpp:474-477 | with the default clip values nothing is clipped |
| AlfFilterLaws.HalfTap | source/Lib/CommonLib/AdaptiveLoopFilter.cpp:911-954 | a single coefficient of one half gives the rounded mean of its own pair of samples, for every coefficient of both shapes |
| AlfFilterLaws.FilterOfClass | source/Lib/CommonLib/AdaptiveLoopFilter.cpp:818-954 | away from the virtual boundary every luma sample is the mean over the diamond of the turned plane, with the very coefficients and clip values given for its class |
| AlfFilterLaws.SliceOfFilterSet | source/Lib/CommonLib/AdaptiveLoopFilter.cpp:820-826 | the slice of a class in a set of filters is the filter that was put there |
| AlfPicture.ClassifyAndFilter | source/Lib/EncoderLib/EncAdaptiveLoopFilter.cpp:1651-2009 | classifying a luma block and filtering it afterwards filters every sample with the class and orientation of its own 4x4 block in the plane, and leaves samples outside alone |
| AlfSymmetry.ClassFlipped | source/Lib/CommonLib/AdaptiveLoopFilter.cpp:562-737 | away from the virtual boundary, a block of the transposed plane has the same class, and the other transposition exactly when its vertical and horizontal sums differ |
| AlfSymmetry.FilterCommutesWithTransposition | source/Lib/CommonLib/AdaptiveLoopFilter.cpp:536-978 | classifying and filtering the transposed plane gives the transposed result, for every luma sample of a block away from the virtual boundary whose vertical and horizontal sums differ, with the filter as it is, row pointers included |
| AlfSymmetry.PlainIsFiltered | source/Lib/CommonLib/AdaptiveLoopFilter.cpp:875-909 | three or more rows from the virtual boundary the filter is the one without a boundary |
| AlfSymmetry.BlockRowsFar | source/Lib/CommonLib/AdaptiveLoopFilter.cpp:562-909 | every row of a block whose classification window is away from the virtual boundary is three or more rows from it |
| CrossComponentFilter.FilterBlkCcAlf | source/Lib/CommonLib/AdaptiveLoopFilter.cpp:981-1073 | every chroma sample becomes its own old value with the correction of the clamped luma neighbourhood, except the two rows left alone without vertical subsampling; nothing outside the block changes |
| CrossComponentFilter.CorrectRow | source/Lib/CommonLib/AdaptiveLoopFilter.cpp:1019-1066 | the three row offsets are the clamped distances for the row's position |
| CrossComponentFilter.NoLumaReadAcrossBoundary | source/Lib/CommonLib/AdaptiveLoopFilter.cpp:1026-1043 | changing any luma samples beyond the virtual boundary changes no corrected chroma sample |
| CrossComponentFilter.CorrectionIsWeighted | source/Lib/CommonLib/AdaptiveLoopFilter.cpp:1045-1066 | a corrected chroma sample is itself plus the weighted differences of seven luma taps, in 128ths rounded to the nearest, limited to half the range on either side and clipped |
| BorderExtension.ExtendBorderPel | source/Lib/CommonLib/Buffer.h:566-601 | refuses exactly when the margins do not fit between the rows; otherwise every address of the extended rectangle holds what was at the clamped coordinates, and no other address changes |
| BorderExtension.ExtendImage | source/Lib/CommonLib/Buffer.h:566-601 | the same for any image that the memory shows |
| BorderExtension.ExtendBorderPelLft | source/Lib/CommonLib/Buffer.h:508-523 | extends the given rows to the left |
| BorderExtension.ExtendBorderPelRgt | source/Lib/CommonLib/Buffer.h:537-551 | extends the given rows to the right |
| BorderExtension.ExtendBorderPelTop | source/Lib/CommonLib/Buffer.h:525-535 | copies the given columns of the first row upwards |
| BorderExtension.ExtendBorderPelBot | source/Lib/CommonLib/Buffer.h:554-564 | copies the given columns of the last row downwards |
| BorderExtension.PiecesExtend | source/Lib/CommonLib/Buffer.h:508-601 | the four pieces over the whole picture give the same result as the whole |
| BorderExtension.FinishCtuRow | source/Lib/EncoderLib/EncSlice.cpp:1452-1462 | what is extended when one row of CTUs is finished |
| BorderExtension.AnyOrderExtends | source/Lib/EncoderLib/EncSlice.cpp:1450-1463 | in whatever order the rows of CTUs finish, the picture ends up extended as a whole |
| BorderExtension.EveryAddressIsShown | source/Lib/CommonLib/Buffer.h:566-601 | the statements about the image speak about every address of the allocation |
| BorderExtension.InsideAllocation | source/Lib/CommonLib/Buffer.h:574 | the extended rectangle lies inside the allocation |
| PelStorages.CreateWithMargin | source/Lib/CommonLib/Buffer.cpp:1019-1064 | succeeds exactly for an empty storage, a supported alignment and components of positive size; then every view has room for the margins that the caller asked for, also around the picture padded to whole CTUs, in rows of the least aligned length and in a new allocation of its own; a failure halfway has recorded all that it allocated |
| PelStorages.CreateCompact | source/Lib/CommonLib/Buffer.cpp:979-1017 | one new allocation holds the views of all components one behind the other and is one sample longer than they are; the exact condition for success |
| PelStorages.TakeOwnership | source/Lib/CommonLib/Buffer.cpp:1094-1112 | views and allocations of the other storage's components move over and the other storage ends empty; freed is exactly what this one held for those components and what the other one held for further ones, while this one's further slots stay as they are |
| PelStorages.Swap | source/Lib/CommonLib/Buffer.cpp:1115-1130 | succeeds exactly for storages of the same format, sizes and strides, and then exchanges views and allocations; a failure halfway loses no allocation |
| PelStorages.Destroy | source/Lib/CommonLib/Buffer.cpp:1132-1144 | frees exactly what the storage holds |
| PelStorages.Step | source/Lib/CommonLib/Buffer.cpp:979-1144 | every operation on any storages does what it is asked and keeps that each live allocation is recorded in exactly one slot and every view lies in an allocation of its own storage |
| PelStorages.Lifetime | source/Lib/CommonLib/Buffer.cpp:979-1144 | after any run of these operations and the destructors nothing is left |
| PelStorages.Allocator.Free | source/Lib/CommonLib/Buffer.cpp:1132-1144 | an allocation can be freed only while it is live, so that no run frees one twice |
| PelStorages.MarginsFit | source/Lib/CommonLib/Buffer.cpp:1034-1061 | a view placed behind its margins has room for them, whatever the rounding and alignment |
| PelStorages.PaddedByRounding | source/Lib/CommonLib/Buffer.cpp:1028-1032 | every side can be padded to whole CTUs in exactly one way, so the margins around the padded picture are those of one picture |
| PelStorages.CreatedCanExtend | source/Lib/CommonLib/Buffer.cpp:1034-1061 | a component created with margins meets the condition for extending it by these margins |
| PelStorages.ExtendBorders | source/Lib/CommonLib/Buffer.h:898-915 | extends every component by its margins, or fails exactly when some component has no room for them |
| PelStorages.ChromaShare | source/Lib/CommonLib/Buffer.cpp:1034-1040 | chroma components have a quarter, a half or all of the luma samples, in the luma's proportions except for 4:2:2 |
| SortedBuffers.SortedPelUnitBufs.Prepare | source/Lib/CommonLib/Buffer.h:1074-1086 | the list and the test buffer are different members of the pool; more entries than the pool has are refused |
| SortedBuffers.SortedPelUnitBufs.Insert | source/Lib/CommonLib/Buffer.h:1099-1109 | the test buffer goes to its position, the entries behind it move back by one in order, and the last one becomes the test buffer |
| SortedBuffers.SortedPelUnitBufs.Swap | source/Lib/CommonLib/Buffer.h:1092-1097 | exchanges two listed buffers, or fails for positions outside the list |
| SortedBuffers.SortedPelUnitBufs.ReduceTo | source/Lib/CommonLib/Buffer.h:1068-1072 | keeps the first entries, or fails when there are not enough |
| SortedBuffers.Search | source/Lib/EncoderLib/IntraSearch.cpp:211-393 | after any search, buffer k shows the prediction of candidate k, for every listed candidate |
| SortedBuffers.WantedAreCheapest | source/Lib/EncoderLib/IntraSearch.cpp:295-302 | with n candidates wanted, a search ends with the first n of the stable sort by cost of all modes it tried |
| SortedBuffers.KeepBuffers | source/Lib/EncoderLib/IntraSearch.cpp:2687-2703 | after candidates are dropped, the buffers in front are those of the kept ones, although the exchanges look modes up in a list that is not exchanged along |
| CandidateLists.CandList.Update | source/Lib/CommonLib/UnitTools.h:212-256 | a candidate is put behind all that cost no more, the last one of a full list is lost, and the reported position is where it went |
| CandidateLists.SortedIsStableSort | source/Lib/CommonLib/UnitTools.h:221-248 | inserting one by one is a stable sort: ordered, the same candidates, equal costs in order of arrival |
| CandidateLists.BestIsPrefixOfSorted | source/Lib/CommonLib/UnitTools.h:221-248 | keeping only the n best at every step gives the first n of sorting everything |
| ChromaScaling.ScaleSignal | source/Lib/CommonLib/Buffer.cpp:556-603 | scales every sample of the block in place and nothing else, or refuses forward scaling of blocks of width 1 |
| ChromaScaling.RoundTripOfAll | source/Lib/CommonLib/Buffer.cpp:574-596 | every sample that is not clipped comes back if and only if the scale is at most one or the least magnitude that is lost is clipped |
| ChromaScaling.FirstLostIsLeast | source/Lib/CommonLib/Buffer.cpp:574-596 | that magnitude is the least one whose product with the excess of the scale over one reaches one half |
| ChromaScaling.FirstLostIsLost | source/Lib/CommonLib/Buffer.cpp:574-596 | it does not come back |
| ChromaScaling.RoundTripOfMagnitudes | source/Lib/CommonLib/Buffer.cpp:574-596 | without clipping, all magnitudes come back exactly when the scale is at most one |
| ChromaScaling.RoundTripOfSample | source/Lib/CommonLib/Buffer.cpp:574-596 | the exact condition under which an unclipped sample comes back, and the bound scale/2^12 + 1/2 on its error |
| ChromaScaling.RoundTripOfBlock | source/Lib/CommonLib/Buffer.cpp:556-603 | inverse scaling of the forward-scaled block gives back every block without clipped samples, if and only if the condition of RoundTripOfAll holds |
| ChromaScaling.ScalingRounds | source/Lib/CommonLib/Buffer.cpp:574-596 | both operations round to the nearest, halves away from zero |
| ChromaScaling.ForwardSaturates | source/Lib/CommonLib/Buffer.cpp:574-576 | forward scaling treats signs alike, keeps the order of samples, and stops at the clip exactly from where the quotient reaches it |
| ChromaScaling.InverseSaturates | source/Lib/CommonLib/Buffer.cpp:587-596 | inverse scaling keeps the order of samples, does not tell those beyond the clip apart, and stops at the ends of 16 bits exactly from where the product reaches them |
| AffineGradient.EqualCoeffComputer | source/Lib/CommonLib/AffineGradientSearch.cpp:159-200 | every entry of the table grows by the sum of c * c^T, or of c times the residue times 8, over the block; other entries stay |
| AffineGradient.AddSample | source/Lib/CommonLib/AffineGradientSearch.cpp:188-196 | one sample adds its products to the table |
| AffineGradient.MatrixSymmetric | source/Lib/CommonLib/AffineGradientSearch.cpp:188-194 | the accumulated matrix is symmetric |
| AffineGradient.MatrixPositiveSemidefinite | source/Lib/CommonLib/AffineGradientSearch.cpp:188-194 | the accumulated matrix is positive semidefinite |
| AffineGradient.MatrixFromSix | source/Lib/CommonLib/AffineGradientSearch.cpp:171-187 | the 4-parameter matrix is the image of the 6-parameter one under (c0, c1 + c5, c2, c4 - c3) |
| AffineGradient.RightHandSideFromSix | source/Lib/CommonLib/AffineGradientSearch.cpp:171-196 | so is its right-hand side |
| AffineGradient.AccumulatorsFit | source/Lib/CommonLib/AffineGradientSearch.cpp:188-196 | for 16-bit samples and blocks of up to 128x128, every 64-bit accumulator holds its exact sum after every sample |
| AffineMotion.CoeffsAreMotion | source/Lib/CommonLib/AffineGradientSearch.cpp:165-187 | weighted with parameters, the coefficients are the change of a sample under the 6- or 4-parameter affine motion of the centre of its 4x4 block |
| AffineMotion.LeastSquares | source/Lib/CommonLib/AffineGradientSearch.cpp:159-200 | parameters that solve the accumulated equations differ in squared error from any others by exactly the squares of what those predict differently |
| AffineMotion.SolutionIsBest | source/Lib/CommonLib/AffineGradientSearch.cpp:159-200 | so no motion explains the residue better |
| AffineMotion.ExactMotionSolves | source/Lib/CommonLib/AffineGradientSearch.cpp:188-196 | a motion that predicts every sample's residue solves the equations |
| AffineMotion.MotionOfSlope | source/Lib/CommonLib/AffineGradientSearch.cpp:94-200 | in a picture of constant slope, gradient filters and equations together have the motion that caused the residue as a best solution |
| SobelFilters.HorizontalSobelFilter | source/Lib/CommonLib/AffineGradientSearch.cpp:94-124 | every sample holds the gradient of the nearest sample that is not on the border |
| SobelFilters.VerticalSobelFilter | source/Lib/CommonLib/AffineGradientSearch.cpp:126-157 | the same for the vertical filter, which goes column by column |
| SobelFilters.GradientOfPolynomial | source/Lib/CommonLib/AffineGradientSearch.cpp:98-104 | the filter gives eight times the slope of every picture of second degree, and the exact excess for one term of third degree |
| SobelFilters.GradientTransposed | source/Lib/CommonLib/AffineGradientSearch.cpp:130-136 | either filter is the other one on the transposed picture |
| TraceCollapser.StackCollapser.LoadStackIdentifiers | scripts/FlameGraph/stackcollapse-chrome-tracing.py:112-130 | the dictionary grows by exactly the self times that the algorithm saves, joined under their stack identifiers |
| TraceCollapser.StackCollapser.SaveStack | scripts/FlameGraph/stackcollapse-chrome-tracing.py:91-109 | adds the top event's remaining time under the joined names of the stack; does nothing for an empty stack |
| TraceCollapser.RecordedTime | scripts/FlameGraph/stackcollapse-chrome-tracing.py:105-109 | an identifier's recorded time is what was there before plus all time saved under it |
| TraceCollapser.CutOfJoin | scripts/FlameGraph/stackcollapse-chrome-tracing.py:105-109 | cutting an identifier at its semicolons gives back the names on the stack, if and only if no name has a semicolon of its own |
| TraceCollapse.Conservation | scripts/FlameGraph/stackcollapse-chrome-tracing.py:112-130 | for any input, the saved self times sum to the durations of the events pushed on an empty stack |
| TraceCollapse.SavedOnce | scripts/FlameGraph/stackcollapse-chrome-tracing.py:112-130 | every event is saved exactly once, on top of the stack it was pushed on |
| TraceCollapse.ChainsAreEnclosing | scripts/FlameGraph/stackcollapse-chrome-tracing.py:112-130 | for positive, sorted, nested or disjoint events, every event is saved under exactly the chain of events enclosing it if and only if of equal starts the outermost comes first |
| TraceCollapse.SelfTimes | scripts/FlameGraph/stackcollapse-chrome-tracing.py:112-130 | for the same events, self times are never negative if and only if of equal starts the outermost comes first, and exactly then every one is the duration minus that of the direct children, under the enclosing events |
| TraceCollapse.ShorterFirst | scripts/FlameGraph/stackcollapse-chrome-tracing.py:85-86 | two events of equal start in the other order charge the shorter one for the longer one, so that its time becomes negative |

## Left out

- The bit counters of the reader (`m_numBitsRead`), `insertAt`, `readByte` and the tracing of read and written values.
- InputBitstreams.InputBitstream.PseudoRead: does not model widths that shift the word by more than its size, which C++ leaves undefined.
- Substreams.FinishSubstreams: the coding of the units themselves and the slice header; each substream is ended once, in order.
- The width of the `int` that `countStartCodeEmulations` returns.
- The unit caches and their mutexes: new units are fresh objects. Copies from `cuInit` and `tuInit`, cost fields, picture
  and motion buffers, and the extra link of the last unit of a CTU to the next CTU's first.
- Transform units that belong to no coding unit have a null one; intra sub-partitions are not modelled.
- Overlapping or unaligned blocks in `addCU` and `addTU`: the callers never add them, and nothing is promised for them.
- UnitLookup.GetTU: does not model `subTuIdx`, the start of the search at a later sub-unit, which only skips units.
- AlfClassification.DeriveClassificationBlk: planes are functions of row and column, not addresses, and the four directions are filled one after the other instead of in one loop.
- AlfFilter.FilterBlk: planes are functions of row and column; coefficient arrays have 13 entries for both shapes, of which the small one reads 7. The row pointers themselves are modelled.
- AlfPicture.ClassifyAndFilter: classification and filter read one plane; the copies and paddings that the encoder makes in between are not modelled.
- CrossComponentFilter.FilterBlkCcAlf: planes are functions of row and column, not addresses.
- Clipping and coefficient derivation, reconstruction of filter sets and everything that decides which filter is used.
- The conditions of the adaptive loop filter for pictures that end inside a CTU row.
- PelStorages.CreateWithMargin: sizes are unbounded integers; the 32-bit product of a plane's sides is not modelled.
- `createFromBuf` (views that own nothing), `compactResize`, `getBuf` and the other views of a storage, and operations of a storage on itself. ChromaFormat.h is not part of this model; the subsampling factors are those of section 6.2 of Rec. ITU-T H.266.
- PelStorages.ExtendBorders: components that share an allocation, which have no room for margins unless these are zero.
- DmvrCaches.RefineParts: the search for each vector is a parameter; blocks with other sides, whose slices are too short, are left out.
- AffineMotion.SolutionIsBest: parameters are integers and exact; the floating-point elimination that solves the equations is not modelled.
- SortedBuffers.SortedPelUnitBufs.Prepare: the shape of the views made by `getCompactBuf` is not modelled, only which buffers they are.
- CandidateLists.CandList.Update: costs are exact numbers instead of `double`, and the capacity check of the static vectors is not modelled.
- SortedBuffers.Search: the prediction itself is an abstract content of a buffer; which modes are tried in which order is a parameter.
- The rest of `Buffer.cpp`: averaging, weighting, transposition, padding and lookup operations on samples.
- ChromaScaling.ScaleSignal: samples are unbounded integers that the code's own clips bring into range.
- AffineGradient.EqualCoeffComputer: gradients and residues are functions of row and column; that the table's 64-bit entries are exact is AccumulatorsFit.
- SobelFilters.HorizontalSobelFilter: the 16-bit store of a gradient, which is exact for samples of up to 12 bits, and blocks narrower or lower than 3 samples.
- SobelFilters.VerticalSobelFilter: the same.
- TraceCollapser.StackCollapser.LoadStackIdentifiers: times are exact numbers instead of floating point; reading traces, grouping events by thread and the Cantor pairing of identifiers are not modelled.
- Vector instructions and the tables of function pointers that select them: only the plain functions are modelled.

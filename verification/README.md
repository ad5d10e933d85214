# A model of the display composer

The hardware composer of this repository decides, frame by frame, how a z-ordered list of
rectangular layers gets onto the screen: which layers have a hardware (MDP) pipe of their own,
which are flattened into one framebuffer (FB) plane, which are dropped because nothing of them is
seen, and in which mixer stage the FB goes.  It trims layers against opaque ones, replaces the
overlap of layers by a patch rendered beforehand (PTOR), restricts a frame to the region that
changes, redraws only a part of a render buffer, reuses the FB of an earlier frame, and splits
layers over two mixers.  All of these transform the layer list and must not change the picture.
Below it lie the blitter's request list, two pixel format conversions and the allocation of
framebuffer slots.

The project models these transformations and proves that the picture, or the bytes, or the
buffers, come out right.

## How a picture is described

`Layers.dfy` says what a list shows at a pixel: the bottom-to-top fold of the layers that cover
it.  A layer is a rectangle, a drawing mode and a texel per pixel; what a texel looks like is an
arbitrary function and what blending does is an uninterpreted term, except that an opaque layer
hides what is below.  Two lists with equal composites therefore agree for every buffer content and
every blend equation.  `Sample` says which source pixel a layer shows: exactly, for layers that are
not scaled, and otherwise as an unknown function of the whole geometry, so that a scaled layer is
the same only if its geometry is the same.

`ZOrder.dfy` describes the mixer as the hardware has it: stages, each showing one MDP layer, one
half of a split layer, or the flattened FB.

## Files

| file | what it models |
|---|---|
| `Rects.dfy`, `Layers.dfy`, `Rounding.dfy` | the rectangle algebra, source-crop arithmetic, the meaning of a list |
| `OptimizeRects.dfy`, `TrimPlaces.dfy` | trimming layers to the screen, and against opaque ones; where a trimmed layer is read from |
| `Frames.dfy` | the per-frame record with its fixed-size arrays |
| `RoiDrop.dfy`, `RoiGeneration.dfy` | partial updates: the region of interest, and dropping what is hidden in it |
| `Batching.dfy`, `BatchSize.dfy`, `ZOrder.dfy` | the search for the batch to flatten, how large it is, and the mixer stages |
| `PipeAccounting.dfy`, `PostHeuristics.dfy` | the strategies with their counters, and the maps between layers and pipes |
| `DroppedRewind.dfy`, `UncountedLayers.dfy`, `Strips.dfy` | two frames, from their partial update on, in which batching and its counters go wrong |
| `PtorSpec.dfy`, `PtorRender.dfy`, `Ptor.dfy` | PTOR: what it means, how the patches are rendered, the strategy in place |
| `SwapRect.dfy` | partial redraw into a ring of render buffers |
| `Redraw.dfy` | when the FB of an earlier frame may be shown again |
| `SplitLayer.dfy` | a layer across the two mixers of a split panel |
| `DrawLock.dfy` | the draw lock as a state machine of interleaved threads |
| `Memory.dfy`, `Products.dfy`, `Yv12.dfy`, `StridedCopy.dfy` | the software conversions |
| `BlitRects.dfy`, `Copybit.dfy` | blit rectangles, and the list of requests and fences |
| `Bits.dfy`, `FramebufferSlots.dfy` | framebuffer slots and their bit mask |

Code that changes state is a class with the source's fields, or a method over arrays, and is proved
against a specification on values; the lemmas are about that specification.  Answers of parts
outside the model (pipe allocation, hardware limits, system calls) are parameters, or left open.

## Where the code does less than one might expect

Each of these is stated with a concrete input, or as an exact condition.

- `getBatch` counts dropped layers a second time when it rewinds, and fbZ comes out too low by that
  number, which `Batching.Rewound` computes from the frame; with nothing dropped it is 0.  The picture
  is kept if and only if no layer in the FB lies over one of the MDP layers that this moves from below
  the FB to above it (`ZOrder.CachingShowsList`, `InPlaceByRecount`); a negative fbZ does not show the
  FB at all.  `DroppedRewind` has a frame,
  with the partial update that drops its layer, in which it is not.
- mdpCount falls short of the layers marked for MDP by a number that `CacheMissing` and `OnlyMissing`
  give in terms of what goes in.  In `cacheBasedComp`, as long as something is left to be cached, it
  is 0 if and only if no dropped layer is secure RGB that MDP can show, and no other dropped layer
  updates; when nothing is left, if and only if no dropped layer updates.  In `mdpOnlyLayersComp` only
  dropped secure RGB counts.  `UncountedLayers` has a frame, as its partial update leaves it, in which
  five layers are marked while the resource check lets three pass on four stages.
- A frame without FB layers is not adjusted for split layers: the stages in use exceed mdpCount by
  their number (`PostHeuristics.StagesWithoutFb`; `FifthStage` passes the check of four).
- Sanitizing the ROI can leave the panel at its low edge, exactly when that edge is a whole alignment
  step outside before it is aligned (`RoiGeneration.SanitizeSpanStaysIff`); never at its high edge.
- Copybit cannot draw a colour layer, and PTOR goes on without it: its colour is missing exactly
  where it shows under a patch and nothing opaque lies over the patch (`PtorRender.DrawnShowsList`;
  `Ptor.BarLosesColor` is such a frame).
- PTOR loses the attributes of a handle that both PTOR layers share, and of no other
  (`Ptor.HandlesRestoredIff`, `TwinsLoseHandle`).  The layers themselves come back
  as they were, since their crops are integral by then (`OptimizeRects.PreparedIntegral`).
- needsScaling compares crop and frame without turning either, so that a quarter-turned layer that the
  hardware has to scale is cut like an unscaled one.  It goes on being read where it was if and only
  if the cuts take whole pixels of the crop with them (`TrimPlaces.TrimPlacesIff`, `OddCutMoves`).
- The crops of the two halves of a split layer are rounded separately and miss one column exactly
  when the seam is half way between two; `sanitizeSourceCrop` closes the gap if neither is empty.
- The products in `MULDIV` wrap at 32 bits: a scaled number is right if and only if its product does
  not reach 2^32 (`BlitRects.ScaledExactIff`).  The source area stays inside the source all the same,
  but for an extremely large destination it is the wrong part of it (`BlitWraps`).
- `stretch_copybit` does not refuse an inverted source rectangle; the source area is inside the source
  rectangle if and only if that is not inverted (`BlitRects.BlitInside`, `InvertedBlit`).
- After a YV12 blit the caller's image still names the temporary that has been freed.
- Flushing an empty request list drops the fences that were waiting for a request.
- A framebuffer handle is freed by dividing by the size of a screen although slots are rounded up to
  pages; the condition under which the slot is recovered is exact (`FreesOwnSlot`,
  `SmallScreenLosesSlot`).

## Model

| member | source | states |
|---|---|---|
| `Rects.GetIntersection` | `hardware/display/libhwcomposer/hwc_utils.cpp:1460-1479` | the result is exactly the set of common pixels, and a valid rectangle or the zero rectangle |
| `Rects.GetUnion` | `hardware/display/libhwcomposer/hwc_utils.cpp:1481-1501` | covers both arguments; an empty argument does not count |
| `Rects.GetUnionLeast` | `hardware/display/libhwcomposer/hwc_utils.cpp:1481-1501` | and is the least such rectangle |
| `Rects.DeductOverlap` | `hardware/display/libhwcomposer/hwc_utils.cpp:1503-1520` | deducting an overlap takes away pixels of the overlap only, and either all of them or none |
| `Rects.DeductWhenRectangle` | `hardware/display/libhwcomposer/hwc_utils.cpp:1503-1520` | and all of them whenever what is left is a rectangle |
| `Rects.PeripheralDeductDisjoint` | `hardware/display/libhwcomposer/hwc_utils.cpp:2609-2621` | two overlapping strips along the edges of one view become disjoint by a deduction |
| `Rects.PeripheralIff` | `hardware/display/libhwcomposer/hwc_utils.cpp:2609-2621` | peripheral means: the other rectangle with a single edge moved |
| `Layers.IntegerizeSourceCrop` | `hardware/display/libhwcomposer/hwc_utils.h:248-255` | the largest integer rectangle inside the crop |
| `Layers.IntegerizeRoundTrip` | `hardware/display/libhwcomposer/hwc_utils.h:248-255` | writing the integer crop back loses nothing if and only if the crop was integral |
| `Layers.CalculateCropRects` | `hardware/display/libhwcomposer/hwc_utils.cpp:1336-1386` | the method with its flips, ratios and rounding equals the specification on which the lemmas below rest |
| `Layers.CalcCutInPlace` | `hardware/display/libhwcomposer/hwc_utils.cpp:1220-1236` | the exchange of the four cut ratios for every transform |
| `Layers.ClippedCropExact` | `hardware/display/libhwcomposer/hwc_utils.cpp:1220-1386` | for a one-to-one layer the crop moves by the cut itself, side by side as flips and rotation order it |
| `Layers.TrimKeepsSamples` | `hardware/display/libhwcomposer/hwc_utils.cpp:1336-1386` | every destination pixel that is kept still samples the same source pixel |
| `OptimizeRects.SetListStats` | `hardware/display/libhwcomposer/hwc_utils.cpp:1064-1118` | the list becomes the optimized form of the trimmed one |
| `OptimizeRects.TrimToScreenKeeps` | `hardware/display/libhwcomposer/hwc_utils.cpp:1064-1092` | inside the view and the screen a trimmed layer covers and shows what it did, for layers that do not leave the screen or are not scaled |
| `OptimizeRects.TrimmedOnScreen` | `hardware/display/libhwcomposer/hwc_utils.cpp:1064-1092` | a layer on the screen keeps its frame, and of any other what is left lies on the screen and in the view |
| `OptimizeRects.PreparedIntegral` | `hardware/display/libhwcomposer/hwc_utils.cpp:1064-1118` | whose crops are integral throughout |
| `OptimizeRects.PreparedPreserves` | `hardware/display/libhwcomposer/hwc_utils.cpp:1064-1118` | trimming and optimizing together change no pixel of the composite inside the view and the screen |
| `OptimizeRects.OptimizeLayerRects` | `hardware/display/libhwcomposer/hwc_utils.cpp:1522-1561` | the nested in-place loops over the layer array equal the recursive specification |
| `OptimizeRects.OptimizedPreserves` | `hardware/display/libhwcomposer/hwc_utils.cpp:1522-1561` | the loops change no pixel of the composite, whatever the buffers hold and whatever blending does, for lists whose quarter-turned unscaled layers are square and not flipped once |
| `OptimizeRects.PassCuts` | `hardware/display/libhwcomposer/hwc_utils.cpp:1522-1561` | the cut is really made: an unscaled layer no longer overlaps the opaque layer above it |
| `OptimizeRects.OptimizedCuts` | `hardware/display/libhwcomposer/hwc_utils.cpp:1522-1561` | and so it is in the list that comes out: no unscaled layer shares a pixel with an opaque one above it, unless at that one's turn what would have been left of it was not one rectangle |
| `OptimizeRects.OptimizedLeavesScaled` | `hardware/display/libhwcomposer/hwc_utils.cpp:1535-1545` | scaled layers, and layers under translucent ones only, are left alone |
| `TrimPlaces.ClippedPlacesIff` | `hardware/display/libhwcomposer/hwc_utils.cpp:1336-1386` | a clipped layer, scaled or not and whatever its transform, is read at every screen coordinate where it was, if and only if the cuts on all sides take whole pixels of the crop with them |
| `TrimPlaces.TrimPlacesIff` | `hardware/display/libhwcomposer/hwc_utils.cpp:1535-1556` | for what optimizeLayerRects cuts: always when the layer is not turned, and when it is, if and only if the cuts divide |
| `TrimPlaces.ScreenPlacesIff` | `hardware/display/libhwcomposer/hwc_utils.cpp:1064-1092` | for what is cut at the screen, scaled layers too: read where it was, if and only if the cuts take whole pixels |
| `TrimPlaces.OddCutMoves` | `hardware/display/libhwcomposer/hwc_utils.cpp:1535-1556` | a turned layer of 100 by 200 that loses a row and is shifted by half a pixel |
| `RoiDrop.ValidateAndApplyROI` | `hardware/display/libhwcomposer/hwc_mdpcomp.cpp:574-610` | drop flags, drop count and result of the top-down loop, with the reset on failure |
| `RoiDrop.ValidateAndApplyROISplit` | `hardware/display/libhwcomposer/hwc_mdpcomp.cpp:671-714` | the same for the two halves of a split panel |
| `RoiDrop.DropPreserves` | `hardware/display/libhwcomposer/hwc_mdpcomp.cpp:574-610` | inside the ROI the kept layers composite to what all layers composite to |
| `RoiDrop.DropPreservesSplit` | `hardware/display/libhwcomposer/hwc_mdpcomp.cpp:671-714` | the same in either half of a split panel |
| `RoiDrop.KeptTouchesRoi` | `hardware/display/libhwcomposer/hwc_mdpcomp.cpp:574-610` | no layer is kept for nothing, and no layer that needs scaling is cropped |
| `RoiDrop.HiddenDropped` | `hardware/display/libhwcomposer/hwc_mdpcomp.cpp:574-610` | everything under an opaque layer that covers the ROI is dropped |
| `RoiDrop.ResetByScaled` | `hardware/display/libhwcomposer/hwc_mdpcomp.cpp:574-610` | the ROI is given up only for a scaled layer that it meets and of which a pixel lies outside it or under an opaque layer |
| `RoiDrop.SplitTouchesRoi` | `hardware/display/libhwcomposer/hwc_mdpcomp.cpp:671-714` | on a split panel a kept layer shares a pixel with one of the ROIs |
| `RoiDrop.HiddenDroppedSplit` | `hardware/display/libhwcomposer/hwc_mdpcomp.cpp:671-714` | and what lies under an opaque layer that covers both ROIs is dropped |
| `RoiDrop.SplitResetByScaled` | `hardware/display/libhwcomposer/hwc_mdpcomp.cpp:671-714` | the ROIs are given up only for a scaled layer that one of them meets and of which a pixel lies outside both or under an opaque layer |
| `RoiGeneration.CalculateDirtyRect` | `hardware/display/libhwcomposer/hwc_utils.cpp:1419-1442` | the loop over the damage rectangles equals its specification |
| `RoiGeneration.DamagedByOffset` | `hardware/display/libhwcomposer/hwc_utils.cpp:1413-1442` | the offset of the code takes a screen pixel to the source pixel that the layer samples there |
| `RoiGeneration.DirtyRectCovers` | `hardware/display/libhwcomposer/hwc_utils.cpp:1413-1442` | the dirty rectangle holds every screen pixel inside the scissor whose source pixel is damaged |
| `RoiGeneration.DirtyRectLeast` | `hardware/display/libhwcomposer/hwc_utils.cpp:1413-1442` | and lies in every rectangle that does |
| `RoiGeneration.GetSanitizeROI` | `hardware/display/libhwcomposer/hwc_utils.cpp:2733-2802` | the step-by-step alignment, minimum-size and boundary corrections equal their specification, C remainder included |
| `RoiGeneration.SanitizeSpanContains` | `hardware/display/libhwcomposer/hwc_utils.cpp:2733-2802` | sanitizing never loses a part of the ROI, whatever the restrictions |
| `RoiGeneration.SanitizeSpanFits` | `hardware/display/libhwcomposer/hwc_utils.cpp:2733-2802` | under the divisibility conditions the result is aligned, large enough and inside the boundary |
| `RoiGeneration.SanitizedStays` | `hardware/display/libhwcomposer/hwc_utils.cpp:2733-2802` | what meets the restrictions already is left as it is |
| `RoiGeneration.SanitizeSpanTight` | `hardware/display/libhwcomposer/hwc_utils.cpp:2733-2802` | and nothing is enlarged by more than the restrictions can ask for |
| `RoiGeneration.SanitizeSpanStaysIff` | `hardware/display/libhwcomposer/hwc_utils.cpp:2733-2802` | for any restrictions the high edge stays on the panel, and the low edge if and only if it is less than one alignment step outside before it is aligned |
| `RoiGeneration.SanitizeCanEscape` | `hardware/display/libhwcomposer/hwc_utils.cpp:2733-2802` | a concrete input for which it leaves |
| `RoiGeneration.GenerateROI` | `hardware/display/libhwcomposer/hwc_mdpcomp.cpp:615-655` | ROI and drop flags of the single-panel composer, with the fallback to the whole screen |
| `RoiGeneration.DirtyUnionTight` | `hardware/display/libhwcomposer/hwc_mdpcomp.cpp:615-640` | the union lies in every rectangle that holds the pixels that may change, told layer by layer |
| `RoiGeneration.ROICoversDirty` | `hardware/display/libhwcomposer/hwc_mdpcomp.cpp:615-655` | the final ROI holds the dirty part of every layer that changes |
| `RoiGeneration.ROIMeetsPanel` | `hardware/display/libhwcomposer/hwc_mdpcomp.cpp:615-655` | a partial ROI meets all restrictions of a panel whose size fits them |
| `RoiGeneration.ROITight` | `hardware/display/libhwcomposer/hwc_mdpcomp.cpp:615-655` | a partial ROI exceeds any such rectangle by no more than the alignment can ask for |
| `RoiGeneration.FullOnlyIfNeeded` | `hardware/display/libhwcomposer/hwc_mdpcomp.cpp:574-655` | the whole screen is refreshed only if nothing on it may change, or a scaled layer that meets the ROI is not wholly visible in it |
| `RoiGeneration.PartialUpdateShowsFrame` | `hardware/display/libhwcomposer/hwc_mdpcomp.cpp:574-655` | refreshing inside the ROI only, from the kept layers only, leaves every pixel of the screen as a full update would |
| `RoiGeneration.GenerateSplitROI` | `hardware/display/libhwcomposer/hwc_mdpcomp.cpp:718-787` | the two ROIs of a split panel with the merging and the fallback, and the drop flags |
| `RoiGeneration.SplitROICoversDirty` | `hardware/display/libhwcomposer/hwc_mdpcomp.cpp:718-787` | together they hold the dirty part of every layer that changes, video by its damage |
| `RoiGeneration.FullHalvesOnlyIfNeeded` | `hardware/display/libhwcomposer/hwc_mdpcomp.cpp:671-787` | the same for the two halves of a split panel |
| `RoiGeneration.MergedAlike` | `hardware/display/libhwcomposer/hwc_mdpcomp.cpp:748-770` | on a panel that is updated as one the two ROIs have the same rows and meet at the seam |
| `RoiGeneration.SplitDirtyTight` | `hardware/display/libhwcomposer/hwc_mdpcomp.cpp:718-770` | on any other each half is refreshed for what may change in it only |
| `RoiGeneration.SplitUpdateShowsFrame` | `hardware/display/libhwcomposer/hwc_mdpcomp.cpp:671-787` | on a split panel too a partial update leaves every pixel of the screen as a full one would |
| `Batching.IntersectingUpdatingLayers` | `hardware/display/libhwcomposer/hwc_mdpcomp.cpp:1554-1564` | true exactly when an MDP layer of the range intersects the target |
| `Batching.CanPushBatchToTop` | `hardware/display/libhwcomposer/hwc_mdpcomp.cpp:1539-1552` | true exactly when no batched layer intersects an MDP layer above it up to the target |
| `Batching.GetBatch` | `hardware/display/libhwcomposer/hwc_mdpcomp.cpp:1567-1642` | the search with its rewound index terminates and equals the recursive specification |
| `Batching.SearchSound` | `hardware/display/libhwcomposer/hwc_mdpcomp.cpp:1567-1642` | the batch found keeps the order of intersecting layers, its size is the number of its FB layers, and its z-order is the number of MDP layers below the place it is cut in, less the recount |
| `BatchSize.BatchFrom` | `hardware/display/libhwcomposer/hwc_mdpcomp.cpp:1573-1634` | a batch takes in all FB layers from its start up to the first one that lies over an MDP layer between them and below which the batch cannot be moved up; where the next batch starts |
| `BatchSize.JoinableIff` | `hardware/display/libhwcomposer/hwc_mdpcomp.cpp:1539-1564` | when it cannot, told by which layers share pixels |
| `BatchSize.BestBatch` | `hardware/display/libhwcomposer/hwc_mdpcomp.cpp:1567-1642` | of the batches that are tried getBatch returns the largest, and the first one among equals |
| `BatchSize.BestBatchHolds` | `hardware/display/libhwcomposer/hwc_mdpcomp.cpp:1567-1642` | so the batch has at least as many layers as any stretch of FB layers that fit, from the first layer on or from any start that is tried |
| `BatchSize.AllInOneBatch` | `hardware/display/libhwcomposer/hwc_mdpcomp.cpp:1567-1642` | when all FB layers fit, all of them are in the batch |
| `Batching.MarkLayersForCaching` | `hardware/display/libhwcomposer/hwc_mdpcomp.cpp:1644-1698` | marks, fbZ and counters, and exactly when the marking fails |
| `Batching.MarkedPlacement` | `hardware/display/libhwcomposer/hwc_mdpcomp.cpp:1567-1698` | after marking there is a place for the FB that keeps the order; fbZ misses it by the recount, and is it if and only if that is 0 |
| `DroppedRewind.DroppedLayerMisplacesFb` | `hardware/display/libhwcomposer/hwc_mdpcomp.cpp:1590-1630` | whenever the layers of a list overlap in a certain way, marks and a dropped layer lead to a recount of 1, a layer is drawn over one that lies above it, and the picture is not kept |
| `DroppedRewind.FrameIsMisplaced` | `hardware/display/libhwcomposer/hwc_mdpcomp.cpp:574-655` | there is such a list, optimizeLayerRects leaves it alone, and its drop flags are those that the ROI scan of its partial update produces |
| `ZOrder.AdjustForSourceSplit` | `hardware/display/libhwcomposer/hwc_mdpcomp.cpp:2170-2199` | the loop over the layers that moves fbZ past split layers |
| `ZOrder.AdjustCounts` | `hardware/display/libhwcomposer/hwc_mdpcomp.cpp:2170-2199` | fbZ moves up by one for each split layer below the FB and no further; mdpCount by one for every split layer |
| `ZOrder.SlotsAroundFb` | `hardware/display/libhwcomposer/hwc_mdpcomp.cpp:1856-1889` | after the adjustment the FB has the same MDP layers beneath it, all their stages, as before |
| `ZOrder.SlotsIncrease` | `hardware/display/libhwcomposer/hwc_mdpcomp.cpp:1856-1889` | stages increase in list order and no two layers share one, split layers taking two |
| `ZOrder.MixerShowsList` | `hardware/display/libhwcomposer/hwc_mdpcomp.cpp:1856-1889` | the mixer, read stage by stage, shows at every pixel the layers of the list in the order of the list |
| `ZOrder.MixerWithoutFb` | `hardware/display/libhwcomposer/hwc_mdpcomp.cpp:1856-1889` | the same for frames that use no FB |
| `ZOrder.KeptIffInPlace` | `hardware/display/libhwcomposer/hwc_mdpcomp.cpp:1856-2199` | for any marks and any fbZ: split adjustment and z-order loop show the list at every pixel if and only if fbZ lies between the MDP layers under and over each FB layer that they share a pixel with |
| `ZOrder.CachingShowsList` | `hardware/display/libhwcomposer/hwc_mdpcomp.cpp:1567-1698` | for the fbZ that getBatch finds that is exactly when the picture is kept, and it is so whenever no dropped layer is counted twice |
| `ZOrder.InPlaceByRecount` | `hardware/display/libhwcomposer/hwc_mdpcomp.cpp:1567-1698` | in terms of the list: no FB layer lies over an MDP layer whose rank is among those that the recount moves over the FB |
| `ZOrder.CachingKeepsColor` | `hardware/display/libhwcomposer/hwc_mdpcomp.cpp:1567-1698` | flattening into the FB then changes no pixel's colour for any associative blend, under the same condition |
| `PipeAccounting.CountsPartition` | `hardware/display/libhwcomposer/hwc_mdpcomp.cpp:1700-1723` | FB, MDP and dropped layers partition the list; stray drops are what dropCount counts besides |
| `PipeAccounting.DriftIsMiscount` | `hardware/display/libhwcomposer/hwc_mdpcomp.cpp:1700-1805` | mdpCount misses the number of marked layers by exactly the drift of fbCount |
| `PipeAccounting.UpdateLayerCache` | `hardware/display/libhwcomposer/hwc_mdpcomp.cpp:1700-1723` | marks and counters for cached layers |
| `PipeAccounting.UpdateYUV` | `hardware/display/libhwcomposer/hwc_mdpcomp.cpp:1742-1779` | marks of the video layers, and that the drift stays |
| `PipeAccounting.YuvMark` | `hardware/display/libhwcomposer/hwc_mdpcomp.cpp:1742-1779` | the mark of a layer, whatever it was before: video that is handled goes to the FB when it is not doable and to MDP when it is and is wanted |
| `PipeAccounting.UpdateSecureRGB` | `hardware/display/libhwcomposer/hwc_mdpcomp.cpp:1781-1805` | marks of the secure RGB layers, dropped ones too, and that the drift stays |
| `PipeAccounting.MarkingMiscount` | `hardware/display/libhwcomposer/hwc_mdpcomp.cpp:1688-1692` | after marking, mdpCount covers all marked layers if and only if no dropped layer is marked |
| `PipeAccounting.FullMdpMarks` | `hardware/display/libhwcomposer/hwc_mdpcomp.cpp:919-928` | fullMDPComp marks everything that is not dropped and counts it exactly |
| `PipeAccounting.CacheMark` | `hardware/display/libhwcomposer/hwc_mdpcomp.cpp:1202-1228` | the mark that each layer has when batching begins, in terms of updating, video, secure and dropped layers |
| `PipeAccounting.FinalMark` | `hardware/display/libhwcomposer/hwc_mdpcomp.cpp:1644-1698` | and the mark it ends up with |
| `PipeAccounting.CacheMissing` | `hardware/display/libhwcomposer/hwc_mdpcomp.cpp:1202-1228` | what mdpCount is short of, in terms of updating, dropped and secure layers, and exactly when that is nothing |
| `PipeAccounting.CacheBasedMarks` | `hardware/display/libhwcomposer/hwc_mdpcomp.cpp:1202-1257` | exactly when cacheBasedComp gets as far as postHeuristicsHandling; the marks and counters it hands over, mdpCount up to what is missing, and a mixer that shows the list if and only if fbZ has its place |
| `PipeAccounting.NothingRecounted` | `hardware/display/libhwcomposer/hwc_mdpcomp.cpp:1567-1698` | which it has when nothing is left for the FB or no dropped layer is counted twice |
| `PipeAccounting.OnlyMark` | `hardware/display/libhwcomposer/hwc_mdpcomp.cpp:1433-1465` | the same for mdpOnlyLayersComp: only secure RGB and wanted video that can be shown there go to MDP |
| `PipeAccounting.OnlyMissing` | `hardware/display/libhwcomposer/hwc_mdpcomp.cpp:1433-1465` | mdpCount is short of something here only if a dropped secure layer can be shown by MDP |
| `PipeAccounting.MdpOnlyLayersMarks` | `hardware/display/libhwcomposer/hwc_mdpcomp.cpp:1433-1481` | the same for mdpOnlyLayersComp |
| `UncountedLayers.RoiDropsHidden` | `hardware/display/libhwcomposer/hwc_mdpcomp.cpp:574-655` | a partial update drops two hidden layers that update; optimizeLayerRects has left the list as it is |
| `UncountedLayers.UncountedLayersPass` | `hardware/display/libhwcomposer/hwc_mdpcomp.cpp:1202-1257` | for such a frame cacheBasedComp hands over three as mdpCount |
| `UncountedLayers.HandedOverOverflows` | `hardware/display/libhwcomposer/hwc_mdpcomp.cpp:1901-1927` | which passes the resource check of a mixer with four stages although five layers are marked |
| `PipeAccounting.VideoOnlyMarks` | `hardware/display/libhwcomposer/hwc_mdpcomp.cpp:1376-1416` | videoOnlyComp: exactly when there is a video layer for it to mark; which layers it marks, the FB right above all their stages, and counters exact |
| `PipeAccounting.ChooseLoadBatch` | `hardware/display/libhwcomposer/hwc_mdpcomp.cpp:1259-1310` | the first batch size that loadBasedComp tries |
| `PipeAccounting.LoadBatchLargest` | `hardware/display/libhwcomposer/hwc_mdpcomp.cpp:1259-1310` | which is the largest that leaves a stage and two layers to the FB and holds no more layers than lie below the first unsupported one |
| `PipeAccounting.LoadBasedMarks` | `hardware/display/libhwcomposer/hwc_mdpcomp.cpp:1259-1347` | every larger size was refused; the FB is well placed above the lower layers, both counters are exact and, with nothing dropped to begin with, all of those are supported |
| `PostHeuristics.ResourceCheck` | `hardware/display/libhwcomposer/hwc_mdpcomp.cpp:1901-1927` | true exactly when stages and rotators suffice |
| `PostHeuristics.Map` | `hardware/display/libhwcomposer/hwc_mdpcomp.cpp:337-346` | the two maps stay inside their arrays and are inverse to each other |
| `PostHeuristics.MapsKeepOrder` | `hardware/display/libhwcomposer/hwc_mdpcomp.cpp:337-346` | and keep the order of the list |
| `PostHeuristics.AssignZOrders` | `hardware/display/libhwcomposer/hwc_mdpcomp.cpp:1856-1889` | the z-order loop gives every pipe the stage of its layer |
| `PostHeuristics.StagesFit` | `hardware/display/libhwcomposer/hwc_mdpcomp.cpp:1856-1927` | with the FB in use no stage lies beyond those that the resource check has granted |
| `PostHeuristics.ResourcesIff` | `hardware/display/libhwcomposer/hwc_mdpcomp.cpp:1856-1927` | with the FB in its place the resource check passes if and only if every stage that is given out is one of the mixer and there is a rotator session for every layer that needs one |
| `PostHeuristics.ResourcesWithoutFbIff` | `hardware/display/libhwcomposer/hwc_mdpcomp.cpp:1856-1927` | the same without the FB and split layers |
| `PostHeuristics.StagesWithoutFb` | `hardware/display/libhwcomposer/hwc_mdpcomp.cpp:2170-2199` | without the FB the stages exceed mdpCount by exactly the number of split layers |
| `PostHeuristics.FifthStage` | `hardware/display/libhwcomposer/hwc_mdpcomp.cpp:2170-2199` | four layers, one of them split, take five stages |
| `PostHeuristics.PostHeuristicsHandling` | `hardware/display/libhwcomposer/hwc_mdpcomp.cpp:1823-1899` | exactly when the step succeeds, and maps and stages when it does |
| `Ptor.IsOverlapRemovable` | `hardware/display/libhwcomposer/hwc_mdpcomp.cpp:1010-1025` | the loop over the layers under a candidate equals its specification |
| `Ptor.ChooseLayers` | `hardware/display/libhwcomposer/hwc_mdpcomp.cpp:989-1036` | which one or two layers are chosen, top down |
| `PtorSpec.ChooseSound` | `hardware/display/libhwcomposer/hwc_mdpcomp.cpp:989-1036` | a chosen layer is eligible with the pixels of those chosen before it taken off: peripheral, not turned, small enough, removable |
| `PtorSpec.ChosenAreSmall` | `hardware/display/libhwcomposer/hwc_mdpcomp.cpp:989-1036` | together the chosen layers have at most a third of the pixels of the screen |
| `PtorSpec.ChooseComplete` | `hardware/display/libhwcomposer/hwc_mdpcomp.cpp:989-1036` | and no eligible layer is passed over while there is room |
| `PtorSpec.SlotsPacked` | `hardware/display/libhwcomposer/hwc_copybit.cpp:279-334` | the slots of the patches in the render buffer do not overlap |
| `PtorSpec.OverlapShape` | `hardware/display/libhwcomposer/hwc_mdpcomp.cpp:1047-1058` | a patch is a part of its layer's frame |
| `PtorSpec.PatchCuts` | `hardware/display/libhwcomposer/hwc_mdpcomp.cpp:1110-1130` | a layer under a patch no longer shares a pixel with it, unless what would be left of it is not one rectangle |
| `PtorRender.DrawOverlap` | `hardware/display/libhwcomposer/hwc_copybit.cpp:695-790` | each slot ends up holding, pixel by pixel, what copybit makes of the layers up to its PTOR layer, colour layers skipped |
| `PtorRender.CopiedWhole` | `hardware/display/libhwcomposer/hwc_copybit.cpp:738-805` | that is the composite wherever no colour layer shows |
| `PtorRender.CopiedLoses` | `hardware/display/libhwcomposer/hwc_copybit.cpp:738-805` | and it is not where one does |
| `PtorSpec.PatchedShows` | `hardware/display/libhwcomposer/hwc_mdpcomp.cpp:989-1166` | the patched list shows, at every pixel, the layers over a patch on top of what its slot holds, and elsewhere the original list |
| `PtorSpec.PatchedShowsOriginal` | `hardware/display/libhwcomposer/hwc_mdpcomp.cpp:989-1166` | the patched list, patches read from the render buffer, shows at every pixel what the original list shows |
| `PtorRender.DrawnShowsList` | `hardware/display/libhwcomposer/hwc_copybit.cpp:695-790` | what is drawn and what is patched together show the original list, except exactly where a colour layer shows under a patch that nothing opaque covers |
| `Ptor.RestoreUndoesPatch` | `hardware/display/libhwcomposer/hwc_mdpcomp.cpp:1084-1166` | putting geometry and modes back leaves every layer as it was up to the integerized crop |
| `Ptor.LayerRestoredIff` | `hardware/display/libhwcomposer/hwc_mdpcomp.cpp:1145-1153` | a layer comes back as it was if and only if its crop was integral, which trimList sees to |
| `Ptor.HandlesRestoredIff` | `hardware/display/libhwcomposer/hwc_mdpcomp.cpp:1084-1166` | the handle attributes come back if and only if the two PTOR layers do not share a handle (or it had the size of the render buffer) |
| `Ptor.TwinsLoseHandle` | `hardware/display/libhwcomposer/hwc_mdpcomp.cpp:1084-1166` | two bars with one buffer, whose handle keeps the size of the render buffer |
| `Ptor.FullMdpCompWithPtor` | `hardware/display/libhwcomposer/hwc_mdpcomp.cpp:943-1175` | the whole strategy in place, checks first: when it succeeds, with which layers and marks, and the list and handles afterwards on every path; with integral crops the list is as it was |
| `Ptor.PtorFrame` | `hardware/display/libhwcomposer/hwc_mdpcomp.cpp:943-1175` | a PTOR frame from end to end: chosen, patched, put back, drawn from the list as it was put back, and shown: the original list, except exactly where a colour is missing |
| `Ptor.BarLosesColor` | `hardware/display/libhwcomposer/hwc_copybit.cpp:792-806` | a translucent bar over a colour layer: PTOR takes the bar, and the colour is missing all along it |
| `SwapRect.CopyBit.FrameChange` | `hardware/display/libhwcomposer/hwc_copybit.cpp:204-277` | the union over the layers that differ from the cached ones, or the marker for no change |
| `SwapRect.ChangeLeast` | `hardware/display/libhwcomposer/hwc_copybit.cpp:204-277` | which is the least rectangle around what differs from the frame before |
| `SwapRect.NoChangeIff` | `hardware/display/libhwcomposer/hwc_copybit.cpp:204-277` | it is the marker exactly when no layer has another buffer or frame |
| `SwapRect.CopyBit.PrepareSwapRect` | `hardware/display/libhwcomposer/hwc_copybit.cpp:204-277` | when a frame is drawn partly, and the cache entry for it |
| `SwapRect.SuitsIff` | `hardware/display/libhwcomposer/hwc_copybit.cpp:187-277` | swap rectangles are considered exactly when all layers are one to one, not turned and not video |
| `SwapRect.CopyBit.UnchangedCount` | `hardware/display/libhwcomposer/hwc_copybit.cpp:1365-1374` | how many cached rectangles equal the one asked for |
| `SwapRect.RepeatedChangeAgreed` | `hardware/display/libhwcomposer/hwc_copybit.cpp:1357-1363` | once the same change has been written for as many frames as there are buffers, all entries agree on it |
| `SwapRect.CopyBit.CanBlit` | `hardware/display/libhwcomposer/hwc_copybit.cpp:385-440` | the test of each layer in prepare: opaque planes, crop and frame not empty |
| `SwapRect.ClipExactIff` | `hardware/display/libhwcomposer/hwc_copybit.cpp:960-978` | a clipped blit shows the same source pixels if and only if the layer is not flipped or the clip is symmetric |
| `SwapRect.OutsideChangeSame` | `hardware/display/libhwcomposer/hwc_copybit.cpp:187-277` | outside the change a frame shows what the frame before it showed |
| `SwapRect.OldBufferSameOutside` | `hardware/display/libhwcomposer/hwc_copybit.cpp:204-277` | when all entries are the same rectangle, the oldest buffer differs from the new frame only inside it |
| `SwapRect.PartialShowsFrame` | `hardware/display/libhwcomposer/hwc_copybit.cpp:584-693` | drawing inside that rectangle leaves the buffer as a full redraw would |
| `SwapRect.CopyBit.Compose` | `hardware/display/libhwcomposer/hwc_copybit.cpp:337-693` | one frame, through prepare and draw: exactly when copybit draws it; the invariant over the buffers and the cache ring is kept, and the buffer drawn shows the frame |
| `SwapRect.FullUntilAllSeen` | `hardware/display/libhwcomposer/hwc_copybit.cpp:204-277` | after a reset, frames are drawn in full until each render buffer has been drawn |
| `SwapRect.ComposeRun` | `hardware/display/libhwcomposer/hwc_copybit.cpp:337-693` | every run of frames, fully or partly drawn by copybit or composed elsewhere in between: each frame that copybit draws shows as a full redraw would |
| `Redraw.LayerCache.IsSameFrame` | `hardware/display/libhwcomposer/hwc_mdpcomp.cpp:364-379` | exactly when the cached marks are those of the frame and no FB layer updates |
| `Redraw.LayerCache.IsSameList` | `hardware/display/libhwcomposer/hwc_mdpcomp.cpp:381-399` | exactly when nothing has changed at all |
| `Redraw.FlattenedSame` | `hardware/display/libhwcomposer/hwc_mdpcomp.cpp:364-379` | lists that agree on their FB layers flatten to the same image |
| `Redraw.MdpComp.SetRedraw` | `hardware/display/libhwcomposer/hwc_mdpcomp.cpp:301-309` | exactly when the FB has to be drawn |
| `Redraw.MdpComp.Prepare` | `hardware/display/libhwcomposer/hwc_mdpcomp.cpp:1998-2123` | the FB holds exactly the current contents of the layers composed in it and is not touched when needsRedraw is false; exactly when MDP composes the frame, when the FB is drawn, and what is cached for the next frame |
| `Redraw.MdpComp.PrepareRun` | `hardware/display/libhwcomposer/hwc_mdpcomp.cpp:1998-2123` | the same for every frame of every run, told from the frames alone |
| `Redraw.StillFrameIsKept` | `hardware/display/libhwcomposer/hwc_mdpcomp.cpp:1998-2123` | a frame that stands still is not drawn a second time |
| `Redraw.ChangedFrameIsDrawn` | `hardware/display/libhwcomposer/hwc_mdpcomp.cpp:1998-2123` | a frame in which a layer of the FB updates is always drawn |
| `DrawLock.MutualExclusion` | `hardware/display/libhwcomposer/hwc.cpp:386-387` | in every reachable state exactly the owner of the lock is where only the owner can be |
| `DrawLock.WaitSpansRound` | `hardware/display/libhwcomposer/hwc_utils.cpp:2804-2843` | when wait returns, one whole round of prepare and set has run between the write of the flags and the return |
| `DrawLock.PauseSparesDisplay` | `hardware/display/libhwcomposer/hwc.cpp:340-373` | from a pause on nothing is configured or committed for the external display until a resume ends or it comes online |
| `DrawLock.PauseWaitsForEmptyRound` | `hardware/display/libhwcomposer/hwc_utils.cpp:2804-2825` | unless one of those comes between, the round that handle_pause waited for did nothing for the display |
| `DrawLock.ResumeLights` | `hardware/display/libhwcomposer/hwc_utils.cpp:2827-2843` | when handle_resume is done, a display that has stayed connected can be composed for again |
| `DrawLock.ResumedRound` | `hardware/display/libhwcomposer/hwc.cpp:340-373` | and every later round, until a pause or until it goes offline, configures it if there are layers for it and commits to it |
| `DrawLock.GiveUpSpansRound` | `hardware/display/libhwcomposer/hwc_uevents.cpp:140-165` | for an ONLINE event the whole round that is waited for runs with isConfiguring set, which keeps the primary display off MDP |
| `DrawLock.RoundSeesOneState` | `hardware/display/libhwcomposer/hwc.cpp:709-757` | set commits to the display whenever its prepare configured it: nobody gets in between |
| `DrawLock.RoundsWakeAll` | `hardware/display/libhwcomposer/hwc.cpp:789-791` | one signal a round is enough: as many rounds as there are waiting threads wake them all |
| `Yv12.RasterOrder` | `hardware/display/libcopybit/software_converter.cpp:98-122` | sample number and place in the padded plane |
| `Yv12.CopyUnpadded` | `hardware/display/libcopybit/software_converter.cpp:98-122` | the loop over r1, r2, i, j terminates and pairs the samples for every width from two on, even or odd |
| `Yv12.Interleave` | `hardware/display/libcopybit/software_converter.cpp:83-89` | the loop for planes without padding |
| `Yv12.ZippedIsRaster` | `hardware/display/libcopybit/software_converter.cpp:64-91` | without padding the plane order is the raster order, so the fast loop meets the same specification |
| `Yv12.WholeBlocks` | `hardware/display/libcopybit/software_converter.cpp:64-81` | the chroma size is a multiple of eight, so the vector loop leaves no rest |
| `Yv12.SameExtent` | `hardware/display/libcopybit/software_converter.cpp:52-62` | for an even height both loops write the same number of bytes |
| `Yv12.Convert` | `hardware/display/libcopybit/software_converter.cpp:37-125` | luma as it was, output bytes 2n and 2n + 1 the n-th V and U sample, nothing else written; -1 for a missing buffer |
| `Yv12.ConvertedByPlace` | `hardware/display/libcopybit/software_converter.cpp:37-125` | the same read by row and column, with strides and plane offsets written out |
| `Yv12.LumaByPlace` | `hardware/display/libcopybit/software_converter.cpp:46-62` | luma bytes stay where they are |
| `StridedCopy.CopySourceToDestination` | `hardware/display/libcopybit/software_converter.cpp:139-172` | the row-by-row copies in place equal their specification |
| `StridedCopy.RowByte` | `hardware/display/libcopybit/software_converter.cpp:165-169` | a row keeps its bytes though the row before spills into it |
| `StridedCopy.ConvertAndroidToC2d` | `hardware/display/libcopybit/software_converter.cpp:229-264` | strides and plane offsets, and the refused formats |
| `StridedCopy.ConvertC2dToAndroid` | `hardware/display/libcopybit/software_converter.cpp:183-221` | the other direction |
| `StridedCopy.C2dBytes` | `hardware/display/libcopybit/software_converter.cpp:229-264` | byte by byte with both layouts written out, the chroma at a multiple of 2048 for the encoder |
| `StridedCopy.RoundTrip` | `hardware/display/libcopybit/software_converter.cpp:183-264` | Android to c2d and back returns the luma of the image and all chroma bytes of its rows |
| `StridedCopy.RoundTripBytes` | `hardware/display/libcopybit/software_converter.cpp:183-264` | the same with both layouts written out |
| `StridedCopy.SlackNeeded` | `hardware/display/libcopybit/software_converter.cpp:165-196` | the way back writes past the last row if and only if the two strides differ |
| `SplitLayer.SanitizeSourceCrop` | `hardware/display/libhwcomposer/hwc_utils.cpp:2147-2173` | the in-place corrections equal their specification |
| `SplitLayer.ConfigureSplit` | `hardware/display/libhwcomposer/hwc_utils.cpp:2247-2318` | the crops and destinations handed to the two pipes |
| `SplitLayer.HalvesMeet` | `hardware/display/libhwcomposer/hwc_utils.cpp:2249-2265` | the halves meet at the split, have the outer edges of the layer clipped to the screen, and their crops leave a gap of one column if and only if the seam is half way between two |
| `SplitLayer.CropsTile` | `hardware/display/libhwcomposer/hwc_utils.cpp:2147-2288` | after sanitizing, the crops tile the clipped crop, up to even columns for YUV; the H-flip exchange keeps each half's width |
| `SplitLayer.EmptyHalfKeepsGap` | `hardware/display/libhwcomposer/hwc_utils.cpp:2147-2173` | when the crops abut for other buffers, exactly |
| `SplitLayer.SplitKeepsSamples` | `hardware/display/libhwcomposer/hwc_utils.cpp:2175-2318` | for a one-to-one layer, flipped or not, the half that covers a pixel shows the source pixel the whole layer showed |
| `SplitLayer.RightMixerShows` | `hardware/display/libhwcomposer/hwc_utils.cpp:2266-2318` | column x of the right mixer shows what the whole layer showed at column lSplit + x of the panel |
| `SplitLayer.OnTheMixers` | `hardware/display/libhwcomposer/hwc_utils.cpp:2247-2318` | what the pipes are told lies on their mixers, for any layer |
| `SplitLayer.OneSided` | `hardware/display/libhwcomposer/hwc_utils.cpp:2247-2288` | a layer in one half is left to one pipe, clipped to the screen |
| `Rounding.RatioPixels` | `hardware/display/libhwcomposer/hwc_utils.cpp:1371-1385` | the rounded pixels of a cut ratio, in whole numbers |
| `Rounding.PixelsSum` | `hardware/display/libhwcomposer/hwc_utils.cpp:1371-1385` | two parts rounded separately make up the whole, or one more exactly when both are half way |
| `BlitRects.SetRects` | `hardware/display/libcopybit/copybit.cpp:166-221` | the step-by-step set-up of the rectangles equals its specification, 32-bit products included |
| `BlitRects.ScaledInside` | `hardware/display/libcopybit/copybit.cpp:108-113` | offset and size scaled together stay inside the extent, even when the products wrap |
| `BlitRects.BlitInside` | `hardware/display/libcopybit/copybit.cpp:166-221` | for every flip, rotation and scaling the source area is inside the source rectangle if and only if that is not inverted |
| `BlitRects.BlitDestination` | `hardware/display/libcopybit/copybit.cpp:166-221` | the destination area is what destination and scissor share, and nothing is set up when they share nothing |
| `BlitRects.ClippedBlitSamePixels` | `hardware/display/libcopybit/copybit.cpp:166-221` | clipping an unscaled blit does not move the picture, for all eight transforms |
| `BlitRects.BlitPixelIsSample` | `hardware/display/libcopybit/copybit.cpp:166-221` | the blitter's pixel is the one the composer takes the layer to show |
| `BlitRects.ScaledExactIff` | `hardware/display/libcopybit/copybit.cpp:108-113` | a scaled number is the right one if and only if its product does not reach 2^32, or nothing is scaled |
| `BlitRects.ScaledBlitPart` | `hardware/display/libcopybit/copybit.cpp:166-221` | which part a scaled blit reads: offset and size are the shares of what the clip skips and shows, rounded down, for all eight transforms, as long as no product wraps |
| `BlitRects.BlitWraps` | `hardware/display/libcopybit/copybit.cpp:108-221` | a concrete blit that loses its source offset |
| `BlitRects.InvertedBlit` | `hardware/display/libcopybit/copybit.cpp:166-221` | a concrete blit of an inverted source rectangle |
| `Copybit.HandedAreExecuted` | `hardware/display/libcopybit/copybit.cpp:241-284` | as long as calls succeed nothing that left the list is lost |
| `Copybit.RequestsInside` | `hardware/display/libcopybit/copybit.cpp:506-545` | every blit of a region has the transform and alpha of the context, writes inside the destination and the region, and reads inside the source rectangle if and only if that is not inverted |
| `Copybit.RegionDrawn` | `hardware/display/libcopybit/copybit.cpp:506-545` | no pixel of the region is missed: one of the requests of an unscaled blit puts there what the whole blit would put there |
| `Copybit.Context.SetSync` | `hardware/display/libcopybit/copybit.cpp:409-432` | the fence joins the next batch; a full list goes off first; fences and requests are conserved |
| `Copybit.Context.FillColor` | `hardware/display/libcopybit/copybit.cpp:648-695` | one request at the end, or none for a rectangle that does not fit |
| `Copybit.Context.BlitRegion` | `hardware/display/libcopybit/copybit.cpp:506-545` | the accepted requests are those of the region up to the failure, in order |
| `Copybit.Context.Stretch` | `hardware/display/libcopybit/copybit.cpp:435-565` | what is refused, what is accepted, and that no pending request refers to a freed YV12 temporary |
| `Copybit.Context.FlushGetFence` | `hardware/display/libcopybit/copybit.cpp:710-726` | afterwards every request ever accepted has been executed once and in order, unless a call failed |
| `Copybit.Context.ClearBuffer` | `hardware/display/libcopybit/copybit.cpp:587-645` | goes past the list and takes the pending fences along |
| `Bits.SetBitBits` | `hardware/display/libgralloc/gpu.cpp:251-254` | setting a bit changes that bit only |
| `Bits.ClearedBit` | `hardware/display/libgralloc/gpu.cpp:234-237` | a mask smaller than the full one has a clear bit |
| `FramebufferSlots.Module.Alloc` | `hardware/display/libgralloc/gpu.cpp:203-262` | the first free slot; out of memory exactly when all are live; the mask bits are the live handles |
| `FramebufferSlots.Module.LiveApart` | `hardware/display/libgralloc/gpu.cpp:241-260` | live handles do not overlap and lie inside the mapping |
| `FramebufferSlots.Module.FreesOwnSlot` | `hardware/display/libgralloc/gpu.cpp:341-347` | free finds the handle's own slot if and only if the padding before it is less than a screen |
| `FramebufferSlots.Module.SmallScreenLosesSlot` | `hardware/display/libgralloc/gpu.cpp:341-347` | a screen of 5184 bytes, whose third slot is freed as the fourth |
| `FramebufferSlots.Module.FreesAllSlots` | `hardware/display/libgralloc/gpu.cpp:341-347` | so it does for all slots when it does for the last |
| `FramebufferSlots.Module.Free` | `hardware/display/libgralloc/gpu.cpp:341-347` | the handle is gone, and the mask stays right exactly under that condition |

## Left out

- ioctls, sysfs, properties, fences as kernel objects, library loading, logging, display animation, the binder service, HDMI, vsync and uevent parsing: plumbing; a call's outcome is left open where it matters.
- Overlay pipe book, rotator, writeback and the MDP capability queries: taken as parameters.  Their headers, MAX_PIPES_PER_MIXER and MDP_MAX_FENCE_FD are not part of this model; the two constants have fixed values here.
- copybit_c2d.cpp: dominated by an external library.
- alloc_controller.cpp: the buffer size tables are mostly branches over formats.
- Floating point: crop ratios are exact reals and rounding goes half away from zero; the aspect-ratio, action-safe and DPI mappings are left out.
- Machine integers: coordinates and counters are unbounded except for the 32-bit products in MULDIV.
- The split-panel versions of adjustForSourceSplit (it counts only the split layers that lie in one half) and acquireMDPPipes, and the source-split composer.
- OptimizeRects.OptimizedPreserves: for lists in which every quarter-turned layer that passes for unscaled is square and not flipped once.  Of the others the hardware makes a scaled picture, of which TrimPlaces says only where it is read from, not how its edges are filtered.
- OptimizeRects.PreparedPreserves: for lists in which, besides, no scaled layer with a buffer leaves the screen; of those TrimPlaces says where they are read from.
- A single flip together with a quarter turn: which of the two comes first is not fixed in `Layers`, where such a layer counts as scaled; `TrimPlaces` takes them in the order of calc_cut, and the blitter's own order is in `BlitRects`.
- PipeAccounting.CacheMissing: the number is that of the marks handed over; which layers map would leave without a pipe is not followed up.
- PipeAccounting.LoadBasedMarks: split layers are not part of this strategy's statement about the FB.
- PostHeuristics.PostHeuristicsHandling: mdpCount covers the marked layers, as map writes past its array otherwise; where it does not is CacheMissing and OnlyMissing.
- Redraw.MdpComp.Prepare: without display animation and without the partial update of MDP 3; a list with too many layers does not get into the frame record, where the source records its length; the GPU draws an FB image whole.
- SwapRect.CopyBit.PrepareSwapRect: copybitDrop, the drop flags of the partial update of MDP 3, is not part of the comparison, and a layer that has it set is not let through by CanBlit.
- SwapRect.CopyBit.Compose: no colour layers (their fill is not clipped) and no flips in a clipped redraw; the limits on scaling are part of `usable`; the list of visible rectangles of a layer is left out, and the blits are taken to be exact.
- Ptor.FullMdpCompWithPtor: a layer that is chosen has a buffer, as the code writes to its handle without looking; prepareOverlap's allocation and postHeuristicsHandling come in as flags.
- DrawLock.WaitSpansRound: no spurious wakeups; threads other than those that write these flags take and release the lock; the connected flag is read before the lock is taken, so a thread may write whatever it says.
- DrawLock.RoundsWakeAll: that rounds go on being run, which invalidate() asks for, is not part of it.
- Yv12.Convert: an image with chroma rows but fewer than two columns is excluded, as the loop for padded rows does not end on it.
- SplitLayer.ConfigureSplit: calcExtDisplayPosition, assertive display and the pre-rotation are left out; `rotated` says whether the rotator was used.
- SplitLayer.RightMixerShows: for one-to-one layers, like SplitKeepsSamples; for scaled ones HalvesMeet and CropsTile say which columns each half is given.
- BlitRects.SetRects: differences of coordinates are unbounded.
- Copybit.Context.Stretch: an allocation returns a buffer that nothing pending refers to; the release fence is left out.
- FramebufferSlots.Module.Alloc: a single buffer is served by the regular allocator, which is left out; there are fewer than 32 buffers.

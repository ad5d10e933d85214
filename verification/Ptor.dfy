/** fullMDPCompWithPTOR (hwc_mdpcomp.cpp): the layer list and the buffer handles are changed in
    place for the hardware, and put back afterwards. */
module Ptor {
  import opened Rects
  import opened Layers
  import opened Frames
  import opened Batching
  import opened PipeAccounting
  import opened PtorSpec
  import opened PtorRender
  import OptimizeRects

  /** What PTOR changes in a buffer handle. */
  datatype Whf = Whf(w: int, h: int, format: int)

  /** hwLayers and the handles behind them. */
  class HwcList {
    const layers: array<Layer>
    var whf: map<int, Whf>

    constructor (ls: seq<Layer>, dims: map<int, Whf>)
      ensures fresh(layers) && layers[..] == ls && whf == dims
    {
      layers := new Layer[|ls|](i requires 0 <= i < |ls| => ls[i]);
      whf := dims;
    }

    ghost predicate Valid()
      reads this, layers
    {
      forall i :: 0 <= i < layers.Length && !layers[i].colorFill ==> layers[i].handle in whf
    }
  }

  // ------------------------------------------------------------------ choosing

  method IsOverlapRemovable(ls: seq<Layer>, i: nat) returns (found: bool)
    requires i < |ls|
    ensures found == OverlapRemovable(ls, i)
  {
    found := false;
    var j := i - 1;
    while j >= 0
      invariant -1 <= j < i
      invariant found <==> exists k :: j < k < i && Meets(ls[i].frame, ls[k])
      invariant forall k :: j < k < i && Meets(ls[i].frame, ls[k]) ==> !ls[k].Has90Transform() && !ls[k].NeedsScaling()
    {
      if GetIntersection(ls[i].frame, ls[j].frame).Valid() {
        assert Meets(ls[i].frame, ls[j]);
        if ls[j].Has90Transform() || ls[j].NeedsScaling() {
          return false;
        }
        found := true;
      }
      j := j - 1;
    }
  }

  method IsEligible(ls: seq<Layer>, view: Rect, area: int, i: nat, minPixelCount: int) returns (found: bool)
    requires i < |ls|
    ensures found == Eligible(ls, view, area, i, minPixelCount)
  {
    if !IsPeripheral(ls[i].frame, view) || ls[i].Has90Transform() {
      return false;
    }
    var layerPixelCount := PixelCount(ls[i]);
    if 3 * (layerPixelCount + minPixelCount) > area {
      return false;
    }
    found := IsOverlapRemovable(ls, i);
  }

  lemma ChooseStep(ls: seq<Layer>, view: Rect, area: int, i: nat, room: nat, pixels: int)
    requires i < |ls| && room > 0
    ensures Choose(ls, view, area, i + 1, room, pixels) ==
      if Eligible(ls, view, area, i, pixels) then [i] + Choose(ls, view, area, i, room - 1, pixels + PixelCount(ls[i]))
      else Choose(ls, view, area, i, room, pixels)
  {
  }

  method ChooseLayers(ls: seq<Layer>, view: Rect, area: int) returns (idx: seq<nat>)
    ensures idx == Choose(ls, view, area, |ls|, MAX_PTOR_LAYERS, 0)
  {
    ghost var all := Choose(ls, view, area, |ls|, MAX_PTOR_LAYERS, 0);
    idx := [];
    var minPixelCount := 0;
    var i := |ls| - 1;
    while i >= 0 && |idx| < MAX_PTOR_LAYERS
      invariant -1 <= i < |ls| && |idx| <= MAX_PTOR_LAYERS
      invariant idx + Choose(ls, view, area, i + 1, MAX_PTOR_LAYERS - |idx|, minPixelCount) == all
    {
      var found := IsEligible(ls, view, area, i, minPixelCount);
      ChooseStep(ls, view, area, i, MAX_PTOR_LAYERS - |idx|, minPixelCount);
      if found {
        ghost var rest := Choose(ls, view, area, i, MAX_PTOR_LAYERS - |idx| - 1, minPixelCount + PixelCount(ls[i]));
        assert idx + ([i] + rest) == (idx + [i]) + rest;
        idx := idx + [i];
        minPixelCount := minPixelCount + PixelCount(ls[i]);
      }
      i := i - 1;
    }
  }

  // ------------------------------------------------------------------ patching in place

  /** The lower PTOR layer, once cut back, is not cut again by the upper one. */
  lemma UncommonStays(ls: seq<Layer>, idx: seq<nat>)
    requires Chosen(ls, idx) && |idx| == 2
    ensures TrimUnder(Overlap(ls, idx, 0), Uncommon(ls, idx)[idx[1]]).frame == Overlap(ls, idx, 1)
  {
    var o0, f1, o1 := Overlap(ls, idx, 0), ls[idx[1]].frame, Overlap(ls, idx, 1);
    DeductSymmetric(o0, f1);
    if o1 != f1 {
      var common := GetIntersection(f1, o0);
      assert common.Valid() && o1 == DeductRect(f1, common);
      OverlapShape(ls, idx, 1);
      if GetIntersection(o1, o0).Valid() {
        var both := GetIntersection(o1, o0);
        var p := Point(both.left, both.top);
        assert both.Has(p);
        DeductOverlap(f1, o0, p);
      }
    }
  }

  /** Patch layer `index` and cut back the layers below it. */
  method PatchLayer(list: HwcList, index: nat, overlap: Rect, slot: Rect, renderWhf: Whf)
    returns (saved: Whf)
    requires list.Valid() && index < list.layers.Length && list.layers[index].frame == overlap
    requires !list.layers[index].colorFill
    modifies list, list.layers
    ensures list.Valid()
    ensures list.layers[..] == ApplyPatch(old(list.layers[..]), index, overlap, slot)
    ensures saved == old(list.whf)[old(list.layers[index].handle)]
    ensures list.whf == old(list.whf)[old(list.layers[index].handle) := renderWhf]
  {
    ghost var before := list.layers[..];
    var layer := list.layers[index];
    saved := list.whf[layer.handle];
    list.whf := list.whf[layer.handle := renderWhf];
    list.layers[index] := layer.(cropf := ToFRect(slot), blending := None, planeAlpha := 0xFF, transform := NO_TRANSFORM);
    for i := 0 to index
      modifies list.layers
      invariant forall k :: 0 <= k < i ==> list.layers[k] == TrimUnder(overlap, before[k])
      invariant forall k :: i <= k < list.layers.Length ==>
        list.layers[k] == (if k == index then Patch(before[k], overlap, slot) else before[k])
    {
      layer := list.layers[i];
      var irect := GetIntersection(layer.frame, overlap);
      if irect.Valid() {
        var destRect := DeductRect(layer.frame, irect);
        var srcCrop, frame := CalculateCropRects(layer.Crop(), layer.frame, destRect, layer.transform);
        list.layers[i] := layer.(cropf := ToFRect(srcCrop), frame := frame);
      }
    }
    assert list.layers[..] == ApplyPatch(before, index, overlap, slot);
  }

  /** A layer as it is after being put back: the saved crop is the integerized one. */
  function PutBack(l: Layer): Layer {
    l.(cropf := ToFRect(l.Crop()))
  }

  lemma IntegralRestored(ls: seq<Layer>)
    requires OptimizeRects.Integral(ls)
    ensures PutBackAll(ls) == ls
  {
    forall i | 0 <= i < |ls| ensures PutBack(ls[i]) == ls[i] {
      LayerRestoredIff(ls[i]);
    }
  }

  /** What restoring leaves of the handles. */
  function RestoredWhf(whf: map<int, Whf>, ls: seq<Layer>, idx: seq<nat>, renderWhf: Whf): map<int, Whf> {
    if |idx| == 2 && idx[0] < |ls| && idx[1] < |ls| && ls[idx[0]].handle == ls[idx[1]].handle then
      whf[ls[idx[0]].handle := renderWhf]
    else
      whf
  }

  /** The handles come back as they were exactly when the two PTOR layers do not share one
      (or its size and format are those of the render buffer anyway). */
  lemma HandlesRestoredIff(whf: map<int, Whf>, ls: seq<Layer>, idx: seq<nat>, renderWhf: Whf)
    requires 1 <= |idx| <= 2 && forall k :: 0 <= k < |idx| ==> idx[k] < |ls| && ls[idx[k]].handle in whf
    ensures RestoredWhf(whf, ls, idx, renderWhf) == whf <==>
      |idx| == 2 && ls[idx[0]].handle == ls[idx[1]].handle ==> whf[ls[idx[0]].handle] == renderWhf
  {
    var h0 := ls[idx[0]].handle;
    if |idx| == 2 && ls[idx[1]].handle == h0 {
      assert whf[h0 := renderWhf][h0] == renderWhf;
    }
  }

  /** A layer comes back as it was exactly when its crop was integral. */
  lemma LayerRestoredIff(l: Layer)
    ensures PutBack(l) == l <==> l.cropf.Integral()
  {
    IntegerizeRoundTrip(l.cropf);
  }

  // ------------------------------------------------------------------ the whole step

  /** Layers with something to show go to MDP, the others are dropped; dropCount is not told. */
  method MarkShown(f: FrameInfo, shown: seq<Layer>)
    requires f.Valid() && |shown| == f.layerCount && f.Fb() == AllTrue(f.layerCount)
    requires forall i :: 0 <= i < f.layerCount ==> !f.drop[i]
    modifies f`mdpCount, f`fbCount, f`fbZ, f.isFBComposed, f.drop
    ensures f.Valid() && Accounted(f) && f.fbCount == 0 && f.fbZ == -1
    ensures forall i :: 0 <= i < f.layerCount ==> f.Fb()[i] == f.Drops()[i] == !shown[i].frame.Valid()
  {
    f.mdpCount := f.layerCount;
    f.fbCount := 0;
    f.fbZ := -1;
    for j := 0 to f.layerCount
      modifies f`mdpCount, f.isFBComposed, f.drop
      invariant forall i :: 0 <= i < j ==> f.isFBComposed[i] == f.drop[i] == !shown[i].frame.Valid()
      invariant forall i :: j <= i < f.layerCount ==> f.isFBComposed[i] && !f.drop[i]
      invariant f.mdpCount == f.layerCount - j + MdpCount(f.Fb(), 0, j)
    {
      ghost var before := f.Fb();
      if shown[j].frame.Valid() {
        f.isFBComposed[j] := false;
      } else {
        f.mdpCount := f.mdpCount - 1;
        f.drop[j] := true;
      }
      MdpCountPrefix(before, f.Fb(), j);
    }
  }

  lemma {:induction false} MdpCountPrefix(fb: seq<bool>, fb': seq<bool>, n: nat)
    requires n <= |fb| && n <= |fb'| && forall k :: 0 <= k < n ==> fb[k] == fb'[k]
    ensures MdpCount(fb, 0, n) == MdpCount(fb', 0, n)
  {
    if n > 0 {
      MdpCountPrefix(fb, fb', n - 1);
    }
  }

  function PutBackAll(ls: seq<Layer>): (r: seq<Layer>)
    ensures |r| == |ls| && forall i :: 0 <= i < |ls| ==> r[i] == PutBack(ls[i])
  {
    seq(|ls|, i requires 0 <= i < |ls| => PutBack(ls[i]))
  }

  lemma PutBackLooks(l: Layer)
    ensures PutBack(l).Crop() == l.Crop() && PutBack(l).frame == l.frame && PutBack(l).NeedsScaling() == l.NeedsScaling()
    ensures PutBack(l).Has90Transform() == l.Has90Transform()
  {
  }

  /** The chosen indices in the terms of the specification. */
  lemma ChoiceIsChosen(ls: seq<Layer>, view: Rect, area: int)
    ensures
      var idx := Choose(ls, view, area, |ls|, MAX_PTOR_LAYERS, 0);
      idx != [] ==> Chosen(ls, idx)
  {
    var idx := Choose(ls, view, area, |ls|, MAX_PTOR_LAYERS, 0);
    forall k | 0 <= k < |idx| ensures idx[k] < |ls| && OverlapRemovable(ls, idx[k]) && (k > 0 ==> idx[k] < idx[k - 1]) {
      ChooseSound(ls, view, area, |ls|, MAX_PTOR_LAYERS, 0, k);
      if k > 0 {
        ChosenDescend(ls, view, area, |ls|, MAX_PTOR_LAYERS, 0, k);
      }
    }
  }

  /** The lower PTOR layer gives up what it shares with the upper one. */
  method CutCommon(list: HwcList, idx: seq<nat>)
    requires list.Valid() && Chosen(list.layers[..], idx)
    modifies list.layers
    ensures list.Valid() && list.layers[..] == Uncommon(old(list.layers[..]), idx)
  {
    ghost var ls := list.layers[..];
    if |idx| == 2 {
      var frame := list.layers[idx[1]].frame;
      var commonRect := GetIntersection(list.layers[idx[0]].frame, frame);
      if commonRect.Valid() {
        list.layers[idx[1]] := list.layers[idx[1]].(frame := DeductRect(frame, commonRect));
      }
      assert list.layers[..] == ls[idx[1] := ls[idx[1]].(frame := Overlap(ls, idx, 1))];
    }
  }

  /** The handles once the first k PTOR layers are patched. */
  function PatchedWhf(whf: map<int, Whf>, ls: seq<Layer>, idx: seq<nat>, renderWhf: Whf, k: nat): map<int, Whf>
    requires k <= |idx| && forall j :: 0 <= j < |idx| ==> idx[j] < |ls|
  {
    if k == 0 then whf else PatchedWhf(whf, ls, idx, renderWhf, k - 1)[ls[idx[k - 1]].handle := renderWhf]
  }

  /** What is saved of handle k: its state after the handles before it were patched. */
  ghost predicate Saved(saved: seq<Whf>, whf: map<int, Whf>, ls: seq<Layer>, idx: seq<nat>, renderWhf: Whf)
    requires forall j :: 0 <= j < |idx| ==> idx[j] < |ls|
  {
    |saved| == |idx| && forall k :: 0 <= k < |idx| ==>
      ls[idx[k]].handle in PatchedWhf(whf, ls, idx, renderWhf, k) &&
      saved[k] == PatchedWhf(whf, ls, idx, renderWhf, k)[ls[idx[k]].handle]
  }

  /** A layer that is to be patched has a buffer: the size in its handle is overwritten. */
  ghost predicate BuffersPatched(ls: seq<Layer>, idx: seq<nat>) {
    forall k :: 0 <= k < |idx| && idx[k] < |ls| ==> !ls[idx[k]].colorFill
  }

  ghost predicate HandlesKnown(whf: map<int, Whf>, ls: seq<Layer>, idx: seq<nat>) {
    forall k :: 0 <= k < |idx| && idx[k] < |ls| ==> ls[idx[k]].handle in whf
  }

  /** Patches for a list whose PTOR frames are already cut back. */
  method PatchBoth(list: HwcList, idx: seq<nat>, ghost ls: seq<Layer>, renderWhf: Whf) returns (saved: seq<Whf>)
    requires list.Valid() && Chosen(ls, idx) && list.layers[..] == Uncommon(ls, idx)
    requires BuffersPatched(ls, idx)
    modifies list, list.layers
    ensures list.Valid() && list.layers[..] == Patched(ls, idx)
    ensures Saved(saved, old(list.whf), ls, idx, renderWhf)
    ensures list.whf == PatchedWhf(old(list.whf), ls, idx, renderWhf, |idx|)
  {
    var overlap0 := list.layers[idx[0]].frame;
    var slot0 := Rect(0, 0, overlap0.Width(), overlap0.Height());
    assert overlap0 == Overlap(ls, idx, 0) && slot0 == Slot(ls, idx, 0);
    if |idx| == 1 {
      var s := PatchLayer(list, idx[0], overlap0, slot0, renderWhf);
      saved := [s];
    } else {
      var overlap1 := list.layers[idx[1]].frame;
      var top := Align32(overlap0.Height());
      var slot1 := Rect(0, top, overlap1.Width(), top + overlap1.Height());
      assert overlap1 == Overlap(ls, idx, 1) && slot1 == Slot(ls, idx, 1);
      UncommonStays(ls, idx);
      var s0 := PatchLayer(list, idx[0], overlap0, slot0, renderWhf);
      assert list.layers[idx[1]] == ApplyPatch(Uncommon(ls, idx), idx[0], overlap0, slot0)[idx[1]];
      var s1 := PatchLayer(list, idx[1], overlap1, slot1, renderWhf);
      saved := [s0, s1];
      TrimKeepsHandle(overlap0, Uncommon(ls, idx)[idx[1]]);
    }
  }

  lemma TrimKeepsHandle(overlap: Rect, l: Layer)
    ensures TrimUnder(overlap, l).handle == l.handle
  {
  }

  // ------------------------------------------------------------------ putting things back

  /** Frames and crops of ls on the layers of shown. */
  function WithGeometry(shown: seq<Layer>, ls: seq<Layer>): (r: seq<Layer>)
    requires |shown| == |ls|
    ensures |r| == |ls| && forall i :: 0 <= i < |ls| ==> r[i] == shown[i].(frame := ls[i].frame, cropf := ToFRect(ls[i].Crop()))
  {
    seq(|ls|, i requires 0 <= i < |ls| => shown[i].(frame := ls[i].frame, cropf := ToFRect(ls[i].Crop())))
  }

  function WithMode(l: Layer, mode: Layer): Layer {
    l.(blending := mode.blending, planeAlpha := mode.planeAlpha, transform := mode.transform)
  }

  /** Drawing modes of the first k PTOR layers put back. */
  function WithModes(r: seq<Layer>, idx: seq<nat>, ls: seq<Layer>, k: nat): (r': seq<Layer>)
    requires k <= |idx| && |r| == |ls| && forall j :: 0 <= j < |idx| ==> idx[j] < |ls|
    ensures |r'| == |ls|
  {
    if k == 0 then r
    else
      var r0 := WithModes(r, idx, ls, k - 1);
      r0[idx[k - 1] := WithMode(r0[idx[k - 1]], ls[idx[k - 1]])]
  }

  function SavedWhf(whf: map<int, Whf>, ls: seq<Layer>, idx: seq<nat>, saved: seq<Whf>, k: nat): map<int, Whf>
    requires k <= |idx| == |saved| && forall j :: 0 <= j < |idx| ==> idx[j] < |ls|
  {
    if k == 0 then whf else SavedWhf(whf, ls, idx, saved, k - 1)[ls[idx[k - 1]].handle := saved[k - 1]]
  }

  method RestoreGeometry(list: HwcList, ghost ls: seq<Layer>, frames: seq<Rect>, crops: seq<Rect>)
    requires |frames| == |crops| == |ls| == list.layers.Length
    requires forall i :: 0 <= i < |ls| ==> frames[i] == ls[i].frame && crops[i] == ls[i].Crop()
    modifies list.layers
    ensures list.layers[..] == WithGeometry(old(list.layers[..]), ls)
  {
    ghost var shown := list.layers[..];
    for i := 0 to list.layers.Length
      modifies list.layers
      invariant forall k :: 0 <= k < i ==> list.layers[k] == WithGeometry(shown, ls)[k]
      invariant forall k :: i <= k < list.layers.Length ==> list.layers[k] == shown[k]
    {
      list.layers[i] := list.layers[i].(frame := frames[i], cropf := ToFRect(crops[i]));
    }
  }

  method RestoreModes(list: HwcList, idx: seq<nat>, ghost ls: seq<Layer>, modes: seq<Layer>, saved: seq<Whf>)
    requires |ls| == list.layers.Length && forall j :: 0 <= j < |idx| ==> idx[j] < |ls|
    requires |modes| == |saved| == |idx| && forall j :: 0 <= j < |idx| ==> WithMode(modes[j], ls[idx[j]]) == modes[j]
    requires forall i :: 0 <= i < |ls| ==> list.layers[i].handle == ls[i].handle
    modifies list, list.layers
    ensures list.layers[..] == WithModes(old(list.layers[..]), idx, ls, |idx|)
    ensures list.whf == SavedWhf(old(list.whf), ls, idx, saved, |idx|)
  {
    for k := 0 to |idx|
      modifies list, list.layers
      invariant list.layers[..] == WithModes(old(list.layers[..]), idx, ls, k)
      invariant list.whf == SavedWhf(old(list.whf), ls, idx, saved, k)
      invariant forall i :: 0 <= i < |ls| ==> list.layers[i].handle == ls[i].handle
    {
      ghost var before := list.layers[..];
      var layer := list.layers[idx[k]];
      list.whf := list.whf[layer.handle := saved[k]];
      list.layers[idx[k]] := WithMode(layer, modes[k]);
      assert list.layers[..] == before[idx[k] := WithMode(before[idx[k]], ls[idx[k]])];
    }
  }

  ghost predicate SameMode(l: Layer, l0: Layer) {
    l.blending == l0.blending && l.planeAlpha == l0.planeAlpha && l.transform == l0.transform
  }

  ghost predicate SameBuffer(l: Layer, l0: Layer) {
    l.handle == l0.handle && l.colorFill == l0.colorFill
  }

  lemma ApplyPatchKeeps(ls: seq<Layer>, index: nat, overlap: Rect, slot: Rect, i: nat)
    requires index < |ls| && i < |ls|
    ensures SameBuffer(ApplyPatch(ls, index, overlap, slot)[i], ls[i])
    ensures i != index ==> SameMode(ApplyPatch(ls, index, overlap, slot)[i], ls[i])
  {
  }

  lemma PatchedKeeps(ls: seq<Layer>, idx: seq<nat>, i: nat)
    requires Indexed(|ls|, idx) && i < |ls|
    ensures SameBuffer(Patched(ls, idx)[i], ls[i])
    ensures i !in idx ==> SameMode(Patched(ls, idx)[i], ls[i])
  {
    var uncommon := Uncommon(ls, idx);
    assert SameBuffer(uncommon[i], ls[i]) && SameMode(uncommon[i], ls[i]);
    ApplyPatchKeeps(uncommon, idx[0], Overlap(ls, idx, 0), Slot(ls, idx, 0), i);
    if |idx| == 2 {
      var first := ApplyPatch(uncommon, idx[0], Overlap(ls, idx, 0), Slot(ls, idx, 0));
      ApplyPatchKeeps(first, idx[1], Overlap(ls, idx, 1), Slot(ls, idx, 1), i);
    }
  }

  /** Layer i once its geometry and, for a PTOR layer, its modes are written back. */
  lemma RestoredAt(shown: seq<Layer>, idx: seq<nat>, ls: seq<Layer>, i: nat)
    requires Indexed(|ls|, idx) && i < |ls| == |shown|
    requires SameBuffer(shown[i], ls[i]) && (i !in idx ==> SameMode(shown[i], ls[i]))
    ensures WithModes(WithGeometry(shown, ls), idx, ls, |idx|)[i] == PutBack(ls[i])
  {
    ModesAt(WithGeometry(shown, ls), idx, ls, i);
  }

  /** Geometry, then modes: together they undo the patching, up to integerized crops. */
  lemma RestoreUndoesPatch(ls: seq<Layer>, idx: seq<nat>)
    requires Chosen(ls, idx)
    ensures WithModes(WithGeometry(Patched(ls, idx), ls), idx, ls, |idx|) == PutBackAll(ls)
  {
    var shown := Patched(ls, idx);
    forall i | 0 <= i < |ls| ensures WithModes(WithGeometry(shown, ls), idx, ls, |idx|)[i] == PutBack(ls[i]) {
      PatchedKeeps(ls, idx, i);
      RestoredAt(shown, idx, ls, i);
    }
  }

  lemma ModesAt(g: seq<Layer>, idx: seq<nat>, ls: seq<Layer>, i: nat)
    requires Indexed(|ls|, idx) && i < |ls| == |g|
    ensures WithModes(g, idx, ls, |idx|)[i] == if i in idx then WithMode(g[i], ls[i]) else g[i]
  {
    assert WithModes(g, idx, ls, 1) == g[idx[0] := WithMode(g[idx[0]], ls[idx[0]])];
  }

  /** Saving and putting back the handles loses something only if both patches share one. */
  lemma HandlesAfterRestore(whf: map<int, Whf>, ls: seq<Layer>, idx: seq<nat>, saved: seq<Whf>, renderWhf: Whf)
    requires Chosen(ls, idx) && Saved(saved, whf, ls, idx, renderWhf)
    requires HandlesKnown(whf, ls, idx)
    ensures SavedWhf(PatchedWhf(whf, ls, idx, renderWhf, |idx|), ls, idx, saved, |idx|) == RestoredWhf(whf, ls, idx, renderWhf)
  {
    var h0 := ls[idx[0]].handle;
    assert PatchedWhf(whf, ls, idx, renderWhf, 0) == whf;
    assert PatchedWhf(whf, ls, idx, renderWhf, 1) == whf[h0 := renderWhf];
    var p := PatchedWhf(whf, ls, idx, renderWhf, |idx|);
    assert SavedWhf(p, ls, idx, saved, 1) == p[h0 := saved[0]];
    if |idx| == 2 {
      var h1 := ls[idx[1]].handle;
      assert p == whf[h0 := renderWhf][h1 := renderWhf];
      assert SavedWhf(p, ls, idx, saved, 2) == p[h0 := saved[0]][h1 := saved[1]];
    }
  }

  lemma {:induction false} PutBackCopied(ls: seq<Layer>, k: nat, tex: Sample -> int, p: Point)
    requires k <= |ls|
    ensures Copied(PutBackAll(ls)[..k], tex, p) == Copied(ls[..k], tex, p)
  {
    if k > 0 {
      PutBackCopied(ls, k - 1, tex, p);
      PutBackLooks(ls[k - 1]);
      CopiedStep(ls, k - 1, tex, p);
      CopiedStep(PutBackAll(ls), k - 1, tex, p);
    }
  }

  lemma PutBackSlot(canvas: Canvas, ls: seq<Layer>, idx: seq<nat>, j: nat, p: Point)
    requires Indexed(|ls|, idx) && j < |idx|
    ensures Overlap(PutBackAll(ls), idx, j) == Overlap(ls, idx, j)
    ensures Held(canvas, PutBackAll(ls), idx, j, p) == Held(canvas, ls, idx, j, p)
  {
    assert PutBackAll(ls)[idx[0]].frame == ls[idx[0]].frame;
  }

  /** What is drawn from the restored list is what would be drawn from the list. */
  lemma PutBackDrawn(canvas: Canvas, ls: seq<Layer>, idx: seq<nat>, tex: Sample -> int)
    requires Indexed(|ls|, idx) && Drawn(canvas, PutBackAll(ls), idx, tex)
    ensures Drawn(canvas, ls, idx, tex)
  {
    forall j | 0 <= j < |idx| ensures SlotHolds(canvas, ls, idx, j, idx[j] + 1, tex) {
      assert SlotHolds(canvas, PutBackAll(ls), idx, j, idx[j] + 1, tex);
      PutBackSlotHolds(canvas, ls, idx, j, idx[j] + 1, tex);
    }
  }

  lemma PutBackSlotHolds(canvas: Canvas, ls: seq<Layer>, idx: seq<nat>, j: nat, k: nat, tex: Sample -> int)
    requires Indexed(|ls|, idx) && j < |idx| && k <= |ls| && SlotHolds(canvas, PutBackAll(ls), idx, j, k, tex)
    ensures SlotHolds(canvas, ls, idx, j, k, tex)
  {
    forall p: Point | Overlap(ls, idx, j).Has(p) ensures Held(canvas, ls, idx, j, p) == Copied(ls[..k], tex, p) {
      PutBackSlot(canvas, ls, idx, j, p);
      PutBackCopied(ls, k, tex, p);
    }
  }

  lemma PutBackChosen(ls: seq<Layer>, idx: seq<nat>)
    requires Chosen(ls, idx)
    ensures Chosen(PutBackAll(ls), idx)
  {
    var back := PutBackAll(ls);
    forall k | 0 <= k < |idx| ensures OverlapRemovable(back, idx[k]) {
      var i := idx[k];
      assert OverlapRemovable(ls, i);
      forall j | 0 <= j < i ensures Meets(back[i].frame, back[j]) == Meets(ls[i].frame, ls[j]) {
      }
      var j :| 0 <= j < i && Meets(ls[i].frame, ls[j]);
      assert Meets(back[i].frame, back[j]);
      forall j | 0 <= j < i && Meets(back[i].frame, back[j]) ensures !back[j].Has90Transform() && !back[j].NeedsScaling() {
        PutBackLooks(ls[j]);
        assert Meets(ls[i].frame, ls[j]);
      }
    }
  }

  // ------------------------------------------------------------------ the strategy

  /** The layers that PTOR takes from a list. */
  function PtorLayers(ls: seq<Layer>, view: Rect, area: int): seq<nat> {
    Choose(ls, view, area, |ls|, MAX_PTOR_LAYERS, 0)
  }

  /** Every layer that shows something goes to MDP, the others are dropped. */
  ghost predicate PtorMarks(f: FrameInfo, shown: seq<Layer>)
    requires f.Valid()
    reads f, f.isFBComposed, f.drop
  {
    && |shown| == f.layerCount && Accounted(f) && f.fbCount == 0 && f.fbZ == -1
    && forall i :: 0 <= i < f.layerCount ==> f.Fb()[i] == f.Drops()[i] == !shown[i].frame.Valid()
  }

  /** What the frame-level checks look at: the feature itself, the stages that are free, the kinds
      of layers in the frame, and which layers MDP supports. */
  datatype Gate = Gate(feature: bool, stages: int, skip: bool, yuv: bool, secure: bool, supported: seq<bool>, yuvOnSecondary: bool)
  {
    predicate Admits(n: nat, dropCount: int)
      requires |supported| == n
    {
      && feature && n <= stages && !skip && !yuv && dropCount == 0 && !secure && !yuvOnSecondary
      && forall i :: 0 <= i < n ==> supported[i]
    }
  }

  method CheckFrame(f: FrameInfo, gate: Gate) returns (ok: bool)
    requires |gate.supported| == f.layerCount
    ensures ok == gate.Admits(f.layerCount, f.dropCount)
  {
    if !gate.feature {
      return false;
    }
    if f.layerCount > gate.stages || gate.skip || gate.yuv || f.dropCount != 0 || gate.secure {
      return false;
    }
    for i := 0 to f.layerCount
      invariant forall k :: 0 <= k < i ==> gate.supported[k]
    {
      if !gate.supported[i] {
        return false;
      }
    }
    ok := !gate.yuvOnSecondary;
  }

  /** PTOR gets as far as patching the list. */
  ghost predicate Patches(ls: seq<Layer>, view: Rect, area: int, gate: Gate, dropCount: int, prepared: bool)
    requires |gate.supported| == |ls|
  {
    gate.Admits(|ls|, dropCount) && PtorLayers(ls, view, area) != [] && prepared
  }

  /** fullMDPCompWithPTOR.  `prepared` says that there are render buffers, `accepted` what
      postHeuristicsHandling makes of the list `shown`. */
  method FullMdpCompWithPtor(list: HwcList, f: FrameInfo, view: Rect, area: int, gate: Gate, prepared: bool,
                             renderWhf: Whf, accepted: bool)
    returns (ok: bool, idx: seq<nat>, ghost shown: seq<Layer>)
    requires list.Valid() && f.Valid() && f.layerCount == list.layers.Length == |gate.supported|
    requires f.Fb() == AllTrue(f.layerCount) && DropsCounted(f)
    requires gate.Admits(f.layerCount, f.dropCount) ==> BuffersPatched(list.layers[..], PtorLayers(list.layers[..], view, area))
    modifies list, list.layers, f, f.isFBComposed, f.layerToMDP, f.listIndex, f.zOrder, f.drop
    ensures f.Valid() && f.layerCount == old(f.layerCount)
    ensures ok <==> Patches(old(list.layers[..]), view, area, gate, old(f.dropCount), prepared) && accepted
    ensures ok ==>
      && idx == PtorLayers(old(list.layers[..]), view, area) && Chosen(old(list.layers[..]), idx)
      && shown == Patched(old(list.layers[..]), idx) && PtorMarks(f, shown)
    ensures
      var ls, chosen := old(list.layers[..]), PtorLayers(old(list.layers[..]), view, area);
      if Patches(ls, view, area, gate, old(f.dropCount), prepared) then
        list.layers[..] == PutBackAll(ls) && list.whf == RestoredWhf(old(list.whf), ls, chosen, renderWhf)
      else
        list.layers[..] == ls && list.whf == old(list.whf)
    ensures OptimizeRects.Integral(old(list.layers[..])) ==> list.layers[..] == old(list.layers[..])
  {
    ok, idx, shown := false, [], list.layers[..];
    ghost var ls := list.layers[..];
    var admitted := CheckFrame(f, gate);
    if !admitted {
      return;
    }
    CountNone(f.Drops());
    idx := ChooseLayers(list.layers[..], view, area);
    if idx == [] {
      return;
    }
    ChoiceIsChosen(ls, view, area);
    if !prepared {
      CutAndGiveUp(list, idx);
      return;
    }
    ok, shown := PatchMarkRestore(list, f, idx, renderWhf, accepted);
    if OptimizeRects.Integral(ls) {
      IntegralRestored(ls);
    }
  }

  /** No render buffers: the frame that was cut back already is put back. */
  method CutAndGiveUp(list: HwcList, idx: seq<nat>)
    requires list.Valid() && Chosen(list.layers[..], idx)
    modifies list.layers
    ensures list.layers[..] == old(list.layers[..])
  {
    ghost var ls := list.layers[..];
    var second := if |idx| == 2 then list.layers[idx[1]].frame else ZERO_RECT;
    CutCommon(list, idx);
    if |idx| == 2 {
      list.layers[idx[1]] := list.layers[idx[1]].(frame := second);
    }
    assert list.layers[..] == ls;
  }

  /** From the cut-back list to the restored one. */
  method PatchMarkRestore(list: HwcList, f: FrameInfo, idx: seq<nat>, renderWhf: Whf, accepted: bool)
    returns (ok: bool, ghost shown: seq<Layer>)
    requires list.Valid() && Chosen(list.layers[..], idx)
    requires BuffersPatched(list.layers[..], idx)
    requires f.Valid() && f.layerCount == list.layers.Length && f.Fb() == AllTrue(f.layerCount)
    requires forall i :: 0 <= i < f.layerCount ==> !f.drop[i]
    modifies list, list.layers, f, f.isFBComposed, f.layerToMDP, f.listIndex, f.zOrder, f.drop
    ensures f.Valid() && f.layerCount == old(f.layerCount) && ok == accepted
    ensures shown == Patched(old(list.layers[..]), idx)
    ensures ok ==> PtorMarks(f, shown)
    ensures list.layers[..] == PutBackAll(old(list.layers[..]))
    ensures list.whf == RestoredWhf(old(list.whf), old(list.layers[..]), idx, renderWhf)
  {
    ghost var ls, whf := list.layers[..], list.whf;
    assert HandlesKnown(whf, ls, idx) by {
      assert forall i :: 0 <= i < |ls| ==> ls[i] == list.layers[i];
    }
    var frames, crops := SaveGeometry(list);
    CutCommon(list, idx);
    var modes := SavedModes(list, idx, ls);
    var saved := PatchBoth(list, idx, ls, renderWhf);
    shown := list.layers[..];
    MarkFrame(list, f, accepted);
    RestoreList(list, idx, ls, frames, crops, modes, saved, whf, renderWhf);
    ok := accepted;
  }

  method SaveGeometry(list: HwcList) returns (frames: seq<Rect>, crops: seq<Rect>)
    ensures |frames| == |crops| == list.layers.Length
    ensures forall i :: 0 <= i < list.layers.Length ==>
      frames[i] == list.layers[..][i].frame && crops[i] == list.layers[..][i].Crop()
  {
    frames := seq(list.layers.Length, i requires 0 <= i < list.layers.Length reads list.layers => list.layers[i].frame);
    crops := seq(list.layers.Length, i requires 0 <= i < list.layers.Length reads list.layers => list.layers[i].Crop());
  }

  /** Marks for the patched list, taken back when the hardware does not accept it. */
  method MarkFrame(list: HwcList, f: FrameInfo, accepted: bool)
    requires f.Valid() && f.layerCount == list.layers.Length && f.Fb() == AllTrue(f.layerCount)
    requires forall i :: 0 <= i < f.layerCount ==> !f.drop[i]
    modifies f, f.isFBComposed, f.layerToMDP, f.listIndex, f.zOrder, f.drop
    ensures f.Valid() && f.layerCount == old(f.layerCount)
    ensures accepted ==> PtorMarks(f, list.layers[..])
  {
    MarkShown(f, list.layers[..]);
    if !accepted {
      ResetFrame(f);
    }
  }

  /** The PTOR layers as they are before they are patched. */
  method SavedModes(list: HwcList, idx: seq<nat>, ghost ls: seq<Layer>) returns (modes: seq<Layer>)
    requires Chosen(ls, idx) && list.layers[..] == Uncommon(ls, idx)
    ensures |modes| == |idx| && forall k :: 0 <= k < |idx| ==> WithMode(modes[k], ls[idx[k]]) == modes[k]
  {
    modes := [list.layers[idx[0]]];
    if |idx| == 2 {
      modes := modes + [list.layers[idx[1]]];
    }
  }

  method RestoreList(list: HwcList, idx: seq<nat>, ghost ls: seq<Layer>, frames: seq<Rect>, crops: seq<Rect>,
                     modes: seq<Layer>, saved: seq<Whf>, ghost whf: map<int, Whf>, ghost renderWhf: Whf)
    requires Chosen(ls, idx) && list.layers[..] == Patched(ls, idx)
    requires |frames| == |crops| == |ls| && forall i :: 0 <= i < |ls| ==> frames[i] == ls[i].frame && crops[i] == ls[i].Crop()
    requires |modes| == |idx| && forall k :: 0 <= k < |idx| ==> WithMode(modes[k], ls[idx[k]]) == modes[k]
    requires HandlesKnown(whf, ls, idx)
    requires Saved(saved, whf, ls, idx, renderWhf) && list.whf == PatchedWhf(whf, ls, idx, renderWhf, |idx|)
    modifies list, list.layers
    ensures list.layers[..] == PutBackAll(ls)
    ensures list.whf == RestoredWhf(whf, ls, idx, renderWhf)
  {
    forall i | 0 <= i < |ls| ensures list.layers[i].handle == ls[i].handle {
      PatchedKeeps(ls, idx, i);
      assert list.layers[i] == Patched(ls, idx)[i];
    }
    RestoreGeometry(list, ls, frames, crops);
    RestoreModes(list, idx, ls, modes, saved);
    RestoreUndoesPatch(ls, idx);
    HandlesAfterRestore(whf, ls, idx, saved, renderWhf);
  }

  /** What the screen shows of a PTOR frame: the list as it came in, except where the colour of a
      layer is missing; and there the buffer contents TELLTALE give it away. */
  ghost predicate ShowsList(shown: seq<Layer>, ls: seq<Layer>, idx: seq<nat>, canvas: Canvas, tex: Sample -> int)
    requires Indexed(|ls|, idx)
  {
    forall p: Point ::
      && (!ColorLost(ls, idx, p) ==> Shown(shown, idx, canvas, tex, p) == Composite(ls, tex, p))
      && (ColorLost(ls, idx, p) && tex == TELLTALE ==> Shown(shown, idx, canvas, tex, p) != Composite(ls, tex, p))
  }

  lemma PatchedShowsList(ls: seq<Layer>, idx: seq<nat>, canvas: Canvas, tex: Sample -> int)
    requires Chosen(ls, idx) && Drawn(canvas, PutBackAll(ls), idx, tex)
    ensures ShowsList(Patched(ls, idx), ls, idx, canvas, tex)
  {
    PutBackDrawn(canvas, ls, idx, tex);
    forall p: Point
      ensures !ColorLost(ls, idx, p) ==> Shown(Patched(ls, idx), idx, canvas, tex, p) == Composite(ls, tex, p)
      ensures ColorLost(ls, idx, p) && tex == TELLTALE ==> Shown(Patched(ls, idx), idx, canvas, tex, p) != Composite(ls, tex, p)
    {
      DrawnShowsList(ls, idx, canvas, tex, p);
    }
  }

  /** A PTOR frame from end to end: the hardware is set up with the patched list, the list is put
      back, the render buffer is drawn from it, and the hardware shows the two together. */
  method PtorFrame(list: HwcList, f: FrameInfo, view: Rect, area: int, gate: Gate, prepared: bool, renderWhf: Whf, accepted: bool,
                   tex: Sample -> int)
    returns (ok: bool, idx: seq<nat>, ghost shown: seq<Layer>, canvas: Canvas)
    requires list.Valid() && f.Valid() && f.layerCount == list.layers.Length == |gate.supported|
    requires f.Fb() == AllTrue(f.layerCount) && DropsCounted(f)
    requires gate.Admits(f.layerCount, f.dropCount) ==> BuffersPatched(list.layers[..], PtorLayers(list.layers[..], view, area))
    modifies list, list.layers, f, f.isFBComposed, f.layerToMDP, f.listIndex, f.zOrder, f.drop
    ensures ok <==> Patches(old(list.layers[..]), view, area, gate, old(f.dropCount), prepared) && accepted
    ensures ok ==>
      && f.Valid() && PtorMarks(f, shown) && idx == PtorLayers(old(list.layers[..]), view, area)
      && Indexed(|old(list.layers[..])|, idx) && ShowsList(shown, old(list.layers[..]), idx, canvas, tex)
  {
    ghost var ls := list.layers[..];
    canvas := (q: Point) => Background;
    ok, idx, shown := FullMdpCompWithPtor(list, f, view, area, gate, prepared, renderWhf, accepted);
    if ok {
      PutBackChosen(ls, idx);
      var slots := Slots(list.layers[..], idx);
      canvas := DrawOverlap(list.layers[..], idx, slots, tex);
      PatchedShowsList(ls, idx, canvas, tex);
    }
  }

  function Slots(ls: seq<Layer>, idx: seq<nat>): (slots: seq<Rect>)
    requires |idx| <= 2 && forall k :: 0 <= k < |idx| ==> idx[k] < |ls|
    ensures |slots| == |idx| && forall j :: 0 <= j < |idx| ==> slots[j] == Slot(ls, idx, j)
  {
    seq(|idx|, j requires 0 <= j < |idx| => Slot(ls, idx, j))
  }

  // ------------------------------------------------------------------ a frame that loses a colour

  const VIEW := Rect(0, 0, 100, 100)
  const BAR := Rect(0, 0, 100, 10)

  /** A colour layer over the whole screen, and a translucent bar along its upper edge. */
  function BarOverColor(): (ls: seq<Layer>)
    ensures |ls| == 2
  {
    [Layer(0, VIEW, ToFRect(VIEW), NO_TRANSFORM, None, 0xFF, true), Layer(1, BAR, ToFRect(BAR), NO_TRANSFORM, Premult, 0xFF, false)]
  }

  lemma BarLosesColor(p: Point)
    ensures OptimizeRects.Optimized(BarOverColor(), 1) == BarOverColor()
    ensures PtorLayers(BarOverColor(), VIEW, 100 * 100) == [1] && Chosen(BarOverColor(), [1])
    ensures ColorLost(BarOverColor(), [1], p) <==> BAR.Has(p)
  {
    var ls := BarOverColor();
    assert OptimizeRects.Pass(ls, 1) == ls;
    assert Meets(ls[1].frame, ls[0]);
    assert Eligible(ls, VIEW, 100 * 100, 1, 0);
    assert !OverlapRemovable(ls, 0);
    assert Choose(ls, VIEW, 100 * 100, 1, 1, 1000) == [];
    if BAR.Has(p) {
      assert ls[..2][0].colorFill && !BufferHides(ls[..2], 1, p);
    }
  }

  // ------------------------------------------------------------------ a frame that loses a handle

  /** Bars along two edges that show the same buffer. */
  function TwinBars(): (ls: seq<Layer>)
    ensures |ls| == 3
  {
    var low := Rect(0, 90, 100, 100);
    [Layer(0, VIEW, ToFRect(VIEW), NO_TRANSFORM, None, 0xFF, false), Layer(1, BAR, ToFRect(BAR), NO_TRANSFORM, Premult, 0xFF, false),
     Layer(1, low, ToFRect(BAR), NO_TRANSFORM, Premult, 0xFF, false)]
  }

  /** PTOR takes both, and their handle keeps the size of the render buffer. */
  lemma TwinsLoseHandle(whf: map<int, Whf>, renderWhf: Whf)
    requires 1 in whf && whf[1] != renderWhf
    ensures PtorLayers(TwinBars(), VIEW, 100 * 100) == [2, 1]
    ensures RestoredWhf(whf, TwinBars(), [2, 1], renderWhf)[1] == renderWhf != whf[1]
  {
    var ls := TwinBars();
    assert Meets(ls[2].frame, ls[0]) && !Meets(ls[2].frame, ls[1]) && Meets(ls[1].frame, ls[0]);
    assert Eligible(ls, VIEW, 100 * 100, 2, 0);
    assert Eligible(ls, VIEW, 100 * 100, 1, 1000);
    assert Choose(ls, VIEW, 100 * 100, 2, 1, 1000) == [1] + Choose(ls, VIEW, 100 * 100, 1, 0, 2000);
  }
}

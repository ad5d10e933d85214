/** drawOverlap and drawRectUsingCopybit (hwc_copybit.cpp): filling the render buffer that the
    PTOR patches are read from. */
module PtorRender {
  import opened Rects
  import opened Layers
  import opened PtorSpec

  /** One copybit stretch: `frame` with `crop` is drawn over `dest`, which has its size. */
  function DrawRect(canvas: Canvas, l: Layer, crop: Rect, frame: Rect, dest: Rect, tex: Sample -> int): Canvas {
    (q: Point) =>
      if dest.Has(q) then
        Paint(l, Ink(tex(SampleOf(l.handle, crop, frame, l.transform, ToScreen(frame, dest, q)))), canvas(q))
      else
        canvas(q)
  }

  /** What copybit composes: a colour layer has no buffer, drawRectUsingCopybit gives up on it, and
      drawOverlap goes on with the next layer. */
  function Copied(ls: seq<Layer>, tex: Sample -> int, p: Point): Color {
    if ls == [] then
      Background
    else
      var l := ls[|ls| - 1];
      var below := Copied(ls[..|ls| - 1], tex, p);
      if l.frame.Has(p) && !l.colorFill then Paint(l, Ink(tex(SampleAt(l, p))), below) else below
  }

  lemma CopiedStep(ls: seq<Layer>, i: nat, tex: Sample -> int, p: Point)
    requires i < |ls|
    ensures Copied(ls[..i + 1], tex, p) ==
      if ls[i].frame.Has(p) && !ls[i].colorFill then Paint(ls[i], Ink(tex(SampleAt(ls[i], p))), Copied(ls[..i], tex, p))
      else Copied(ls[..i], tex, p)
  {
    assert ls[..i + 1][..i] == ls[..i];
  }

  /** A colour layer shows at p: it covers p, and no buffer above it hides it. */
  ghost predicate ColorShows(ls: seq<Layer>, p: Point) {
    exists i :: 0 <= i < |ls| && ls[i].colorFill && ls[i].frame.Has(p) && !BufferHides(ls, i + 1, p)
  }

  ghost predicate BufferHides(ls: seq<Layer>, k: nat, p: Point) {
    exists i :: k <= i < |ls| && !ls[i].colorFill && ls[i].frame.Has(p) && ls[i].Opaque()
  }

  lemma ColorShowsStep(ls: seq<Layer>, p: Point)
    requires ls != []
    ensures
      var l := ls[|ls| - 1];
      ColorShows(ls, p) <==>
        if l.frame.Has(p) && l.colorFill then true
        else if l.frame.Has(p) && l.Opaque() then false
        else ColorShows(ls[..|ls| - 1], p)
  {
    var n := |ls| - 1;
    assert forall i :: 0 <= i < n ==> ls[..n][i] == ls[i];
    forall i | 0 <= i <= n
      ensures BufferHides(ls, i, p) <==> BufferHides(ls[..n], i, p) || (!ls[n].colorFill && ls[n].frame.Has(p) && ls[n].Opaque())
    {
    }
    assert !BufferHides(ls, n + 1, p);
    if ColorShows(ls[..n], p) && !(ls[n].frame.Has(p) && ls[n].Opaque()) {
      var i :| 0 <= i < n && ls[..n][i].colorFill && ls[..n][i].frame.Has(p) && !BufferHides(ls[..n], i + 1, p);
      assert ls[i].colorFill && !BufferHides(ls, i + 1, p);
    }
  }

  /** Where no colour layer shows, nothing is lost. */
  lemma {:induction false} CopiedWhole(ls: seq<Layer>, tex: Sample -> int, p: Point)
    requires !ColorShows(ls, p)
    ensures Copied(ls, tex, p) == Composite(ls, tex, p)
  {
    if ls != [] {
      ColorShowsStep(ls, p);
      var l := ls[|ls| - 1];
      if !(l.frame.Has(p) && l.Opaque()) {
        CopiedWhole(ls[..|ls| - 1], tex, p);
      }
    }
  }

  /** Buffer contents that give a colour layer away. */
  const TELLTALE: Sample -> int := (s: Sample) => if s.Solid? then 1 else 0

  lemma {:induction false} CopiedInk(ls: seq<Layer>, p: Point)
    ensures
      var c := Copied(ls, TELLTALE, p);
      c == Background || c == Ink(0) || (c.Mix? && c.top == Ink(0))
  {
    if ls != [] {
      CopiedInk(ls[..|ls| - 1], p);
    }
  }

  /** Where one shows, what is copied is not the composite. */
  lemma {:induction false} CopiedLoses(ls: seq<Layer>, p: Point)
    requires ColorShows(ls, p)
    ensures Copied(ls, TELLTALE, p) != Composite(ls, TELLTALE, p)
  {
    ColorShowsStep(ls, p);
    var l := ls[|ls| - 1];
    if l.frame.Has(p) && l.colorFill {
      CopiedInk(ls[..|ls| - 1], p);
    } else {
      CopiedLoses(ls[..|ls| - 1], p);
    }
  }

  /** Every slot holds what copybit makes of the layers up to its PTOR layer. */
  ghost predicate Drawn(canvas: Canvas, ls: seq<Layer>, idx: seq<nat>, tex: Sample -> int)
    requires Indexed(|ls|, idx)
  {
    forall j :: 0 <= j < |idx| ==> SlotHolds(canvas, ls, idx, j, idx[j] + 1, tex)
  }

  /** Slot j holds what is copied of the first k layers. */
  ghost predicate SlotHolds(canvas: Canvas, ls: seq<Layer>, idx: seq<nat>, j: nat, k: nat, tex: Sample -> int)
    requires Indexed(|ls|, idx) && j < |idx| && k <= |ls|
  {
    forall p: Point :: Overlap(ls, idx, j).Has(p) ==> Held(canvas, ls, idx, j, p) == Copied(ls[..k], tex, p)
  }

  /** The part of a layer inside o shows what the layer shows, if it is the whole layer or the
      layer is one to one. */
  lemma PartSample(l: Layer, o: Rect, p: Point)
    requires GetIntersection(l.frame, o).Has(p)
    requires GetIntersection(l.frame, o) == l.frame || Exact(l.Crop(), l.frame, l.transform)
    ensures
      var irect := GetIntersection(l.frame, o);
      SampleOf(l.handle, ClippedCrop(l.Crop(), l.frame, irect, l.transform), irect, l.transform, p) ==
      SampleOf(l.handle, l.Crop(), l.frame, l.transform, p)
  {
    var irect := GetIntersection(l.frame, o);
    if irect == l.frame {
      ClippedCropNone(l.Crop(), l.frame, l.transform);
    } else {
      ClippedCropExact(l.Crop(), l.frame, irect, l.transform);
    }
  }

  /** What is drawn for a pixel is what the layer shows there. */
  lemma DrawnSample(ls: seq<Layer>, idx: seq<nat>, j: nat, i: nat, p: Point)
    requires Chosen(ls, idx) && j < |idx| && i <= idx[j] && !ls[i].colorFill
    requires GetIntersection(ls[i].frame, Overlap(ls, idx, j)).Has(p)
    ensures
      var l := ls[i];
      var irect := GetIntersection(l.frame, Overlap(ls, idx, j));
      SampleOf(l.handle, ClippedCrop(l.Crop(), l.frame, irect, l.transform), irect, l.transform, p) == SampleAt(l, p)
  {
    PartIsExact(ls, idx, j, i);
    PartSample(ls[i], Overlap(ls, idx, j), p);
  }

  lemma PartIsExact(ls: seq<Layer>, idx: seq<nat>, j: nat, i: nat)
    requires Chosen(ls, idx) && j < |idx| && i <= idx[j] && !ls[i].colorFill
    requires Meets(ls[i].frame, ls[idx[j]].(frame := Overlap(ls, idx, j)))
    ensures
      var l := ls[i];
      GetIntersection(l.frame, Overlap(ls, idx, j)) == l.frame || Exact(l.Crop(), l.frame, l.transform)
  {
    var l, o := ls[i], Overlap(ls, idx, j);
    OverlapShape(ls, idx, j);
    DeductSymmetric(l.frame, o);
    if i < idx[j] {
      BelowIsExact(ls, idx, j, i);
    } else {
      WholeFrame(l.frame, o);
    }
  }

  lemma WholeFrame(frame: Rect, o: Rect)
    requires frame.Valid() && o.Within(frame)
    ensures o == frame ==> GetIntersection(frame, o) == frame
  {
  }

  /** Drawing layer i into slot j brings the slot up to date. */
  lemma DrawStep(canvas: Canvas, ls: seq<Layer>, idx: seq<nat>, j: nat, i: nat, tex: Sample -> int, dest: Rect)
    requires Chosen(ls, idx) && j < |idx| && i <= idx[j] && !ls[i].colorFill
    requires SlotHolds(canvas, ls, idx, j, i, tex)
    requires
      var irect := GetIntersection(ls[i].frame, Overlap(ls, idx, j));
      irect.Valid() && dest == Shifted(irect, Overlap(ls, idx, j), Slot(ls, idx, j))
    ensures
      var irect := GetIntersection(ls[i].frame, Overlap(ls, idx, j));
      SlotHolds(DrawRect(canvas, ls[i], ClippedCrop(ls[i].Crop(), ls[i].frame, irect, ls[i].transform), irect, dest, tex),
                ls, idx, j, i + 1, tex)
  {
    var l, o, s := ls[i], Overlap(ls, idx, j), Slot(ls, idx, j);
    var irect := GetIntersection(l.frame, o);
    var crop := ClippedCrop(l.Crop(), l.frame, irect, l.transform);
    var canvas' := DrawRect(canvas, l, crop, irect, dest, tex);
    forall p: Point | o.Has(p) ensures canvas'(ToSlot(o, s, p)) == Copied(ls[..i + 1], tex, p) {
      var q := ToSlot(o, s, p);
      CopiedStep(ls, i, tex, p);
      assert dest.Has(q) <==> irect.Has(p);
      if irect.Has(p) {
        assert ToScreen(irect, dest, q) == p;
        DrawnSample(ls, idx, j, i, p);
      }
    }
  }

  /** A rectangle of the screen carried over into the render buffer. */
  function Shifted(r: Rect, overlap: Rect, slot: Rect): Rect {
    Rect(r.left - overlap.left + slot.left, r.top - overlap.top + slot.top,
         r.right - overlap.left + slot.left, r.bottom - overlap.top + slot.top)
  }

  lemma SkipStep(canvas: Canvas, ls: seq<Layer>, idx: seq<nat>, j: nat, i: nat, tex: Sample -> int)
    requires Chosen(ls, idx) && j < |idx| && i <= idx[j]
    requires SlotHolds(canvas, ls, idx, j, i, tex) && (!Meets(Overlap(ls, idx, j), ls[i]) || ls[i].colorFill)
    ensures SlotHolds(canvas, ls, idx, j, i + 1, tex)
  {
    forall p: Point | Overlap(ls, idx, j).Has(p)
      ensures Held(canvas, ls, idx, j, p) == Copied(ls[..i + 1], tex, p)
    {
      CopiedStep(ls, i, tex, p);
      if !ls[i].colorFill {
        NotMet(Overlap(ls, idx, j), ls[i].frame, p);
      }
    }
  }

  lemma NotMet(r1: Rect, r2: Rect, p: Point)
    requires !GetIntersection(r1, r2).Valid()
    ensures !(r1.Has(p) && r2.Has(p))
  {
  }

  /** Drawing into one slot leaves the other one alone. */
  lemma OtherSlotKept(canvas: Canvas, ls: seq<Layer>, idx: seq<nat>, j: nat, i: nat, other: nat, k: nat, crop: Rect,
                      tex: Sample -> int, dest: Rect)
    requires Chosen(ls, idx) && j < |idx| && other < |idx| && other != j && i < |ls| && k <= |ls|
    requires SlotHolds(canvas, ls, idx, other, k, tex)
    requires
      var irect := GetIntersection(ls[i].frame, Overlap(ls, idx, j));
      irect.Valid() && dest == Shifted(irect, Overlap(ls, idx, j), Slot(ls, idx, j))
    ensures
      var irect := GetIntersection(ls[i].frame, Overlap(ls, idx, j));
      SlotHolds(DrawRect(canvas, ls[i], crop, irect, dest, tex), ls, idx, other, k, tex)
  {
    var o, s := Overlap(ls, idx, other), Slot(ls, idx, other);
    forall p: Point | o.Has(p) ensures !dest.Has(ToSlot(o, s, p)) {
      SlotsPacked(ls, idx, ToSlot(o, s, p));
    }
  }

  /** What the other slots hold is still there. */
  ghost predicate OthersKept(canvas: Canvas, canvas': Canvas, ls: seq<Layer>, idx: seq<nat>, j: nat, tex: Sample -> int)
    requires Chosen(ls, idx)
  {
    forall k, n :: 0 <= k < |idx| && k != j && 0 <= n <= |ls| && SlotHolds(canvas, ls, idx, k, n, tex) ==>
      SlotHolds(canvas', ls, idx, k, n, tex)
  }

  /** The part of layer i that lies in patch j. */
  method DrawLayerPart(canvas: Canvas, ls: seq<Layer>, idx: seq<nat>, j: nat, i: nat, overlap: Rect, slot: Rect, tex: Sample -> int)
    returns (canvas': Canvas)
    requires Chosen(ls, idx) && j < |idx| && i <= idx[j]
    requires overlap == Overlap(ls, idx, j) && slot == Slot(ls, idx, j)
    requires SlotHolds(canvas, ls, idx, j, i, tex)
    ensures SlotHolds(canvas', ls, idx, j, i + 1, tex)
    ensures OthersKept(canvas, canvas', ls, idx, j, tex)
  {
    var layer := ls[i];
    canvas' := canvas;
    if !GetIntersection(layer.frame, overlap).Valid() {
      DeductSymmetric(layer.frame, overlap);
      SkipStep(canvas, ls, idx, j, i, tex);
      return;
    }
    DeductSymmetric(layer.frame, overlap);
    var destRect := GetIntersection(overlap, layer.frame);
    destRect := Rect(destRect.left - overlap.left + slot.left, destRect.top - overlap.top + slot.top,
                     destRect.right - overlap.left + slot.left, destRect.bottom - overlap.top + slot.top);
    if layer.colorFill {
      SkipStep(canvas, ls, idx, j, i, tex);
      return;
    }
    var iRect := GetIntersection(layer.frame, overlap);
    var crop, dispFrame := CalculateCropRects(layer.Crop(), layer.frame, iRect, layer.transform);
    canvas' := DrawRect(canvas, layer, crop, dispFrame, destRect, tex);
    DrawStep(canvas, ls, idx, j, i, tex, destRect);
    forall k, n | 0 <= k < |idx| && k != j && 0 <= n <= |ls| && SlotHolds(canvas, ls, idx, k, n, tex)
      ensures SlotHolds(canvas', ls, idx, k, n, tex)
    {
      OtherSlotKept(canvas, ls, idx, j, i, k, n, crop, tex, destRect);
    }
  }

  lemma OthersKeptTwice(a: Canvas, b: Canvas, c: Canvas, ls: seq<Layer>, idx: seq<nat>, j: nat, tex: Sample -> int)
    requires Chosen(ls, idx) && OthersKept(a, b, ls, idx, j, tex) && OthersKept(b, c, ls, idx, j, tex)
    ensures OthersKept(a, c, ls, idx, j, tex)
  {
  }

  /** The rectangle of patch j: the second gives way to the first. */
  method PatchRect(ls: seq<Layer>, idx: seq<nat>, j: nat) returns (overlap: Rect)
    requires Chosen(ls, idx) && j < |idx|
    ensures overlap == Overlap(ls, idx, j)
  {
    overlap := ls[idx[j]].frame;
    if j != 0 {
      var commonRect := GetIntersection(ls[idx[0]].frame, overlap);
      if commonRect.Valid() {
        overlap := DeductRect(overlap, commonRect);
      }
    }
  }

  /** All layers up to PTOR layer j, bottom to top, into its slot. */
  method DrawPatch(canvas: Canvas, ls: seq<Layer>, idx: seq<nat>, j: nat, slot: Rect, tex: Sample -> int) returns (canvas': Canvas)
    requires Chosen(ls, idx) && j < |idx| && slot == Slot(ls, idx, j)
    requires SlotHolds(canvas, ls, idx, j, 0, tex)
    ensures SlotHolds(canvas', ls, idx, j, idx[j] + 1, tex)
    ensures OthersKept(canvas, canvas', ls, idx, j, tex)
  {
    canvas' := canvas;
    var overlap := PatchRect(ls, idx, j);
    for i := 0 to idx[j] + 1
      invariant SlotHolds(canvas', ls, idx, j, i, tex)
      invariant OthersKept(canvas, canvas', ls, idx, j, tex)
    {
      var next := DrawLayerPart(canvas', ls, idx, j, i, overlap, slot, tex);
      OthersKeptTwice(canvas, canvas', next, ls, idx, j, tex);
      canvas' := next;
    }
  }

  /** The render buffer starts out cleared; every slot ends up with what can be copied into it. */
  method DrawOverlap(ls: seq<Layer>, idx: seq<nat>, slots: seq<Rect>, tex: Sample -> int) returns (canvas: Canvas)
    requires Chosen(ls, idx)
    requires |slots| == |idx| && forall j :: 0 <= j < |idx| ==> slots[j] == Slot(ls, idx, j)
    ensures Drawn(canvas, ls, idx, tex)
  {
    canvas := (q: Point) => Background;
    NothingDrawn(canvas, ls, idx, tex);
    for j := 0 to |idx|
      invariant DrawnBelow(canvas, ls, idx, j, tex)
    {
      var next := DrawPatch(canvas, ls, idx, j, slots[j], tex);
      DrawnStep(canvas, next, ls, idx, j, tex);
      canvas := next;
    }
  }

  /** The first j slots are done, the others still empty. */
  ghost predicate DrawnBelow(canvas: Canvas, ls: seq<Layer>, idx: seq<nat>, j: nat, tex: Sample -> int)
    requires Indexed(|ls|, idx)
  {
    forall k :: 0 <= k < |idx| ==> SlotHolds(canvas, ls, idx, k, if k < j then idx[k] + 1 else 0, tex)
  }

  lemma NothingDrawn(canvas: Canvas, ls: seq<Layer>, idx: seq<nat>, tex: Sample -> int)
    requires Indexed(|ls|, idx) && forall q :: canvas(q) == Background
    ensures DrawnBelow(canvas, ls, idx, 0, tex)
  {
  }

  lemma DrawnStep(canvas: Canvas, canvas': Canvas, ls: seq<Layer>, idx: seq<nat>, j: nat, tex: Sample -> int)
    requires Chosen(ls, idx) && j < |idx| && DrawnBelow(canvas, ls, idx, j, tex)
    requires SlotHolds(canvas', ls, idx, j, idx[j] + 1, tex) && OthersKept(canvas, canvas', ls, idx, j, tex)
    ensures DrawnBelow(canvas', ls, idx, j + 1, tex)
  {
  }

  // ------------------------------------------------------------------ what the screen shows of it

  /** The colour of a layer is missing at p: it shows under a patch, and nothing opaque lies over
      the patch. */
  ghost predicate ColorLost(ls: seq<Layer>, idx: seq<nat>, p: Point)
    requires Indexed(|ls|, idx)
  {
    var j := PatchAt(ls, idx, p);
    j >= 0 && ColorShows(ls[..idx[j] + 1], p) && !Covered(ls, idx[j] + 1, p)
  }

  /** The picture that comes out is the list's, except where the colour of a layer is missing. */
  lemma DrawnShowsList(ls: seq<Layer>, idx: seq<nat>, canvas: Canvas, tex: Sample -> int, p: Point)
    requires Chosen(ls, idx) && Drawn(canvas, ls, idx, tex)
    ensures !ColorLost(ls, idx, p) ==> Shown(Patched(ls, idx), idx, canvas, tex, p) == Composite(ls, tex, p)
    ensures ColorLost(ls, idx, p) && tex == TELLTALE ==> Shown(Patched(ls, idx), idx, canvas, tex, p) != Composite(ls, tex, p)
  {
    PatchedShows(ls, idx, canvas, tex, p);
    DrawnOverPrefix(ls, idx, canvas, tex, p);
  }

  lemma DrawnOverPrefix(ls: seq<Layer>, idx: seq<nat>, canvas: Canvas, tex: Sample -> int, p: Point)
    requires Indexed(|ls|, idx) && Drawn(canvas, ls, idx, tex)
    ensures
      var j := PatchAt(ls, idx, p);
      j >= 0 ==>
        var shown := Over(ls, idx[j] + 1, Held(canvas, ls, idx, j, p), tex, p);
        && (!ColorLost(ls, idx, p) ==> shown == Composite(ls, tex, p))
        && (ColorLost(ls, idx, p) && tex == TELLTALE ==> shown != Composite(ls, tex, p))
  {
    var j := PatchAt(ls, idx, p);
    if j >= 0 {
      SlotAt(ls, idx, canvas, tex, p);
      OverCopied(ls, idx[j] + 1, tex, p);
    }
  }

  lemma SlotAt(ls: seq<Layer>, idx: seq<nat>, canvas: Canvas, tex: Sample -> int, p: Point)
    requires Indexed(|ls|, idx) && Drawn(canvas, ls, idx, tex)
    ensures
      var j := PatchAt(ls, idx, p);
      j >= 0 ==> Held(canvas, ls, idx, j, p) == Copied(ls[..idx[j] + 1], tex, p)
  {
    var j := PatchAt(ls, idx, p);
    if j >= 0 {
      assert SlotHolds(canvas, ls, idx, j, idx[j] + 1, tex);
    }
  }

  /** What is copied of the first k layers, under the others. */
  lemma OverCopied(ls: seq<Layer>, k: nat, tex: Sample -> int, p: Point)
    requires k <= |ls|
    ensures
      var shown, lost := Over(ls, k, Copied(ls[..k], tex, p), tex, p), ColorShows(ls[..k], p) && !Covered(ls, k, p);
      && (!lost ==> shown == Composite(ls, tex, p))
      && (lost && tex == TELLTALE ==> shown != Composite(ls, tex, p))
  {
    CompositeOver(ls, k, tex, p);
    OverSame(ls, k, Copied(ls[..k], tex, p), Composite(ls[..k], tex, p), tex, p);
    if !ColorShows(ls[..k], p) {
      CopiedWhole(ls[..k], tex, p);
    } else {
      CopiedLoses(ls[..k], p);
    }
  }
}

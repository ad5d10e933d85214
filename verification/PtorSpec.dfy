/** Peripheral tiny overlap removal, PTOR (fullMDPCompWithPTOR in hwc_mdpcomp.cpp, and
    prepareOverlap and drawOverlap in hwc_copybit.cpp), as a transformation of layer lists:
    up to two layers at the edge of the screen become opaque patches that hold everything
    composed up to them, and the layers below lose what the patches cover. */
module PtorSpec {
  import opened Rects
  import opened Layers

  const MAX_PTOR_LAYERS := 2

  // ------------------------------------------------------------------ choosing the layers

  function PixelCount(l: Layer): int {
    l.Crop().Width() * l.Crop().Height()
  }

  predicate Meets(r: Rect, l: Layer) {
    GetIntersection(r, l.frame).Valid()
  }

  /** Some layer below i meets its frame, and all that do are unscaled and not turned. */
  predicate OverlapRemovable(ls: seq<Layer>, i: nat)
    requires i < |ls|
  {
    && (exists j :: 0 <= j < i && Meets(ls[i].frame, ls[j]))
    && (forall j :: 0 <= j < i && Meets(ls[i].frame, ls[j]) ==> !ls[j].Has90Transform() && !ls[j].NeedsScaling())
  }

  /** Layer i can be a PTOR layer when `pixels` pixels are taken already. */
  predicate Eligible(ls: seq<Layer>, view: Rect, area: int, i: nat, pixels: int)
    requires i < |ls|
  {
    && IsPeripheral(ls[i].frame, view) && !ls[i].Has90Transform()
    && 3 * (PixelCount(ls[i]) + pixels) <= area
    && OverlapRemovable(ls, i)
  }

  /** The choice among the first n layers, from the top down. */
  function Choose(ls: seq<Layer>, view: Rect, area: int, n: nat, room: nat, pixels: int): (idx: seq<nat>)
    requires n <= |ls|
    ensures |idx| <= room
  {
    if n == 0 || room == 0 then
      []
    else if Eligible(ls, view, area, n - 1, pixels) then
      [n - 1] + Choose(ls, view, area, n - 1, room - 1, pixels + PixelCount(ls[n - 1]))
    else
      Choose(ls, view, area, n - 1, room, pixels)
  }

  /** The pixels of some layers together. */
  function Taken(ls: seq<Layer>, idx: seq<nat>): int
    requires forall k :: 0 <= k < |idx| ==> idx[k] < |ls|
  {
    if idx == [] then 0 else ls[idx[0]].Crop().Width() * ls[idx[0]].Crop().Height() + Taken(ls, idx[1..])
  }

  lemma {:induction false} ChosenBelow(ls: seq<Layer>, view: Rect, area: int, n: nat, room: nat, pixels: int)
    requires n <= |ls|
    ensures forall k :: 0 <= k < |Choose(ls, view, area, n, room, pixels)| ==> Choose(ls, view, area, n, room, pixels)[k] < n
  {
    if n > 0 && room > 0 {
      ChosenBelow(ls, view, area, n - 1, room - 1, pixels + PixelCount(ls[n - 1]));
      ChosenBelow(ls, view, area, n - 1, room, pixels);
    }
  }

  lemma {:induction false} ChosenDescend(ls: seq<Layer>, view: Rect, area: int, n: nat, room: nat, pixels: int, k: nat)
    requires n <= |ls| && 0 < k < |Choose(ls, view, area, n, room, pixels)|
    ensures Choose(ls, view, area, n, room, pixels)[k] < Choose(ls, view, area, n, room, pixels)[k - 1]
  {
    if Eligible(ls, view, area, n - 1, pixels) {
      ChosenBelow(ls, view, area, n - 1, room - 1, pixels + PixelCount(ls[n - 1]));
      if k > 1 {
        ChosenDescend(ls, view, area, n - 1, room - 1, pixels + PixelCount(ls[n - 1]), k - 1);
      }
    } else {
      ChosenDescend(ls, view, area, n - 1, room, pixels, k);
    }
  }

  /** Layer i is eligible when the layers `above` are taken. */
  ghost predicate EligibleAfter(ls: seq<Layer>, view: Rect, area: int, i: nat, above: seq<nat>, pixels: int) {
    && i < |ls| && (forall k :: 0 <= k < |above| ==> above[k] < |ls|)
    && Eligible(ls, view, area, i, pixels + Taken(ls, above))
  }

  /** Each layer is eligible when those before it are taken, told one by one. */
  ghost predicate Successive(ls: seq<Layer>, view: Rect, area: int, idx: seq<nat>, pixels: int) {
    idx != [] ==>
      && idx[0] < |ls| && Eligible(ls, view, area, idx[0], pixels)
      && Successive(ls, view, area, idx[1..], pixels + PixelCount(ls[idx[0]]))
  }

  lemma {:induction false} ChooseSuccessive(ls: seq<Layer>, view: Rect, area: int, n: nat, room: nat, pixels: int)
    requires n <= |ls|
    ensures Successive(ls, view, area, Choose(ls, view, area, n, room, pixels), pixels)
  {
    if n > 0 && room > 0 {
      if Eligible(ls, view, area, n - 1, pixels) {
        var rest := Choose(ls, view, area, n - 1, room - 1, pixels + PixelCount(ls[n - 1]));
        ChooseSuccessive(ls, view, area, n - 1, room - 1, pixels + PixelCount(ls[n - 1]));
        assert ([n - 1] + rest)[1..] == rest;
      } else {
        ChooseSuccessive(ls, view, area, n - 1, room, pixels);
      }
    }
  }

  lemma EligibleAfterOne(ls: seq<Layer>, view: Rect, area: int, i: nat, first: nat, rest: seq<nat>, pixels: int)
    requires first < |ls| && EligibleAfter(ls, view, area, i, rest, pixels + PixelCount(ls[first]))
    ensures EligibleAfter(ls, view, area, i, [first] + rest, pixels)
  {
    assert ([first] + rest)[1..] == rest;
  }

  lemma EligibleNext(ls: seq<Layer>, view: Rect, area: int, idx: seq<nat>, pixels: int, k: nat)
    requires 0 < k < |idx| && idx[0] < |ls|
    requires EligibleAfter(ls, view, area, idx[1..][k - 1], idx[1..][..k - 1], pixels + PixelCount(ls[idx[0]]))
    ensures EligibleAfter(ls, view, area, idx[k], idx[..k], pixels)
  {
    EligibleAfterOne(ls, view, area, idx[k], idx[0], idx[1..][..k - 1], pixels);
    assert idx[..k] == [idx[0]] + idx[1..][..k - 1];
  }

  lemma EligibleFirst(ls: seq<Layer>, view: Rect, area: int, i: nat, none: seq<nat>, pixels: int)
    requires none == [] && i < |ls| && Eligible(ls, view, area, i, pixels)
    ensures EligibleAfter(ls, view, area, i, none, pixels)
  {
  }

  lemma SuccessiveStep(ls: seq<Layer>, view: Rect, area: int, idx: seq<nat>, pixels: int)
    requires idx != [] && Successive(ls, view, area, idx, pixels)
    ensures idx[0] < |ls| && EligibleAfter(ls, view, area, idx[0], idx[..0], pixels)
    ensures Successive(ls, view, area, idx[1..], pixels + PixelCount(ls[idx[0]]))
  {
    EligibleFirst(ls, view, area, idx[0], idx[..0], pixels);
  }

  lemma {:induction false} SuccessiveAt(ls: seq<Layer>, view: Rect, area: int, idx: seq<nat>, pixels: int, k: nat)
    requires k < |idx| && Successive(ls, view, area, idx, pixels)
    ensures EligibleAfter(ls, view, area, idx[k], idx[..k], pixels)
  {
    SuccessiveStep(ls, view, area, idx, pixels);
    if k > 0 {
      SuccessiveAt(ls, view, area, idx[1..], pixels + PixelCount(ls[idx[0]]), k - 1);
      EligibleNext(ls, view, area, idx, pixels, k);
    }
  }

  /** A chosen layer is eligible after the ones above it. */
  lemma ChooseSound(ls: seq<Layer>, view: Rect, area: int, n: nat, room: nat, pixels: int, k: nat)
    requires n <= |ls| && k < |Choose(ls, view, area, n, room, pixels)|
    ensures var idx := Choose(ls, view, area, n, room, pixels); EligibleAfter(ls, view, area, idx[k], idx[..k], pixels)
  {
    ChooseSuccessive(ls, view, area, n, room, pixels);
    SuccessiveAt(ls, view, area, Choose(ls, view, area, n, room, pixels), pixels, k);
  }

  /** All patches together have at most a third of the pixels of the screen. */
  lemma {:induction false} ChosenAreSmall(ls: seq<Layer>, view: Rect, area: int, n: nat, room: nat, pixels: int)
    requires n <= |ls|
    ensures
      var idx := Choose(ls, view, area, n, room, pixels);
      (forall k :: 0 <= k < |idx| ==> idx[k] < n) && (idx != [] ==> 3 * (pixels + Taken(ls, idx)) <= area)
  {
    ChosenBelow(ls, view, area, n, room, pixels);
    if n > 0 && room > 0 {
      if Eligible(ls, view, area, n - 1, pixels) {
        ChosenAreSmall(ls, view, area, n - 1, room - 1, pixels + PixelCount(ls[n - 1]));
        var rest := Choose(ls, view, area, n - 1, room - 1, pixels + PixelCount(ls[n - 1]));
        assert ([n - 1] + rest)[1..] == rest;
      } else {
        ChosenAreSmall(ls, view, area, n - 1, room, pixels);
      }
    }
  }

  /** No layer is passed over: one that is not chosen was not eligible after those above it, of which
      there are j, or lies below as many as there is room for. */
  lemma {:induction false} ChooseComplete(ls: seq<Layer>, view: Rect, area: int, n: nat, room: nat, pixels: int, i: nat) returns (j: nat)
    requires i < n <= |ls| && i !in Choose(ls, view, area, n, room, pixels)
    ensures
      var idx := Choose(ls, view, area, n, room, pixels);
      && j <= |idx| && (forall k :: 0 <= k < |idx| ==> idx[k] < n && (i < idx[k] <==> k < j))
      && (j == room || !EligibleAfter(ls, view, area, i, idx[..j], pixels))
  {
    ChosenBelow(ls, view, area, n, room, pixels);
    var idx := Choose(ls, view, area, n, room, pixels);
    if room == 0 {
      j := 0;
    } else if Eligible(ls, view, area, n - 1, pixels) {
      var rest := Choose(ls, view, area, n - 1, room - 1, pixels + PixelCount(ls[n - 1]));
      assert idx == [n - 1] + rest && i != n - 1;
      var r := ChooseComplete(ls, view, area, n - 1, room - 1, pixels + PixelCount(ls[n - 1]), i);
      j := r + 1;
      assert idx[..j] == [n - 1] + rest[..r];
      assert EligibleAfter(ls, view, area, i, idx[..j], pixels) ==>
        EligibleAfter(ls, view, area, i, rest[..r], pixels + PixelCount(ls[n - 1])) by {
        assert ([n - 1] + rest[..r])[1..] == rest[..r];
      }
    } else if i == n - 1 {
      j := 0;
      assert idx[..0] == [];
    } else {
      j := ChooseComplete(ls, view, area, n - 1, room, pixels, i);
    }
  }

  /** One or two of n layers, from the top down. */
  ghost predicate Indexed(n: nat, idx: seq<nat>) {
    && 1 <= |idx| <= MAX_PTOR_LAYERS
    && (forall k :: 0 <= k < |idx| ==> idx[k] < n)
    && (|idx| == 2 ==> idx[1] < idx[0])
  }

  /** What the rest of the transformation needs to know about the chosen layers. */
  ghost predicate Chosen(ls: seq<Layer>, idx: seq<nat>) {
    Indexed(|ls|, idx) && forall k :: 0 <= k < |idx| ==> OverlapRemovable(ls, idx[k])
  }

  // ------------------------------------------------------------------ patches and slots

  /** The screen area of patch j: the lower PTOR layer gives way to the upper one. */
  function Overlap(ls: seq<Layer>, idx: seq<nat>, j: nat): Rect
    requires j < |idx| <= 2 && forall k :: 0 <= k < |idx| ==> idx[k] < |ls|
  {
    if j == 0 then
      ls[idx[0]].frame
    else
      var common := GetIntersection(ls[idx[0]].frame, ls[idx[1]].frame);
      if common.Valid() then DeductRect(ls[idx[1]].frame, common) else ls[idx[1]].frame
  }

  function Align32(x: int): (r: int)
    ensures x >= 0 ==> r % 32 == 0 && x <= r < x + 32
  {
    if x >= 0 then 32 * ((x + 31) / 32) else x
  }

  /** Where patch j is kept in the render buffer: one below the other, 32-aligned. */
  function Slot(ls: seq<Layer>, idx: seq<nat>, j: nat): Rect
    requires j < |idx| <= 2 && forall k :: 0 <= k < |idx| ==> idx[k] < |ls|
  {
    var o := Overlap(ls, idx, j);
    var top := if j == 0 then 0 else Align32(Overlap(ls, idx, 0).Height());
    Rect(0, top, o.Width(), top + o.Height())
  }

  /** The PTOR layer as an opaque, unturned window on its slot. */
  function Patch(l: Layer, overlap: Rect, slot: Rect): Layer {
    l.(frame := overlap, cropf := ToFRect(slot), blending := None, planeAlpha := 0xFF, transform := NO_TRANSFORM)
  }

  function TrimUnder(overlap: Rect, l: Layer): Layer {
    var irect := GetIntersection(l.frame, overlap);
    if irect.Valid() then Trim(l, DeductRect(l.frame, irect), l.transform) else l
  }

  /** One patch goes in and the layers below it are cut back. */
  function ApplyPatch(ls: seq<Layer>, index: nat, overlap: Rect, slot: Rect): (r: seq<Layer>)
    requires index < |ls|
    ensures |r| == |ls|
    ensures forall i :: 0 <= i < |ls| ==>
      r[i] == (if i < index then TrimUnder(overlap, ls[i]) else if i == index then Patch(ls[i], overlap, slot) else ls[i])
  {
    seq(|ls|, i requires 0 <= i < |ls| =>
      if i < index then TrimUnder(overlap, ls[i])
      else if i == index then Patch(ls[i], overlap, slot)
      else ls[i])
  }

  /** The list with the lower PTOR layer's frame already cut back. */
  function Uncommon(ls: seq<Layer>, idx: seq<nat>): (r: seq<Layer>)
    requires |idx| <= 2 && forall k :: 0 <= k < |idx| ==> idx[k] < |ls|
    ensures |r| == |ls|
  {
    if |idx| == 2 then ls[idx[1] := ls[idx[1]].(frame := Overlap(ls, idx, 1))] else ls
  }

  /** The list that is configured on the hardware. */
  function Patched(ls: seq<Layer>, idx: seq<nat>): (r: seq<Layer>)
    requires 1 <= |idx| <= 2 && forall k :: 0 <= k < |idx| ==> idx[k] < |ls|
    ensures |r| == |ls|
  {
    var first := ApplyPatch(Uncommon(ls, idx), idx[0], Overlap(ls, idx, 0), Slot(ls, idx, 0));
    if |idx| == 2 then ApplyPatch(first, idx[1], Overlap(ls, idx, 1), Slot(ls, idx, 1)) else first
  }

  /** The overlap is really removed: below a patch no layer shares a pixel with it any more, unless
      what would be left of the layer is not one rectangle. */
  lemma PatchCuts(overlap: Rect, l: Layer, p: Point)
    requires TrimUnder(overlap, l).frame.Has(p) && overlap.Has(p) && l.frame.Valid()
    ensures DeductRect(l.frame, GetIntersection(l.frame, overlap)) == l.frame
  {
    if GetIntersection(l.frame, overlap).Valid() {
      DeductOverlap(l.frame, overlap, p);
      DeductEdges(l.frame, overlap);
    }
  }

  /** The layers that are not patched, after both patches. */
  lemma PatchedBelow(ls: seq<Layer>, idx: seq<nat>, i: nat)
    requires Indexed(|ls|, idx) && i < |ls| && i !in idx
    ensures
      var once := if i < idx[0] then TrimUnder(Overlap(ls, idx, 0), ls[i]) else ls[i];
      Patched(ls, idx)[i] == if |idx| == 2 && i < idx[1] then TrimUnder(Overlap(ls, idx, 1), once) else once
  {
  }

  /** Both slots lie in the buffer that is allocated for them and share no pixel. */
  lemma SlotsPacked(ls: seq<Layer>, idx: seq<nat>, q: Point)
    requires Chosen(ls, idx) && |idx| == 2
    ensures
      var s0, s1 := Slot(ls, idx, 0), Slot(ls, idx, 1);
      var w := Max(Align32(Overlap(ls, idx, 0).Width()), Align32(Overlap(ls, idx, 1).Width()));
      var h := Align32(Overlap(ls, idx, 0).Height()) + Align32(Overlap(ls, idx, 1).Height());
      && !(s0.Has(q) && s1.Has(q))
      && s0.Within(Rect(0, 0, w, h)) && s1.Within(Rect(0, 0, w, h))
  {
    OverlapShape(ls, idx, 0);
    OverlapShape(ls, idx, 1);
  }

  /** A PTOR layer meets a layer, so its frame is not empty; its patch may be. */
  lemma OverlapShape(ls: seq<Layer>, idx: seq<nat>, j: nat)
    requires Chosen(ls, idx) && j < |idx|
    ensures
      var o, frame := Overlap(ls, idx, j), ls[idx[j]].frame;
      && frame.Valid() && o.Within(frame) && o.Width() >= 0 && o.Height() >= 0
      && (o != frame ==> j == 1 && !ls[idx[1]].Has90Transform() && !ls[idx[1]].NeedsScaling())
  {
    var k :| 0 <= k < idx[j] && Meets(ls[idx[j]].frame, ls[k]);
    if j == 1 && Overlap(ls, idx, 1) != ls[idx[1]].frame {
      assert Meets(ls[idx[0]].frame, ls[idx[1]]);
      DeductSymmetric(ls[idx[1]].frame, ls[idx[0]].frame);
      DeductEdges(ls[idx[1]].frame, ls[idx[0]].frame);
    }
  }

  lemma DeductSymmetric(r1: Rect, r2: Rect)
    ensures GetIntersection(r1, r2) == GetIntersection(r2, r1)
  {
  }

  /** A screen pixel of patch j and its place in the render buffer. */
  function ToSlot(overlap: Rect, slot: Rect, p: Point): Point {
    Point(p.x - overlap.left + slot.left, p.y - overlap.top + slot.top)
  }

  function ToScreen(overlap: Rect, slot: Rect, q: Point): Point {
    Point(q.x - slot.left + overlap.left, q.y - slot.top + overlap.top)
  }

  // ------------------------------------------------------------------ the render buffer

  /** What the render buffer holds for the screen pixel p of patch j. */
  function Held(canvas: Canvas, ls: seq<Layer>, idx: seq<nat>, j: nat, p: Point): Color
    requires j < |idx| <= 2 && forall k :: 0 <= k < |idx| ==> idx[k] < |ls|
  {
    canvas(ToSlot(Overlap(ls, idx, j), Slot(ls, idx, j), p))
  }

  /** Every patch slot holds the composite of the layers up to and with its PTOR layer. */
  ghost predicate Rendered(canvas: Canvas, ls: seq<Layer>, idx: seq<nat>, tex: Sample -> int)
    requires Indexed(|ls|, idx)
  {
    forall j, p: Point :: 0 <= j < |idx| && Overlap(ls, idx, j).Has(p) ==>
      Held(canvas, ls, idx, j, p) == Composite(ls[..idx[j] + 1], tex, p)
  }

  /** The index of the patch that layer i is, if any (getPTORArrayIndex). */
  function PatchIndex(idx: seq<nat>, i: nat): (j: int)
    ensures -1 <= j < |idx|
  {
    if |idx| == 0 then -1
    else if idx[|idx| - 1] == i then |idx| - 1
    else PatchIndex(idx[..|idx| - 1], i)
  }

  /** What the hardware shows: PTOR layers read the render buffer through their crop. */
  function ShownInk(l: Layer, i: nat, idx: seq<nat>, canvas: Canvas, tex: Sample -> int, p: Point): Color {
    if PatchIndex(idx, i) >= 0 then
      canvas(Point(p.x - l.frame.left + l.Crop().left, p.y - l.frame.top + l.Crop().top))
    else
      Ink(tex(SampleAt(l, p)))
  }

  /** Layers with an empty frame are dropped; the others go to MDP in list order. */
  function Shown(ls: seq<Layer>, idx: seq<nat>, canvas: Canvas, tex: Sample -> int, p: Point): Color {
    if ls == [] then
      Background
    else
      var n := |ls| - 1;
      var below := Shown(ls[..n], idx, canvas, tex, p);
      if ls[n].frame.Valid() && ls[n].frame.Has(p) then Paint(ls[n], ShownInk(ls[n], n, idx, canvas, tex, p), below) else below
  }

  /** Layer i looks at p as it did in the original list. */
  ghost predicate Unmoved(l: Layer, i: nat, idx: seq<nat>, l0: Layer, tex: Sample -> int, p: Point) {
    if l.frame.Has(p) then SameLook(l, tex, l0, tex, p) && PatchIndex(idx, i) < 0 else !l0.frame.Has(p)
  }

  /** The layers from k up, painted over `base`. */
  function Over(ls: seq<Layer>, k: nat, base: Color, tex: Sample -> int, p: Point): Color {
    if |ls| <= k then
      base
    else
      var l := ls[|ls| - 1];
      var below := Over(ls[..|ls| - 1], k, base, tex, p);
      if l.frame.Has(p) then Paint(l, Ink(tex(SampleAt(l, p))), below) else below
  }

  lemma {:induction false} CompositeOver(ls: seq<Layer>, k: nat, tex: Sample -> int, p: Point)
    requires k <= |ls|
    ensures Composite(ls, tex, p) == Over(ls, k, Composite(ls[..k], tex, p), tex, p)
  {
    if k == |ls| {
      assert ls[..k] == ls;
    } else {
      assert ls[..|ls| - 1][..k] == ls[..k];
      CompositeOver(ls[..|ls| - 1], k, tex, p);
    }
  }

  /** An opaque layer from k up hides whatever is below k. */
  ghost predicate Covered(ls: seq<Layer>, k: nat, p: Point) {
    exists i :: k <= i < |ls| && ls[i].frame.Has(p) && ls[i].Opaque()
  }

  lemma {:induction false} OverSame(ls: seq<Layer>, k: nat, a: Color, b: Color, tex: Sample -> int, p: Point)
    requires k <= |ls|
    ensures Over(ls, k, a, tex, p) == Over(ls, k, b, tex, p) <==> a == b || Covered(ls, k, p)
  {
    if k < |ls| {
      var n := |ls| - 1;
      OverSame(ls[..n], k, a, b, tex, p);
      assert Covered(ls, k, p) <==> Covered(ls[..n], k, p) || (ls[n].frame.Has(p) && ls[n].Opaque()) by {
        assert forall i :: 0 <= i < n ==> ls[..n][i] == ls[i];
      }
    }
  }

  lemma {:induction false} ShownFrom(ls: seq<Layer>, ls0: seq<Layer>, k: nat, idx: seq<nat>, canvas: Canvas, tex: Sample -> int, p: Point)
    requires k <= |ls| == |ls0|
    requires forall i :: k <= i < |ls| ==> Unmoved(ls[i], i, idx, ls0[i], tex, p)
    ensures Shown(ls, idx, canvas, tex, p) == Over(ls0, k, Shown(ls[..k], idx, canvas, tex, p), tex, p)
  {
    if k == |ls| {
      assert ls[..k] == ls;
    } else {
      var n := |ls| - 1;
      assert ls[..n][..k] == ls[..k];
      forall i | k <= i < n ensures Unmoved(ls[..n][i], i, idx, ls0[..n][i], tex, p) {
        assert Unmoved(ls[i], i, idx, ls0[i], tex, p);
      }
      ShownFrom(ls[..n], ls0[..n], k, idx, canvas, tex, p);
      assert Unmoved(ls[n], n, idx, ls0[n], tex, p);
    }
  }

  lemma TrimUnderOutside(overlap: Rect, l: Layer, tex: Sample -> int, p: Point)
    requires !overlap.Has(p)
    requires Meets(overlap, l) && !l.colorFill ==> Exact(l.Crop(), l.frame, l.transform)
    ensures SameLook(TrimUnder(overlap, l), tex, l, tex, p)
  {
    DeductSymmetric(overlap, l.frame);
    if GetIntersection(l.frame, overlap).Valid() {
      DeductOverlap(l.frame, overlap, p);
      DeductEdges(l.frame, overlap);
      TrimKeepsSamples(l, DeductRect(l.frame, GetIntersection(l.frame, overlap)), l.transform, p);
    }
  }

  /** After a first trim, a layer that still meets the second patch is still one to one. */
  lemma TrimUnderExact(overlap: Rect, l: Layer)
    requires Meets(overlap, l) && !l.colorFill ==> Exact(l.Crop(), l.frame, l.transform)
    ensures Meets(overlap, l) && !l.colorFill ==>
      Exact(TrimUnder(overlap, l).Crop(), TrimUnder(overlap, l).frame, TrimUnder(overlap, l).transform)
    ensures !Meets(overlap, l) ==> TrimUnder(overlap, l) == l
    ensures forall r: Rect :: Meets(r, TrimUnder(overlap, l)) ==> Meets(r, l)
  {
    DeductSymmetric(overlap, l.frame);
    if GetIntersection(l.frame, overlap).Valid() {
      DeductEdges(l.frame, overlap);
      TrimKeepsSamples(l, DeductRect(l.frame, GetIntersection(l.frame, overlap)), l.transform, Point(0, 0));
    }
  }

  /** A layer below PTOR layer j that meets its patch is one to one. */
  lemma BelowIsExact(ls: seq<Layer>, idx: seq<nat>, j: nat, i: nat)
    requires Chosen(ls, idx) && j < |idx| && i < idx[j]
    requires Meets(Overlap(ls, idx, j), ls[i]) && !ls[i].colorFill
    ensures Exact(ls[i].Crop(), ls[i].frame, ls[i].transform)
  {
    OverlapShape(ls, idx, j);
    assert Meets(ls[idx[j]].frame, ls[i]);
  }

  // ------------------------------------------------------------------ the picture

  lemma PatchIndices(idx: seq<nat>, i: nat)
    requires 1 <= |idx| <= 2 && (|idx| == 2 ==> idx[1] < idx[0])
    ensures PatchIndex(idx, i) == if i == idx[0] then 0 else if |idx| == 2 && i == idx[1] then 1 else -1
  {
    assert idx[..|idx| - 1] == if |idx| == 2 then [idx[0]] else [];
    assert [idx[0]][..0] == [];
  }

  /** Layer i of the patched list, spelled out. */
  lemma PatchedAt(ls: seq<Layer>, idx: seq<nat>, i: nat)
    requires Chosen(ls, idx) && i < |ls|
    ensures
      var l := if i < idx[0] then TrimUnder(Overlap(ls, idx, 0), ls[i]) else ls[i];
      Patched(ls, idx)[i].frame == (
        if i == idx[0] then Overlap(ls, idx, 0)
        else if |idx| == 2 && i == idx[1] then Overlap(ls, idx, 1)
        else if |idx| == 2 && i < idx[1] then TrimUnder(Overlap(ls, idx, 1), l).frame
        else l.frame)
    ensures
      var l := if i < idx[0] then TrimUnder(Overlap(ls, idx, 0), ls[i]) else ls[i];
      PatchIndex(idx, i) < 0 ==>
        Patched(ls, idx)[i] == if |idx| == 2 && i < idx[1] then TrimUnder(Overlap(ls, idx, 1), l) else l
  {
    PatchIndices(idx, i);
  }

  /** Outside both patches every layer looks as before. */
  lemma OutsideUnmoved(ls: seq<Layer>, idx: seq<nat>, i: nat, tex: Sample -> int, p: Point)
    requires Chosen(ls, idx) && i < |ls|
    requires !Overlap(ls, idx, 0).Has(p)
    requires |idx| == 2 && i <= idx[1] ==> !Overlap(ls, idx, 1).Has(p)
    ensures Unmoved(Patched(ls, idx)[i], i, idx, ls[i], tex, p)
  {
    PatchIndices(idx, i);
    PatchedAt(ls, idx, i);
    var o0 := Overlap(ls, idx, 0);
    if i < idx[0] {
      if Meets(o0, ls[i]) && !ls[i].colorFill {
        BelowIsExact(ls, idx, 0, i);
      }
      TrimUnderOutside(o0, ls[i], tex, p);
    }
    if |idx| == 2 && i == idx[1] {
      DeductOverlap(ls[i].frame, ls[idx[0]].frame, p);
      DeductSymmetric(ls[i].frame, ls[idx[0]].frame);
    }
    if |idx| == 2 && i < idx[1] {
      var l, o1 := TrimUnder(o0, ls[i]), Overlap(ls, idx, 1);
      TrimUnderExact(o0, ls[i]);
      if Meets(o1, l) && !l.colorFill {
        BelowIsExact(ls, idx, 1, i);
      }
      TrimUnderOutside(o1, l, tex, p);
    }
  }

  /** The PTOR layer of patch j is an opaque window on its slot. */
  ghost predicate PatchInPlace(shown: seq<Layer>, ls: seq<Layer>, idx: seq<nat>, j: nat)
    requires Chosen(ls, idx) && j < |idx|
  {
    && idx[j] < |shown| && PatchIndex(idx, idx[j]) == j
    && shown[idx[j]].frame == Overlap(ls, idx, j) && shown[idx[j]].Opaque() && shown[idx[j]].Crop() == Slot(ls, idx, j)
  }

  lemma PatchFacts(l: Layer, o: Rect, s: Rect)
    ensures Patch(l, o, s).frame == o && Patch(l, o, s).Opaque() && Patch(l, o, s).Crop() == s
  {
  }

  /** PTOR layer j of the patched list is a patch of something. */
  lemma PatchedIsPatch(ls: seq<Layer>, idx: seq<nat>, j: nat) returns (l: Layer)
    requires Chosen(ls, idx) && j < |idx|
    ensures Patched(ls, idx)[idx[j]] == Patch(l, Overlap(ls, idx, j), Slot(ls, idx, j))
  {
    l := Uncommon(ls, idx)[idx[j]];
    if j == 1 {
      l := ApplyPatch(Uncommon(ls, idx), idx[0], Overlap(ls, idx, 0), Slot(ls, idx, 0))[idx[1]];
    }
  }

  lemma PatchesInPlace(ls: seq<Layer>, idx: seq<nat>, shown: seq<Layer>, j: nat)
    requires Chosen(ls, idx) && j < |idx| && idx[j] < |shown|
    requires exists l :: shown[idx[j]] == Patch(l, Overlap(ls, idx, j), Slot(ls, idx, j))
    ensures PatchInPlace(shown, ls, idx, j)
  {
    PatchIndices(idx, idx[j]);
    var l :| shown[idx[j]] == Patch(l, Overlap(ls, idx, j), Slot(ls, idx, j));
    PatchFacts(l, Overlap(ls, idx, j), Slot(ls, idx, j));
  }

  /** A list that ends in a patch shows the render buffer wherever the patch is. */
  lemma PatchCovers(shown: seq<Layer>, i: nat, idx: seq<nat>, o: Rect, s: Rect, canvas: Canvas, tex: Sample -> int, p: Point)
    requires |shown| == i + 1 && PatchIndex(idx, i) >= 0
    requires shown[i].frame == o && o.Has(p) && shown[i].Opaque() && shown[i].Crop() == s
    ensures Shown(shown, idx, canvas, tex, p) == canvas(ToSlot(o, s, p))
  {
  }

  /** The two facts about the patched list on which the picture rests. */
  ghost predicate Placed(shown: seq<Layer>, ls: seq<Layer>, idx: seq<nat>, tex: Sample -> int, p: Point)
    requires Chosen(ls, idx)
  {
    && |shown| == |ls|
    && (forall j :: 0 <= j < |idx| ==> PatchInPlace(shown, ls, idx, j))
    && (forall i :: 0 <= i < |ls| && !Overlap(ls, idx, 0).Has(p) && (|idx| == 2 && i <= idx[1] ==> !Overlap(ls, idx, 1).Has(p)) ==>
          Unmoved(shown[i], i, idx, ls[i], tex, p))
    && (forall i :: idx[0] < i < |ls| ==> shown[i] == ls[i])
  }

  lemma PatchedIsPlaced(ls: seq<Layer>, idx: seq<nat>, tex: Sample -> int, p: Point)
    requires Chosen(ls, idx)
    ensures Placed(Patched(ls, idx), ls, idx, tex, p)
  {
    var shown := Patched(ls, idx);
    forall j | 0 <= j < |idx| ensures PatchInPlace(shown, ls, idx, j) {
      var l := PatchedIsPatch(ls, idx, j);
      PatchesInPlace(ls, idx, shown, j);
    }
    forall i | 0 <= i < |ls| && !Overlap(ls, idx, 0).Has(p) && (|idx| == 2 && i <= idx[1] ==> !Overlap(ls, idx, 1).Has(p))
      ensures Unmoved(shown[i], i, idx, ls[i], tex, p)
    {
      OutsideUnmoved(ls, idx, i, tex, p);
    }
    forall i | idx[0] < i < |ls| ensures shown[i] == ls[i] {
    }
  }

  /** The patch that is seen at p, if any. */
  function PatchAt(ls: seq<Layer>, idx: seq<nat>, p: Point): (j: int)
    requires 1 <= |idx| <= 2 && forall k :: 0 <= k < |idx| ==> idx[k] < |ls|
    ensures -1 <= j < |idx|
  {
    if Overlap(ls, idx, 0).Has(p) then 0
    else if |idx| == 2 && Overlap(ls, idx, 1).Has(p) then 1
    else -1
  }

  /** Inside a patch the prefix up to its PTOR layer is replaced as a whole. */
  lemma PatchReplacesPrefix(shown: seq<Layer>, ls: seq<Layer>, idx: seq<nat>, j: nat, canvas: Canvas, tex: Sample -> int, p: Point)
    requires Chosen(ls, idx) && Placed(shown, ls, idx, tex, p) && j == PatchAt(ls, idx, p)
    ensures Shown(shown, idx, canvas, tex, p) ==
      Over(ls, idx[j] + 1, Held(canvas, ls, idx, j, p), tex, p)
  {
    assert PatchInPlace(shown, ls, idx, j);
    PatchCovers(shown[..idx[j] + 1], idx[j], idx, Overlap(ls, idx, j), Slot(ls, idx, j), canvas, tex, p);
    forall i | idx[j] + 1 <= i < |ls| ensures Unmoved(shown[i], i, idx, ls[i], tex, p) {
      PatchIndices(idx, i);
    }
    ShownFrom(shown, ls, idx[j] + 1, idx, canvas, tex, p);
  }

  /** The patched list shows, at every pixel, the original layers over what the render buffer holds
      there, or over nothing where there is no patch. */
  lemma PatchedShows(ls: seq<Layer>, idx: seq<nat>, canvas: Canvas, tex: Sample -> int, p: Point)
    requires Chosen(ls, idx)
    ensures
      var j := PatchAt(ls, idx, p);
      Shown(Patched(ls, idx), idx, canvas, tex, p) ==
        if j >= 0 then Over(ls, idx[j] + 1, Held(canvas, ls, idx, j, p), tex, p)
        else Composite(ls, tex, p)
  {
    PatchedIsPlaced(ls, idx, tex, p);
    PlacedShows(Patched(ls, idx), ls, idx, canvas, tex, p);
  }

  lemma PlacedShows(shown: seq<Layer>, ls: seq<Layer>, idx: seq<nat>, canvas: Canvas, tex: Sample -> int, p: Point)
    requires Chosen(ls, idx) && Placed(shown, ls, idx, tex, p)
    ensures
      var j := PatchAt(ls, idx, p);
      Shown(shown, idx, canvas, tex, p) ==
        if j >= 0 then Over(ls, idx[j] + 1, Held(canvas, ls, idx, j, p), tex, p) else Composite(ls, tex, p)
  {
    var j := PatchAt(ls, idx, p);
    if j >= 0 {
      PatchReplacesPrefix(shown, ls, idx, j, canvas, tex, p);
    } else {
      ShownFrom(shown, ls, 0, idx, canvas, tex, p);
      CompositeOver(ls, 0, tex, p);
    }
  }

  /** PTOR keeps the picture: the patched list, with the patches read from the render buffer,
      shows at every pixel what the original list shows. */
  lemma PatchedShowsOriginal(ls: seq<Layer>, idx: seq<nat>, canvas: Canvas, tex: Sample -> int, p: Point)
    requires Chosen(ls, idx) && Rendered(canvas, ls, idx, tex)
    ensures Shown(Patched(ls, idx), idx, canvas, tex, p) == Composite(ls, tex, p)
  {
    PatchedShows(ls, idx, canvas, tex, p);
    RenderedAt(canvas, ls, idx, tex, p);
  }

  lemma RenderedAt(canvas: Canvas, ls: seq<Layer>, idx: seq<nat>, tex: Sample -> int, p: Point)
    requires Indexed(|ls|, idx) && Rendered(canvas, ls, idx, tex)
    ensures
      var j := PatchAt(ls, idx, p);
      j >= 0 ==> Over(ls, idx[j] + 1, Held(canvas, ls, idx, j, p), tex, p) == Composite(ls, tex, p)
  {
    var j := PatchAt(ls, idx, p);
    if j >= 0 {
      CompositeOver(ls, idx[j] + 1, tex, p);
    }
  }
}

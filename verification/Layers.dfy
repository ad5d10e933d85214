/** Layers, the source-crop arithmetic (hwc_utils.cpp) and the meaning of a layer list.

    A picture is described pixel by pixel.  `SampleAt` says which source pixel of which
    buffer a layer shows at a screen pixel; `Composite` is the bottom-to-top fold of the
    layers over a pixel.  What a texel looks like (`tex`) and what blending does (`Mix`)
    stay uninterpreted, so two lists with equal composites agree for every buffer content
    and every blend equation. */
module Layers {
  import opened Rects

  datatype Blending = None | Premult | Coverage

  /** The bits of HAL_TRANSFORM. */
  datatype Transform = Transform(flipH: bool, flipV: bool, rot90: bool)

  const NO_TRANSFORM := Transform(false, false, false)

  /** hwc_frect_t: the source crop as SurfaceFlinger hands it over. */
  datatype FRect = FRect(left: real, top: real, right: real, bottom: real) {
    predicate Integral() {
      && left == left.Floor as real && top == top.Floor as real
      && right == right.Floor as real && bottom == bottom.Floor as real
    }
  }

  datatype Layer = Layer(
    handle: int,
    frame: Rect,
    cropf: FRect,
    transform: Transform,
    blending: Blending,
    planeAlpha: int,
    colorFill: bool)
  {
    function Crop(): Rect {
      IntegerizeSourceCrop(cropf)
    }

    predicate Opaque() {
      blending == None && planeAlpha == 0xFF
    }

    predicate NeedsScaling() {
      Crop().Width() != frame.Width() || Crop().Height() != frame.Height()
    }

    predicate Has90Transform() {
      transform.rot90 && !colorFill
    }

    /** The transform that is in force: a colour layer has no orientation. */
    function Orientation(): Transform {
      if colorFill then NO_TRANSFORM else transform
    }
  }

  function Ceil(x: real): int {
    -((-x).Floor)
  }

  /** The largest integer rectangle inside the crop. */
  function IntegerizeSourceCrop(c: FRect): (r: Rect)
    ensures c.left <= r.left as real < c.left + 1.0 && c.right - 1.0 < r.right as real <= c.right
    ensures c.top <= r.top as real < c.top + 1.0 && c.bottom - 1.0 < r.bottom as real <= c.bottom
  {
    Rect(Ceil(c.left), Ceil(c.top), c.right.Floor, c.bottom.Floor)
  }

  function ToFRect(r: Rect): (c: FRect)
    ensures c.Integral() && IntegerizeSourceCrop(c) == r
  {
    FRect(r.left as real, r.top as real, r.right as real, r.bottom as real)
  }

  /** Writing an integerized crop back loses nothing exactly when the crop was integral. */
  lemma IntegerizeRoundTrip(c: FRect)
    ensures ToFRect(IntegerizeSourceCrop(c)) == c <==> c.Integral()
  {
    CeilOfInteger(c.left);
    CeilOfInteger(c.top);
  }

  lemma CeilOfInteger(x: real)
    ensures Ceil(x) as real == x <==> x.Floor as real == x
  {
    if Ceil(x) as real == x {
      assert x == -((-x).Floor as real);
      assert x.Floor == -((-x).Floor);
    }
    if x.Floor as real == x {
      assert -x == (-x.Floor) as real;
    }
  }

  // ------------------------------------------------------------------ crop arithmetic

  /** C's round(): halves go away from zero. */
  function Round(x: real): int {
    if x >= 0.0 then (x + 0.5).Floor else -((-x + 0.5).Floor)
  }

  datatype Cuts = Cuts(left: real, top: real, right: real, bottom: real)

  function CalcCut(c: Cuts, orient: Transform): Cuts {
    var h := if orient.flipH then c.(left := c.right, right := c.left) else c;
    var v := if orient.flipV then h.(top := h.bottom, bottom := h.top) else h;
    if orient.rot90 then Cuts(v.top, v.right, v.bottom, v.left) else v
  }

  function CutRatios(dst: Rect, scissor: Rect): Cuts
    requires dst.Valid()
  {
    var w := dst.Width() as real;
    var h := dst.Height() as real;
    Cuts(if dst.left < scissor.left then (scissor.left - dst.left) as real / w else 0.0,
         if dst.top < scissor.top then (scissor.top - dst.top) as real / h else 0.0,
         if dst.right > scissor.right then (dst.right - scissor.right) as real / w else 0.0,
         if dst.bottom > scissor.bottom then (dst.bottom - scissor.bottom) as real / h else 0.0)
  }

  function ClippedDst(dst: Rect, scissor: Rect): Rect {
    Rect(Max(dst.left, scissor.left), Max(dst.top, scissor.top),
         Min(dst.right, scissor.right), Min(dst.bottom, scissor.bottom))
  }

  function CutPixels(extent: int, ratio: real): int {
    Round(extent as real * ratio)
  }

  function CutCrop(crop: Rect, cuts: Cuts): Rect {
    var w, h := crop.Width(), crop.Height();
    Rect(crop.left + CutPixels(w, cuts.left), crop.top + CutPixels(h, cuts.top),
         crop.right - CutPixels(w, cuts.right), crop.bottom - CutPixels(h, cuts.bottom))
  }

  function ClippedCrop(crop: Rect, dst: Rect, scissor: Rect, orient: Transform): Rect
    requires dst.Valid()
  {
    CutCrop(crop, CalcCut(CutRatios(dst, scissor), orient))
  }

  method CalcCutInPlace(c: Cuts, orient: Transform) returns (c': Cuts)
    ensures c' == CalcCut(c, orient)
  {
    var left, top, right, bottom := c.left, c.top, c.right, c.bottom;
    if orient.flipH {
      left, right := right, left;
    }
    if orient.flipV {
      top, bottom := bottom, top;
    }
    if orient.rot90 {
      left, top, right, bottom := top, right, bottom, left;
    }
    c' := Cuts(left, top, right, bottom);
  }

  /** The ratios cut off on each side, and the destination that is left. */
  method CutEdges(dst: Rect, scissor: Rect) returns (cuts: Cuts, dst': Rect)
    requires dst.Valid()
    ensures cuts == CutRatios(dst, scissor) && dst' == ClippedDst(dst, scissor)
  {
    dst' := dst;
    var w, h := dst.Width() as real, dst.Height() as real;
    cuts := Cuts(0.0, 0.0, 0.0, 0.0);
    if dst'.left < scissor.left {
      cuts := cuts.(left := (scissor.left - dst'.left) as real / w);
      dst' := dst'.(left := scissor.left);
    }
    if dst'.right > scissor.right {
      cuts := cuts.(right := (dst'.right - scissor.right) as real / w);
      dst' := dst'.(right := scissor.right);
    }
    if dst'.top < scissor.top {
      cuts := cuts.(top := (scissor.top - dst'.top) as real / h);
      dst' := dst'.(top := scissor.top);
    }
    if dst'.bottom > scissor.bottom {
      cuts := cuts.(bottom := (dst'.bottom - scissor.bottom) as real / h);
      dst' := dst'.(bottom := scissor.bottom);
    }
  }

  /** Clips crop and dst against the scissor. */
  method CalculateCropRects(crop: Rect, dst: Rect, scissor: Rect, orient: Transform)
    returns (crop': Rect, dst': Rect)
    requires dst.Valid()
    ensures crop' == ClippedCrop(crop, dst, scissor, orient)
    ensures dst' == ClippedDst(dst, scissor)
  {
    var cuts;
    cuts, dst' := CutEdges(dst, scissor);
    cuts := CalcCutInPlace(cuts, orient);
    crop' := CutCrop(crop, cuts);
  }

  // ------------------------------------------------------------------ what a layer shows

  /** What a layer shows at a pixel.  `Texel` is one source pixel of a buffer; `Filtered`
      stands for whatever the scaler makes of the whole geometry. */
  datatype Sample =
    | Solid(handle: int)
    | Texel(handle: int, sx: int, sy: int)
    | Filtered(handle: int, crop: Rect, frame: Rect, transform: Transform, at: Point)

  /** Source and destination pixels correspond one to one.  A single flip together with
      ROT_90 is left to `Filtered`: the order of the two is not fixed here. */
  predicate Exact(crop: Rect, frame: Rect, t: Transform) {
    if t.rot90 then
      t.flipH == t.flipV && crop.Width() == frame.Height() && crop.Height() == frame.Width()
    else
      crop.Width() == frame.Width() && crop.Height() == frame.Height()
  }

  function SampleOf(handle: int, crop: Rect, frame: Rect, t: Transform, p: Point): Sample {
    var dx, dy := p.x - frame.left, p.y - frame.top;
    if !Exact(crop, frame, t) then
      Filtered(handle, crop, frame, t, p)
    else if t.rot90 then
      // clockwise quarter turn; with both flips, the counter-clockwise one
      if t.flipH then
        Texel(handle, crop.right - 1 - dy, crop.top + dx)
      else
        Texel(handle, crop.left + dy, crop.bottom - 1 - dx)
    else
      Texel(handle,
            if t.flipH then crop.right - 1 - dx else crop.left + dx,
            if t.flipV then crop.bottom - 1 - dy else crop.top + dy)
  }

  function SampleAt(l: Layer, p: Point): Sample {
    if l.colorFill then Solid(l.handle) else SampleOf(l.handle, l.Crop(), l.frame, l.transform, p)
  }

  // ------------------------------------------------------------------ what a list shows

  datatype Color = Background | Ink(v: int) | Mix(blending: Blending, planeAlpha: int, top: Color, below: Color)

  /** The colours of a buffer or a screen. */
  type Canvas = Point -> Color

  /** One layer drawn over `below`; without blending and plane alpha it hides what is below. */
  function Paint(l: Layer, top: Color, below: Color): Color {
    if l.blending == None && l.planeAlpha == 0xFF then top else Mix(l.blending, l.planeAlpha, top, below)
  }

  function Composite(ls: seq<Layer>, tex: Sample -> int, p: Point): Color {
    if ls == [] then
      Background
    else
      var l := ls[|ls| - 1];
      var below := Composite(ls[..|ls| - 1], tex, p);
      if l.frame.Has(p) then Paint(l, Ink(tex(SampleAt(l, p))), below) else below
  }

  /** One more layer on top. */
  lemma CompositeStep(ls: seq<Layer>, i: nat, tex: Sample -> int, p: Point)
    requires i < |ls|
    ensures Composite(ls[..i + 1], tex, p) ==
      if ls[i].frame.Has(p) then Paint(ls[i], Ink(tex(SampleAt(ls[i], p))), Composite(ls[..i], tex, p))
      else Composite(ls[..i], tex, p)
  {
    assert ls[..i + 1][..i] == ls[..i];
  }

  /** Two lists that agree layer by layer on coverage, drawing mode and texel at a pixel
      show the same colour there. */
  lemma {:induction false} CompositeSame(ls: seq<Layer>, tex: Sample -> int, ls': seq<Layer>, tex': Sample -> int, p: Point)
    requires |ls| == |ls'|
    requires forall i :: 0 <= i < |ls| ==> SameLook(ls[i], tex, ls'[i], tex', p)
    ensures Composite(ls, tex, p) == Composite(ls', tex', p)
  {
    if ls != [] {
      var n := |ls| - 1;
      CompositeSame(ls[..n], tex, ls'[..n], tex', p);
      assert SameLook(ls[n], tex, ls'[n], tex', p);
    }
  }

  ghost predicate SameLook(l: Layer, tex: Sample -> int, l': Layer, tex': Sample -> int, p: Point) {
    && (l.frame.Has(p) <==> l'.frame.Has(p))
    && (l.frame.Has(p) ==>
          && l.blending == l'.blending && l.planeAlpha == l'.planeAlpha
          && tex(SampleAt(l, p)) == tex'(SampleAt(l', p)))
  }

  // ------------------------------------------------------------------ trimming one layer

  /** The layer cut down to `dest`, its crop cut to match. */
  function Trim(l: Layer, dest: Rect, orient: Transform): Layer
    requires l.frame.Valid()
  {
    l.(cropf := ToFRect(ClippedCrop(l.Crop(), l.frame, dest, orient)), frame := ClippedDst(l.frame, dest))
  }

  lemma RatioExact(cut: int, extent: int)
    requires extent > 0
    ensures CutPixels(extent, cut as real / extent as real) == cut
  {
    assert extent as real * (cut as real / extent as real) == cut as real;
  }

  lemma CutRatiosInside(frame: Rect, dest: Rect)
    requires frame.Valid() && dest.Within(frame)
    ensures CutRatios(frame, dest) ==
      Cuts((dest.left - frame.left) as real / frame.Width() as real,
           (dest.top - frame.top) as real / frame.Height() as real,
           (frame.right - dest.right) as real / frame.Width() as real,
           (frame.bottom - dest.bottom) as real / frame.Height() as real)
  {
  }

  /** Cutting a one-to-one layer is exact: the crop moves by the cut itself. */
  lemma ClippedCropExact(crop: Rect, frame: Rect, dest: Rect, t: Transform)
    requires frame.Valid() && Exact(crop, frame, t) && dest.Within(frame)
    ensures
      var l, u, r, b := dest.left - frame.left, dest.top - frame.top,
                        frame.right - dest.right, frame.bottom - dest.bottom;
      ClippedCrop(crop, frame, dest, t) ==
        if t.rot90 then
          if t.flipH then Rect(crop.left + b, crop.top + l, crop.right - u, crop.bottom - r)
          else Rect(crop.left + u, crop.top + r, crop.right - b, crop.bottom - l)
        else
          Rect(crop.left + (if t.flipH then r else l), crop.top + (if t.flipV then b else u),
               crop.right - (if t.flipH then l else r), crop.bottom - (if t.flipV then u else b))
  {
    CutRatiosInside(frame, dest);
    RatioExact(dest.left - frame.left, frame.Width());
    RatioExact(frame.right - dest.right, frame.Width());
    RatioExact(dest.top - frame.top, frame.Height());
    RatioExact(frame.bottom - dest.bottom, frame.Height());
  }

  /** A trimmed one-to-one layer stays one to one and every pixel it keeps still shows the
      source pixel it showed before. */
  lemma TrimKeepsSamples(l: Layer, dest: Rect, orient: Transform, p: Point)
    requires l.frame.Valid() && dest.Within(l.frame)
    requires !l.colorFill ==> orient == l.transform && Exact(l.Crop(), l.frame, l.transform)
    ensures Trim(l, dest, orient).frame == dest
    ensures dest.Has(p) ==> SampleAt(Trim(l, dest, orient), p) == SampleAt(l, p)
    ensures !l.colorFill ==> Exact(Trim(l, dest, orient).Crop(), dest, l.transform)
  {
    if !l.colorFill {
      ClippedCropExact(l.Crop(), l.frame, dest, l.transform);
    }
  }

  /** Clipping against the frame itself cuts nothing. */
  lemma ClippedCropNone(crop: Rect, frame: Rect, t: Transform)
    requires frame.Valid()
    ensures ClippedCrop(crop, frame, frame, t) == crop
  {
    assert CutPixels(crop.Width(), 0.0) == 0 && CutPixels(crop.Height(), 0.0) == 0;
  }
}

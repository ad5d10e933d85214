/** A layer across the two mixers of a split panel: the crop and destination arithmetic of
    configureSplit and sanitizeSourceCrop (hwc_utils.cpp). */
module SplitLayer {
  import opened Rects
  import opened Layers
  import opened Rounding

  // ------------------------------------------------------------------ the two halves

  /** A panel of w by h pixels whose left mixer shows the first `lSplit` columns. */
  datatype Panel = Panel(w: int, h: int, lSplit: int, viewFrame: Rect) {
    predicate Valid() {
      0 < lSplit < w && 0 < h
    }

    function Screen(): Rect {
      Rect(0, 0, w, h)
    }

    function LeftScissor(): Rect {
      GetIntersection(viewFrame, Rect(0, 0, lSplit, h))
    }

    function RightScissor(): Rect {
      GetIntersection(viewFrame, Rect(lSplit, 0, w, h))
    }
  }

  /** Crop and destination of one half, in screen coordinates. */
  datatype Half = Half(crop: Rect, dst: Rect)

  const NO_HALF := Half(ZERO_RECT, ZERO_RECT)

  function Clip(crop: Rect, dst: Rect, scissor: Rect): Half
    requires dst.Valid()
  {
    Half(ClippedCrop(crop, dst, scissor, NO_TRANSFORM), ClippedDst(dst, scissor))
  }

  function LeftHalf(crop: Rect, dst: Rect, panel: Panel): Half
    requires dst.Valid()
  {
    if dst.left < panel.lSplit then Clip(crop, dst, panel.LeftScissor()) else NO_HALF
  }

  function RightHalf(crop: Rect, dst: Rect, panel: Panel): Half
    requires dst.Valid()
  {
    if dst.right > panel.lSplit then Clip(crop, dst, panel.RightScissor()) else NO_HALF
  }

  function EvenFloor(x: int): (r: int)
    ensures r % 2 == 0 && x - 1 <= r <= x
  {
    if x % 2 == 1 then x - 1 else x
  }

  function Evened(c: Rect, yuv: bool): Rect {
    if yuv && c.Width() != 0 then c.(left := EvenFloor(c.left), right := EvenFloor(c.right)) else c
  }

  /** sanitizeSourceCrop: YUV crops start and end at even columns, and a layer in both halves
      has no gap between its crops. */
  function SanitizedCrops(l: Rect, r: Rect, yuv: bool): (Rect, Rect) {
    var l' := Evened(l, yuv);
    var joined := if l.Width() != 0 && r.Width() != 0 then r.(left := l'.right) else r;
    (l', Evened(joined, yuv))
  }

  method SanitizeSourceCrop(cropL: Rect, cropR: Rect, yuv: bool) returns (l: Rect, r: Rect)
    ensures (l, r) == SanitizedCrops(cropL, cropR, yuv)
  {
    l, r := cropL, cropR;
    if l.right - l.left != 0 {
      if yuv {
        l := l.(left := EvenFloor(l.left));
        l := l.(right := EvenFloor(l.right));
      }
      if r.right - r.left != 0 {
        r := r.(left := l.right);
      }
    }
    if r.right - r.left != 0 {
      if yuv {
        r := r.(left := EvenFloor(r.left));
        r := r.(right := EvenFloor(r.right));
      }
    }
  }

  /** With an H-flipped buffer the mixers show the parts of it in the opposite order. */
  function Exchanged(l: Rect, r: Rect): (Rect, Rect) {
    (l.(left := l.left + r.Width(), right := r.right), r.(left := l.left, right := l.left + r.Width()))
  }

  /** The flips left to the pipes, and whether the rotator has been at work. */
  function SplitCrops(crop: Rect, dst: Rect, panel: Panel, yuv: bool, flipH: bool, rotated: bool): (Rect, Rect)
    requires dst.Valid()
  {
    var s := SanitizedCrops(LeftHalf(crop, dst, panel).crop, RightHalf(crop, dst, panel).crop, yuv);
    if flipH && dst.left < panel.lSplit && dst.right > panel.lSplit && !rotated then Exchanged(s.0, s.1) else s
  }

  function OnRightMixer(r: Rect, panel: Panel): Rect {
    r.(left := r.left - panel.lSplit, right := r.right - panel.lSplit)
  }

  method ClipHalf(crop: Rect, dst: Rect, viewFrame: Rect, mixer: Rect) returns (half: Half)
    requires dst.Valid()
    ensures half == Clip(crop, dst, GetIntersection(viewFrame, mixer))
  {
    var scissor := GetIntersection(viewFrame, mixer);
    var c, d := CalculateCropRects(crop, dst, scissor, NO_TRANSFORM);
    half := Half(c, d);
  }

  method ExchangeCrops(cropL: Rect, cropR: Rect) returns (l: Rect, r: Rect)
    ensures (l, r) == Exchanged(cropL, cropR)
  {
    var newRLeft := cropL.left;
    var newRRight := newRLeft + (cropR.right - cropR.left);
    var newLLeft := newRRight;
    var newLRight := cropR.right;
    l := cropL.(left := newLLeft, right := newLRight);
    r := cropR.(left := newRLeft, right := newRRight);
  }

  /** What configureSplit hands to the two pipes; the right mixer counts its columns from zero. */
  method ConfigureSplit(crop: Rect, dst: Rect, panel: Panel, yuv: bool, flipH: bool, rotated: bool)
    returns (left: Half, right: Half)
    requires dst.Valid()
    ensures (left.crop, right.crop) == SplitCrops(crop, dst, panel, yuv, flipH, rotated)
    ensures left.dst == LeftHalf(crop, dst, panel).dst
    ensures right.dst == OnRightMixer(RightHalf(crop, dst, panel).dst, panel)
  {
    left, right := NO_HALF, NO_HALF;
    if dst.left < panel.lSplit {
      left := ClipHalf(crop, dst, panel.viewFrame, Rect(0, 0, panel.lSplit, panel.h));
    }
    if dst.right > panel.lSplit {
      right := ClipHalf(crop, dst, panel.viewFrame, Rect(panel.lSplit, 0, panel.w, panel.h));
    }
    assert left == LeftHalf(crop, dst, panel) && right == RightHalf(crop, dst, panel);
    var cropL, cropR := SanitizeSourceCrop(left.crop, right.crop, yuv);
    if flipH && dst.left < panel.lSplit && dst.right > panel.lSplit && !rotated {
      cropL, cropR := ExchangeCrops(cropL, cropR);
    }
    var dstR := OnRightMixer(right.dst, panel);
    left, right := Half(cropL, left.dst), Half(cropR, dstR);
  }

  // ------------------------------------------------------------------ rounding at the seam

  /** A layer in both halves, on a panel whose view frame is the whole screen. */
  predicate Across(dst: Rect, panel: Panel) {
    && panel.Valid() && panel.viewFrame == panel.Screen()
    && dst.Valid() && dst.left < panel.lSplit < dst.right
  }

  /** The source column under the seam, before any rounding, is half way between two. */
  predicate SeamHalfWay(crop: Rect, dst: Rect, panel: Panel)
    requires dst.Valid()
  {
    HalfWay(crop.Width() * (panel.lSplit - dst.left), dst.Width())
  }

  /** The source pixels cut off at the seam, from the two sides. */
  lemma SeamPixels(crop: Rect, dst: Rect, panel: Panel)
    requires Across(dst, panel) && crop.Width() >= 0
    ensures
      CutPixels(crop.Width(), (panel.lSplit - dst.left) as real / dst.Width() as real) +
      CutPixels(crop.Width(), (dst.right - panel.lSplit) as real / dst.Width() as real) ==
      crop.Width() + (if SeamHalfWay(crop, dst, panel) then 1 else 0)
  {
    SeamParts(crop.Width(), panel.lSplit - dst.left, dst.right - panel.lSplit, dst.Width());
  }

  lemma SeamParts(extent: int, a: int, b: int, total: int)
    requires extent >= 0 && a > 0 && b > 0 && total == a + b
    ensures
      CutPixels(extent, a as real / total as real) + CutPixels(extent, b as real / total as real) ==
      extent + (if HalfWay(extent * a, total) then 1 else 0)
  {
    RatioPixels(extent, a, total);
    RatioPixels(extent, b, total);
    Distribute(extent, a, b);
    PixelsSum(extent, extent * a, extent * b, total,
              CutPixels(extent, a as real / total as real), CutPixels(extent, b as real / total as real));
  }

  lemma Distribute(x: int, a: int, b: int)
    ensures x * a + x * b == x * (a + b)
  {
  }

  lemma SideCuts(dst: Rect, panel: Panel)
    requires Across(dst, panel)
    ensures
      var w := dst.Width() as real;
      var l, r, whole := CutRatios(dst, panel.LeftScissor()), CutRatios(dst, panel.RightScissor()), CutRatios(dst, panel.Screen());
      && l == whole.(right := (dst.right - panel.lSplit) as real / w)
      && r == whole.(left := (panel.lSplit - dst.left) as real / w)
  {
    assert panel.LeftScissor() == Rect(0, 0, panel.lSplit, panel.h);
    assert panel.RightScissor() == Rect(panel.lSplit, 0, panel.w, panel.h);
  }

  lemma CutSides(crop: Rect, c: Cuts, x: real)
    ensures CutCrop(crop, c.(right := x)) == CutCrop(crop, c).(right := crop.right - CutPixels(crop.Width(), x))
    ensures CutCrop(crop, c.(left := x)) == CutCrop(crop, c).(left := crop.left + CutPixels(crop.Width(), x))
  {
  }

  /** Clipped separately, the halves meet at the seam on the screen and have the outer edges of
      the layer clipped to the whole screen; in the source there may be a gap of one column, and
      there is one exactly when the seam falls half way between two columns. */
  lemma HalvesMeet(crop: Rect, dst: Rect, panel: Panel)
    requires Across(dst, panel) && crop.Width() >= 0
    ensures
      var l, r, whole := LeftHalf(crop, dst, panel), RightHalf(crop, dst, panel), Clip(crop, dst, panel.Screen());
      && l.dst == whole.dst.(right := panel.lSplit) && r.dst == whole.dst.(left := panel.lSplit)
      && l.crop == whole.crop.(right := l.crop.right) && r.crop == whole.crop.(left := r.crop.left)
      && r.crop.left - l.crop.right == if SeamHalfWay(crop, dst, panel) then 1 else 0
  {
    SideCuts(dst, panel);
    SeamPixels(crop, dst, panel);
    var whole := CutRatios(dst, panel.Screen());
    CutSides(crop, whole, (dst.right - panel.lSplit) as real / dst.Width() as real);
    CutSides(crop, whole, (panel.lSplit - dst.left) as real / dst.Width() as real);
    assert panel.LeftScissor() == Rect(0, 0, panel.lSplit, panel.h);
    assert panel.RightScissor() == Rect(panel.lSplit, 0, panel.w, panel.h);
  }

  // ------------------------------------------------------------------ what the pipes are given

  /** Two crops side by side, `first` before `second`, that make up the columns of `whole`. */
  predicate Tile(first: Rect, second: Rect, left: int, right: int) {
    first.left == left && first.right == second.left && second.right == right
  }

  /** sanitizeSourceCrop for crops of any two halves. */
  lemma SanitizedTile(l: Rect, r: Rect, yuv: bool)
    requires l.Width() > 0 && r.Width() > 0 && l.right <= r.left
    ensures
      var out := SanitizedCrops(l, r, yuv);
      && Tile(out.0, out.1, if yuv then EvenFloor(l.left) else l.left, if yuv then EvenFloor(r.right) else r.right)
      && (yuv ==> out.0.left % 2 == out.0.right % 2 == out.1.left % 2 == out.1.right % 2 == 0)
  {
  }

  /** The exchange keeps each half's width. */
  lemma ExchangedTile(l: Rect, r: Rect)
    requires l.right == r.left
    ensures
      var out := Exchanged(l, r);
      && Tile(out.1, out.0, l.left, r.right)
      && out.0.Width() == l.Width() && out.1.Width() == r.Width()
  {
  }

  /** Once sanitized the crops tile the clipped crop: no gap and no overlap whatever the
      rounding, for YUV up to even columns.  In an H-flipped buffer the right half comes first;
      the exchange leaves each its width. */
  lemma CropsTile(crop: Rect, dst: Rect, panel: Panel, yuv: bool, flipH: bool, rotated: bool)
    requires Across(dst, panel) && crop.Width() >= 0
    requires LeftHalf(crop, dst, panel).crop.Width() > 0 && RightHalf(crop, dst, panel).crop.Width() > 0
    ensures
      var whole := ClippedCrop(crop, dst, panel.Screen(), NO_TRANSFORM);
      var left := if yuv then EvenFloor(whole.left) else whole.left;
      var right := if yuv then EvenFloor(whole.right) else whole.right;
      var plain, out := SplitCrops(crop, dst, panel, yuv, false, rotated), SplitCrops(crop, dst, panel, yuv, flipH, rotated);
      && (if flipH && !rotated then Tile(out.1, out.0, left, right) else Tile(out.0, out.1, left, right))
      && out.0.Width() == plain.0.Width() && out.1.Width() == plain.1.Width()
      && (yuv ==> out.0.left % 2 == out.0.right % 2 == out.1.left % 2 == out.1.right % 2 == 0)
  {
    HalvesMeet(crop, dst, panel);
    var l, r := LeftHalf(crop, dst, panel).crop, RightHalf(crop, dst, panel).crop;
    SanitizedTile(l, r, yuv);
    var s := SanitizedCrops(l, r, yuv);
    ExchangedTile(s.0, s.1);
    EvenWidth(s.0, s.1, yuv);
  }

  lemma EvenWidth(l: Rect, r: Rect, yuv: bool)
    ensures yuv && l.left % 2 == 0 && r.right % 2 == 0 && r.left % 2 == 0 ==> (l.left + r.Width()) % 2 == 0
  {
  }

  /** When a half has no source columns the crops are left as they are, so that (without evening)
      they abut exactly when the seam is not half way. */
  lemma EmptyHalfKeepsGap(crop: Rect, dst: Rect, panel: Panel)
    requires Across(dst, panel) && crop.Width() >= 0
    ensures
      var l, r := LeftHalf(crop, dst, panel).crop, RightHalf(crop, dst, panel).crop;
      var out := SplitCrops(crop, dst, panel, false, false, false);
      out.0.right == out.1.left <==>
      (l.Width() != 0 && r.Width() != 0) || !SeamHalfWay(crop, dst, panel)
  {
    HalvesMeet(crop, dst, panel);
  }

  // ------------------------------------------------------------------ the picture

  /** Even columns at every edge, as YUV buffers need them. */
  predicate EvenColumns(crop: Rect, dst: Rect, panel: Panel) {
    crop.left % 2 == 0 && crop.right % 2 == 0 && (panel.lSplit - dst.left) % 2 == 0
  }

  lemma ExactHalf(crop: Rect, dst: Rect, scissor: Rect, part: Rect)
    requires dst.Valid() && Exact(crop, dst, NO_TRANSFORM) && part.Within(dst) && part == ClippedDst(dst, scissor)
    ensures
      ClippedCrop(crop, dst, scissor, NO_TRANSFORM) ==
      Rect(crop.left + (part.left - dst.left), crop.top + (part.top - dst.top),
           crop.right - (dst.right - part.right), crop.bottom - (dst.bottom - part.bottom))
  {
    ClippedCropExact(crop, dst, part, NO_TRANSFORM);
    SameCuts(dst, scissor, part);
  }

  /** For a one-to-one layer: the crops by their columns. */
  lemma ExactCrops(crop: Rect, dst: Rect, panel: Panel, yuv: bool, flipH: bool)
    requires Across(dst, panel) && dst.Within(panel.Screen()) && Exact(crop, dst, NO_TRANSFORM)
    requires yuv ==> EvenColumns(crop, dst, panel)
    ensures
      var out, k := SplitCrops(crop, dst, panel, yuv, flipH, false), panel.lSplit - dst.left;
      if flipH then
        out == (crop.(left := crop.right - k), crop.(right := crop.right - k))
      else
        out == (crop.(right := crop.left + k), crop.(left := crop.left + k))
  {
    assert panel.LeftScissor() == Rect(0, 0, panel.lSplit, panel.h);
    assert panel.RightScissor() == Rect(panel.lSplit, 0, panel.w, panel.h);
    ExactHalf(crop, dst, panel.LeftScissor(), dst.(right := panel.lSplit));
    ExactHalf(crop, dst, panel.RightScissor(), dst.(left := panel.lSplit));
    var k := panel.lSplit - dst.left;
    assert LeftHalf(crop, dst, panel).crop == crop.(right := crop.left + k);
    assert RightHalf(crop, dst, panel).crop == crop.(left := crop.left + k);
    ExactJoin(crop, k, yuv);
  }

  /** Crops that abut and are even already are not changed. */
  lemma ExactJoin(crop: Rect, k: int, yuv: bool)
    requires 0 < k < crop.Width() && (yuv ==> crop.left % 2 == 0 && crop.right % 2 == 0 && k % 2 == 0)
    ensures
      var l, r := crop.(right := crop.left + k), crop.(left := crop.left + k);
      SanitizedCrops(l, r, yuv) == (l, r) && Exchanged(l, r) == (crop.(left := crop.right - k), crop.(right := crop.right - k))
  {
  }

  /** What is cut depends on the scissor only as far as it reaches into the layer. */
  lemma SameCuts(dst: Rect, scissor: Rect, part: Rect)
    requires dst.Valid() && part == ClippedDst(dst, scissor)
    ensures CutRatios(dst, scissor) == CutRatios(dst, part)
  {
  }

  /** Two parts of a one-to-one layer, cut at column k, with the crops in the order of the flip. */
  lemma PartsKeepSamples(handle: int, crop: Rect, dst: Rect, k: int, t: Transform, p: Point)
    requires 0 < k < dst.Width() && !t.rot90 && Exact(crop, dst, t)
    ensures
      var l, r := dst.(right := dst.left + k), dst.(left := dst.left + k);
      var cropL := if t.flipH then crop.(left := crop.right - k) else crop.(right := crop.left + k);
      var cropR := if t.flipH then crop.(right := crop.right - k) else crop.(left := crop.left + k);
      && SampleOf(handle, cropL, l, t, p) == SampleOf(handle, crop, dst, t, p)
      && SampleOf(handle, cropR, r, t, p) == SampleOf(handle, crop, dst, t, p)
  {
  }

  lemma PartsOnScreen(crop: Rect, dst: Rect, panel: Panel)
    requires Across(dst, panel) && dst.Within(panel.Screen())
    ensures LeftHalf(crop, dst, panel).dst == dst.(right := panel.lSplit)
    ensures RightHalf(crop, dst, panel).dst == dst.(left := panel.lSplit)
  {
    assert panel.LeftScissor() == Rect(0, 0, panel.lSplit, panel.h);
    assert panel.RightScissor() == Rect(panel.lSplit, 0, panel.w, panel.h);
  }

  /** The picture is not changed by splitting a one-to-one layer, flipped or not: at every pixel,
      the half that covers it shows the source pixel that the whole layer showed. */
  lemma SplitKeepsSamples(handle: int, crop: Rect, dst: Rect, panel: Panel, yuv: bool, t: Transform, p: Point)
    requires Across(dst, panel) && dst.Within(panel.Screen()) && !t.rot90 && Exact(crop, dst, t) && dst.Has(p)
    requires yuv ==> EvenColumns(crop, dst, panel)
    ensures
      var out := SplitCrops(crop, dst, panel, yuv, t.flipH, false);
      var l, r := LeftHalf(crop, dst, panel).dst, RightHalf(crop, dst, panel).dst;
      && (l.Has(p) <==> !r.Has(p))
      && (l.Has(p) ==> SampleOf(handle, out.0, l, t, p) == SampleOf(handle, crop, dst, t, p))
      && (r.Has(p) ==> SampleOf(handle, out.1, r, t, p) == SampleOf(handle, crop, dst, t, p))
  {
    ExactCrops(crop, dst, panel, yuv, t.flipH);
    PartsOnScreen(crop, dst, panel);
    PartsKeepSamples(handle, crop, dst, panel.lSplit - dst.left, t, p);
  }

  /** What the pipes are told lies on their mixers, whatever the layer: the right one has the columns
      from lSplit on and counts them from zero. */
  lemma OnTheMixers(crop: Rect, dst: Rect, panel: Panel)
    requires Across(dst, panel)
    ensures LeftHalf(crop, dst, panel).dst.Within(Rect(0, 0, panel.lSplit, panel.h))
    ensures OnRightMixer(RightHalf(crop, dst, panel).dst, panel).Within(Rect(0, 0, panel.w - panel.lSplit, panel.h))
  {
    assert panel.LeftScissor() == Rect(0, 0, panel.lSplit, panel.h);
    assert panel.RightScissor() == Rect(panel.lSplit, 0, panel.w, panel.h);
  }

  lemma MovedSample(handle: int, crop: Rect, dst: Rect, panel: Panel, t: Transform, q: Point)
    requires Exact(crop, dst, t)
    ensures
      var p := Point(q.x - panel.lSplit, q.y);
      && (OnRightMixer(dst, panel).Has(p) <==> dst.Has(q))
      && SampleOf(handle, crop, OnRightMixer(dst, panel), t, p) == SampleOf(handle, crop, dst, t, q)
  {
  }

  /** The right mixer has the columns of the layer from lSplit on, and its column x shows what the
      whole layer would have shown at lSplit + x. */
  lemma RightMixerShows(handle: int, crop: Rect, dst: Rect, panel: Panel, yuv: bool, t: Transform, q: Point)
    requires Across(dst, panel) && dst.Within(panel.Screen()) && !t.rot90 && Exact(crop, dst, t) && dst.Has(q)
    requires yuv ==> EvenColumns(crop, dst, panel)
    ensures
      var cropR := SplitCrops(crop, dst, panel, yuv, t.flipH, false).1;
      var r, p := OnRightMixer(RightHalf(crop, dst, panel).dst, panel), Point(q.x - panel.lSplit, q.y);
      (r.Has(p) <==> q.x >= panel.lSplit) && SampleOf(handle, cropR, r, t, p) == SampleOf(handle, crop, dst, t, q)
  {
    ExactCrops(crop, dst, panel, yuv, t.flipH);
    PartsOnScreen(crop, dst, panel);
    RightPartShows(handle, crop, dst, panel, t, q);
  }

  lemma RightPartShows(handle: int, crop: Rect, dst: Rect, panel: Panel, t: Transform, q: Point)
    requires dst.left < panel.lSplit < dst.right && !t.rot90 && Exact(crop, dst, t) && dst.Has(q)
    ensures
      var k := panel.lSplit - dst.left;
      var cropR := if t.flipH then crop.(right := crop.right - k) else crop.(left := crop.left + k);
      var r, p := OnRightMixer(dst.(left := panel.lSplit), panel), Point(q.x - panel.lSplit, q.y);
      (r.Has(p) <==> q.x >= panel.lSplit) && SampleOf(handle, cropR, r, t, p) == SampleOf(handle, crop, dst, t, q)
  {
    var k := panel.lSplit - dst.left;
    PartsKeepSamples(handle, crop, dst, k, t, q);
    MovedSample(handle, if t.flipH then crop.(right := crop.right - k) else crop.(left := crop.left + k),
                dst.(left := panel.lSplit), panel, t, q);
  }

  /** A layer in one half only is left to one pipe, clipped to the screen; its crop is evened for YUV. */
  lemma OneSided(crop: Rect, dst: Rect, panel: Panel, yuv: bool, flipH: bool, rotated: bool)
    requires panel.Valid() && panel.viewFrame == panel.Screen() && dst.Valid()
    ensures
      var whole, out := Clip(crop, dst, panel.Screen()), SplitCrops(crop, dst, panel, yuv, flipH, rotated);
      && (dst.right <= panel.lSplit ==>
            RightHalf(crop, dst, panel) == NO_HALF && LeftHalf(crop, dst, panel) == whole &&
            out == (Evened(whole.crop, yuv), ZERO_RECT))
      && (panel.lSplit <= dst.left ==>
            LeftHalf(crop, dst, panel) == NO_HALF && RightHalf(crop, dst, panel) == whole &&
            out == (ZERO_RECT, Evened(whole.crop, yuv)))
  {
    assert panel.LeftScissor() == Rect(0, 0, panel.lSplit, panel.h);
    assert panel.RightScissor() == Rect(panel.lSplit, 0, panel.w, panel.h);
  }
}

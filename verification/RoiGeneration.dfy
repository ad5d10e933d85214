/** Building the region of interest of a partial update (hwc_mdpcomp.cpp, hwc_utils.cpp):
    collect what changed, align it to the panel, drop what is hidden. */
module RoiGeneration {
  import opened Rects
  import opened Layers
  import opened Frames
  import opened RoiDrop

  // ------------------------------------------------------------------ dirty rectangles

  /** A layer with the damage SurfaceFlinger reports for it, in source coordinates. */
  datatype Update = Update(layer: Layer, damage: seq<Rect>, yuv: bool) {
    predicate Updating() {
      |damage| == 0 || damage[0].Valid()
    }

    function OffsetX(): int {
      layer.frame.left - layer.Crop().left
    }

    function OffsetY(): int {
      layer.frame.top - layer.Crop().top
    }

    /** The pixel of the buffer that the layer shows at p lies in a damage rectangle; of a scaled
        layer every pixel may. */
    predicate Damaged(p: Point) {
      layer.frame.Has(p) && (|damage| == 0 || Reported(p))
    }

    predicate Reported(p: Point) {
      var s := SampleOf(layer.handle, layer.Crop(), layer.frame, layer.transform, p);
      !s.Texel? || exists i :: 0 <= i < |damage| && damage[i].Has(Point(s.sx, s.sy))
    }
  }

  /** Damage maps one to one onto the screen. */
  predicate Plain(u: Update) {
    !u.layer.NeedsScaling() && u.layer.transform == NO_TRANSFORM
  }

  function DamageUnion(damage: seq<Rect>, n: nat, xOff: int, yOff: int, scissor: Rect): Rect
    requires n <= |damage|
  {
    if n == 0 then
      ZERO_RECT
    else
      var dirty := DamageUnion(damage, n - 1, xOff, yOff, scissor);
      var part := GetIntersection(MoveRect(damage[n - 1], xOff, yOff), scissor);
      if part.Valid() then GetUnion(part, dirty) else dirty
  }

  function DirtyRect(u: Update, scissor: Rect): Rect {
    if |u.damage| == 0 then
      GetIntersection(u.layer.frame, scissor)
    else
      DamageUnion(u.damage, |u.damage|, u.OffsetX(), u.OffsetY(), scissor)
  }

  method CalculateDirtyRect(u: Update, scissor: Rect) returns (dirtyRect: Rect)
    ensures dirtyRect == DirtyRect(u, scissor)
  {
    var xOff, yOff := u.OffsetX(), u.OffsetY();
    dirtyRect := ZERO_RECT;
    if |u.damage| == 0 {
      dirtyRect := GetIntersection(u.layer.frame, scissor);
    } else {
      for i := 0 to |u.damage|
        invariant dirtyRect == DamageUnion(u.damage, i, xOff, yOff, scissor)
      {
        var updatingRect := MoveRect(u.damage[i], xOff, yOff);
        var intersect := GetIntersection(updatingRect, scissor);
        if intersect.Valid() {
          dirtyRect := GetUnion(intersect, dirtyRect);
        }
      }
    }
  }

  lemma {:induction false} DamageUnionCovers(damage: seq<Rect>, n: nat, xOff: int, yOff: int, scissor: Rect, i: nat, p: Point)
    requires i < n <= |damage| && scissor.Has(p)
    requires damage[i].Has(Point(p.x - xOff, p.y - yOff))
    ensures DamageUnion(damage, n, xOff, yOff, scissor).Has(p)
  {
    var moved := MoveRect(damage[n - 1], xOff, yOff);
    if i == n - 1 {
      MoveRectHas(damage[i], xOff, yOff, p);
      assert GetIntersection(moved, scissor).Has(p);
    } else {
      DamageUnionCovers(damage, n - 1, xOff, yOff, scissor, i, p);
    }
  }

  lemma {:induction false} DamageUnionWithin(damage: seq<Rect>, n: nat, xOff: int, yOff: int, scissor: Rect)
    requires n <= |damage|
    ensures
      var d := DamageUnion(damage, n, xOff, yOff, scissor);
      d == ZERO_RECT || (d.Valid() && d.Within(scissor))
  {
    if n > 0 {
      DamageUnionWithin(damage, n - 1, xOff, yOff, scissor);
    }
  }

  /** For a plain layer the offset takes a screen pixel to the buffer pixel that it shows. */
  lemma DamagedByOffset(u: Update, p: Point)
    requires Plain(u)
    ensures u.Reported(p) <==> exists i :: 0 <= i < |u.damage| && u.damage[i].Has(Point(p.x - u.OffsetX(), p.y - u.OffsetY()))
  {
    var l := u.layer;
    assert SampleOf(l.handle, l.Crop(), l.frame, l.transform, p) == Texel(l.handle, p.x - u.OffsetX(), p.y - u.OffsetY());
  }

  /** What a plain layer's damage says of p, on the layer or not; without any it is the whole frame. */
  predicate Touched(u: Update, p: Point) {
    if u.damage == [] then u.layer.frame.Has(p) else u.Reported(p)
  }

  /** The dirty rectangle of a plain layer holds every damaged pixel that is inside the scissor. */
  lemma DirtyRectCovers(u: Update, scissor: Rect, p: Point)
    requires Plain(u) && scissor.Has(p) && Touched(u, p)
    ensures DirtyRect(u, scissor).Has(p)
  {
    var xOff, yOff := u.OffsetX(), u.OffsetY();
    if |u.damage| > 0 {
      DamagedByOffset(u, p);
      var i :| 0 <= i < |u.damage| && u.damage[i].Has(Point(p.x - xOff, p.y - yOff));
      DamageUnionCovers(u.damage, |u.damage|, xOff, yOff, scissor, i, p);
    }
  }

  lemma DirtyRectWithin(u: Update, scissor: Rect)
    ensures
      var d := DirtyRect(u, scissor);
      d == ZERO_RECT || (d.Valid() && d.Within(scissor))
  {
    DamageUnionWithin(u.damage, |u.damage|, u.OffsetX(), u.OffsetY(), scissor);
  }

  /** A rectangle with pixels lies within another one that has all of them. */
  lemma WithinByPixels(r: Rect, bound: Rect)
    requires r.Valid() && forall p: Point :: r.Has(p) ==> bound.Has(p)
    ensures r.Within(bound)
  {
    assert r.Has(Point(r.left, r.top)) && r.Has(Point(r.right - 1, r.bottom - 1));
  }

  lemma {:induction false} DamageUnionLeast(damage: seq<Rect>, n: nat, xOff: int, yOff: int, scissor: Rect, bound: Rect)
    requires n <= |damage|
    requires forall i, p: Point :: 0 <= i < n && scissor.Has(p) && damage[i].Has(Point(p.x - xOff, p.y - yOff)) ==> bound.Has(p)
    ensures DamageUnion(damage, n, xOff, yOff, scissor).Valid() ==> DamageUnion(damage, n, xOff, yOff, scissor).Within(bound)
  {
    if n > 0 {
      DamageUnionLeast(damage, n - 1, xOff, yOff, scissor, bound);
      var part := GetIntersection(MoveRect(damage[n - 1], xOff, yOff), scissor);
      if part.Valid() {
        forall p: Point | part.Has(p) ensures bound.Has(p) {
          MoveRectHas(damage[n - 1], xOff, yOff, p);
        }
        WithinByPixels(part, bound);
      }
    }
  }

  /** It is the least rectangle that does: every one that holds what is reported holds it. */
  lemma DirtyRectLeast(u: Update, scissor: Rect, bound: Rect)
    requires Plain(u)
    requires forall p: Point :: scissor.Has(p) && Touched(u, p) ==> bound.Has(p)
    ensures DirtyRect(u, scissor).Valid() ==> DirtyRect(u, scissor).Within(bound)
  {
    if u.damage == [] {
      var part := GetIntersection(u.layer.frame, scissor);
      if part.Valid() {
        forall p: Point | part.Has(p) ensures bound.Has(p) {
          assert Touched(u, p);
        }
        WithinByPixels(part, bound);
      }
    } else {
      forall i, p: Point | 0 <= i < |u.damage| && scissor.Has(p) && u.damage[i].Has(Point(p.x - u.OffsetX(), p.y - u.OffsetY()))
        ensures bound.Has(p)
      {
        DamagedByOffset(u, p);
        assert Touched(u, p);
      }
      DamageUnionLeast(u.damage, |u.damage|, u.OffsetX(), u.OffsetY(), scissor, bound);
    }
  }

  // ------------------------------------------------------------------ panel alignment

  /** Panel restrictions along one axis; 0 switches an alignment off. */
  datatype Axis = Axis(lowAlign: nat, extentAlign: nat, minExtent: nat)

  /** C's %: the sign follows the dividend. */
  function CMod(a: int, b: int): int
    requires b > 0
  {
    if a >= 0 then a % b else -((-a) % b)
  }

  function AlignLow(low: int, a: nat): int {
    if a == 0 then low else low - CMod(low, a)
  }

  function RoundUp(n: int, a: int): int
    requires a > 0 && n >= 0
  {
    a * ((n + (a - 1)) / a)
  }

  datatype Span = Span(low: int, high: int)

  function Widen(s: Span, boundHigh: int, minExtent: nat): Span {
    if s.high - s.low < minExtent then
      if s.low + minExtent > boundHigh then Span(s.high - minExtent, s.high)
      else Span(s.low, s.low + minExtent)
    else s
  }

  function AlignSpan(s: Span, boundHigh: int, axis: Axis): Span
    requires s.high >= AlignLow(s.low, axis.lowAlign)
  {
    var low := AlignLow(s.low, axis.lowAlign);
    if axis.extentAlign == 0 then
      Span(low, s.high)
    else
      var extent := RoundUp(s.high - low, axis.extentAlign);
      if low + extent > boundHigh then
        Span(AlignLow(boundHigh - extent, axis.lowAlign), boundHigh)
      else
        Span(low, low + extent)
  }

  lemma RoundUpBounds(n: int, a: int)
    requires a > 0 && n >= 0
    ensures n <= RoundUp(n, a) < n + a
    ensures RoundUp(n, a) % a == 0
  {
    var q := (n + (a - 1)) / a;
    assert n + (a - 1) == a * q + (n + (a - 1)) % a;
    MultipleMod(a, q, a);
  }

  lemma MultipleMod(a: int, q: int, d: int)
    requires d > 0 && a % d == 0
    ensures (a * q) % d == 0
  {
    var k := a / d;
    assert a == k * d;
    assert a * q == (k * q) * d;
    ExactMultiple(k * q, d);
  }

  lemma ProductSize(x: int, d: int)
    requires d > 0
    ensures x >= 1 ==> x * d >= d
    ensures x == 0 ==> x * d == 0
    ensures x <= -1 ==> x * d <= -d
  {
  }

  /** A multiple of a that is above -a is not negative. */
  lemma MultipleNotNegative(d: int, a: int)
    requires a > 0 && d % a == 0 && d > -a
    ensures d >= 0
  {
    assert d == (d / a) * a;
    ProductSize(d / a, a);
  }

  lemma ExactMultiple(k: int, d: int)
    requires d > 0
    ensures (k * d) % d == 0
  {
    var r := (k * d) % d;
    var m := (k * d) / d;
    assert k * d == m * d + r;
    assert r == (k - m) * d;
    ProductSize(k - m, d);
  }

  lemma ModDifference(a: int, b: int, d: int)
    requires d > 0 && a % d == 0 && b % d == 0
    ensures (a - b) % d == 0
  {
    var x, y := a / d, b / d;
    assert a == x * d && b == y * d;
    assert a - b == (x - y) * d;
    ExactMultiple(x - y, d);
  }

  lemma AlignLowBounds(low: int, a: nat)
    ensures low >= 0 ==> 0 <= AlignLow(low, a) <= low
    ensures low < 0 ==> low <= AlignLow(low, a) <= 0
    ensures a > 0 ==> AlignLow(low, a) % a == 0
  {
    if a > 0 {
      var b := if low >= 0 then low else -low;
      assert b == (b / a) * a + b % a;
      ExactMultiple(b / a, a);
      ExactMultiple(-(b / a), a);
      assert (-(b / a)) * a == -((b / a) * a);
      ProductSize(b / a, a);
    }
  }

  /** Aligning down never passes an aligned lower bound. */
  lemma AlignLowKeepsBound(low: int, bound: int, a: nat)
    requires 0 <= bound <= low && (a > 0 ==> bound % a == 0)
    ensures bound <= AlignLow(low, a)
  {
    if a > 0 {
      AlignLowBounds(low, a);
      ModDifference(AlignLow(low, a), bound, a);
      MultipleNotNegative(AlignLow(low, a) - bound, a);
    }
  }

  function SanitizeSpan(s: Span, boundHigh: int, axis: Axis): Span
    requires 0 <= s.low < s.high
  {
    var w := Widen(s, boundHigh, axis.minExtent);
    AlignLowBounds(w.low, axis.lowAlign);
    AlignSpan(w, boundHigh, axis)
  }

  /** Whatever the restrictions are, sanitizing never loses a part of the ROI. */
  lemma SanitizeSpanContains(s: Span, boundHigh: int, axis: Axis)
    requires 0 <= s.low < s.high <= boundHigh
    ensures SanitizeSpan(s, boundHigh, axis).low <= s.low && s.high <= SanitizeSpan(s, boundHigh, axis).high
  {
    var w := Widen(s, boundHigh, axis.minExtent);
    var low := AlignLow(w.low, axis.lowAlign);
    AlignLowBounds(w.low, axis.lowAlign);
    if axis.extentAlign > 0 {
      var extent := RoundUp(w.high - low, axis.extentAlign);
      RoundUpBounds(w.high - low, axis.extentAlign);
      AlignLowBounds(boundHigh - extent, axis.lowAlign);
    }
  }

  /** The restrictions fit a boundary. */
  predicate Fits(axis: Axis, bound: Span) {
    && 0 <= bound.low < bound.high
    && 2 * axis.minExtent <= bound.high - bound.low
    && (axis.lowAlign > 0 ==> bound.low % axis.lowAlign == 0 && bound.high % axis.lowAlign == 0)
    && (axis.lowAlign > 0 && axis.extentAlign > 0 ==> axis.extentAlign % axis.lowAlign == 0)
    && (axis.extentAlign > 0 ==> (bound.high - bound.low) % axis.extentAlign == 0)
  }

  predicate Sanitized(s: Span, bound: Span, axis: Axis) {
    && bound.low <= s.low && s.high <= bound.high
    && s.high - s.low >= axis.minExtent
    && (axis.lowAlign > 0 ==> s.low % axis.lowAlign == 0)
    && (axis.extentAlign > 0 ==> (s.high - s.low) % axis.extentAlign == 0)
  }

  /** Rounding an extent up cannot pass a bound that is itself aligned. */
  lemma RoundUpWithin(n: int, a: int, bound: int)
    requires a > 0 && 0 <= n <= bound && bound % a == 0
    ensures RoundUp(n, a) <= bound
  {
    RoundUpBounds(n, a);
    ModDifference(bound, RoundUp(n, a), a);
    MultipleNotNegative(bound - RoundUp(n, a), a);
  }

  lemma SanitizeSpanFits(s: Span, bound: Span, axis: Axis)
    requires Fits(axis, bound)
    requires bound.low <= s.low < s.high <= bound.high
    ensures Sanitized(SanitizeSpan(s, bound.high, axis), bound, axis)
  {
    var w := Widen(s, bound.high, axis.minExtent);
    var low := AlignLow(w.low, axis.lowAlign);
    AlignLowBounds(w.low, axis.lowAlign);
    AlignLowKeepsBound(w.low, bound.low, axis.lowAlign);
    if axis.extentAlign > 0 {
      var extent := RoundUp(w.high - low, axis.extentAlign);
      RoundUpBounds(w.high - low, axis.extentAlign);
      RoundUpWithin(w.high - low, axis.extentAlign, bound.high - bound.low);
      if low + extent > bound.high && axis.lowAlign > 0 {
        MultipleMod(axis.extentAlign, (w.high - low + (axis.extentAlign - 1)) / axis.extentAlign, axis.lowAlign);
        ModDifference(bound.high, extent, axis.lowAlign);
      }
    }
  }

  /** C's remainder pulls a negative edge up to zero, but no further than by one step. */
  function Step(axis: Axis): (step: nat)
    ensures step > 0
  {
    if axis.lowAlign == 0 then 1 else axis.lowAlign
  }

  /** What meets the restrictions is left as it is. */
  lemma SanitizedStays(s: Span, boundHigh: int, axis: Axis)
    requires 0 <= s.low < s.high && Sanitized(s, Span(0, boundHigh), axis)
    ensures SanitizeSpan(s, boundHigh, axis) == s
  {
    if axis.extentAlign > 0 {
      AlreadyRound(s.high - s.low, axis.extentAlign);
    }
  }

  lemma AlreadyRound(n: int, a: int)
    requires a > 0 && n >= 0 && n % a == 0
    ensures RoundUp(n, a) == n
  {
    RoundUpBounds(n, a);
    ModDifference(RoundUp(n, a), n, a);
    MultipleNotNegative(n - RoundUp(n, a), a);
  }

  lemma AlignLowWithin(low: int, axis: Axis)
    ensures low - Step(axis) < AlignLow(low, axis.lowAlign)
  {
    if axis.lowAlign > 0 && low < 0 {
      AlignLowBounds(low, axis.lowAlign);
    }
  }

  /** And what does not is enlarged by less than the restrictions can ask for: the minimum, one step
      of the extent, and two of the low edge, which is aligned again at the far end of the panel. */
  lemma SanitizeSpanTight(s: Span, boundHigh: int, axis: Axis)
    requires 0 <= s.low < s.high
    ensures
      var t := SanitizeSpan(s, boundHigh, axis);
      t.high - t.low < Max(s.high - s.low, axis.minExtent) + 2 * Step(axis) + axis.extentAlign
  {
    var w := Widen(s, boundHigh, axis.minExtent);
    var low := AlignLow(w.low, axis.lowAlign);
    AlignLowBounds(w.low, axis.lowAlign);
    AlignLowWithin(w.low, axis);
    if axis.extentAlign > 0 {
      var extent := RoundUp(w.high - low, axis.extentAlign);
      RoundUpBounds(w.high - low, axis.extentAlign);
      AlignLowWithin(boundHigh - extent, axis);
    }
  }

  lemma AlignLowStaysIff(low: int, axis: Axis)
    ensures AlignLow(low, axis.lowAlign) >= 0 <==> low + Step(axis) > 0
  {
    var a := axis.lowAlign;
    if a > 0 && low < 0 {
      QuotientIsZero(-low, a);
    } else if a > 0 {
      AlignLowBounds(low, a);
    }
  }

  lemma QuotientIsZero(m: nat, a: nat)
    requires a > 0
    ensures m - m % a == 0 <==> m < a
    ensures m - m % a >= 0
  {
    var q, r := m / a, m % a;
    assert m == q * a + r;
    ProductSize(q, a);
  }

  /** The low edge just before it is aligned for the last time: that of the widened span, or, if the
      rounded extent reaches past the panel, the panel's high edge less that extent. */
  function LastLow(s: Span, boundHigh: int, axis: Axis): int
    requires 0 <= s.low < s.high
  {
    var w := Widen(s, boundHigh, axis.minExtent);
    AlignLowBounds(w.low, axis.lowAlign);
    var low := AlignLow(w.low, axis.lowAlign);
    if axis.extentAlign > 0 && low + RoundUp(w.high - low, axis.extentAlign) > boundHigh then
      boundHigh - RoundUp(w.high - low, axis.extentAlign)
    else
      w.low
  }

  /** On a panel that begins at 0 the high edge never leaves it, and the low edge stays in it if and
      only if it lies less than one alignment step outside before it is aligned. */
  lemma SanitizeSpanStaysIff(s: Span, boundHigh: int, axis: Axis)
    requires 0 <= s.low < s.high <= boundHigh
    ensures SanitizeSpan(s, boundHigh, axis).high <= boundHigh
    ensures SanitizeSpan(s, boundHigh, axis).low >= 0 <==> LastLow(s, boundHigh, axis) + Step(axis) > 0
  {
    AlignLowStaysIff(LastLow(s, boundHigh, axis), axis);
  }

  /** Without the divisibility the aligned ROI can leave the panel. */
  lemma SanitizeCanEscape()
    ensures SanitizeSpan(Span(1, 10), 10, Axis(0, 4, 0)) == Span(-2, 10)
  {
    assert RoundUp(9, 4) == 12;
  }

  datatype PanelAlign = PanelAlign(horizontal: Axis, vertical: Axis)

  function SanitizedROI(roi: Rect, boundary: Rect, panel: PanelAlign): Rect
    requires roi.Valid() ==> 0 <= roi.left && 0 <= roi.top
  {
    if !roi.Valid() then
      roi
    else
      var h := SanitizeSpan(Span(roi.left, roi.right), boundary.right, panel.horizontal);
      var v := SanitizeSpan(Span(roi.top, roi.bottom), boundary.bottom, panel.vertical);
      Rect(h.low, v.low, h.high, v.high)
  }

  method GetSanitizeROI(roi: Rect, boundary: Rect, panel: PanelAlign) returns (t: Rect)
    requires roi.Valid() ==> 0 <= roi.left && 0 <= roi.top
    ensures t == SanitizedROI(roi, boundary, panel)
  {
    if !roi.Valid() {
      return roi;
    }
    t := roi;
    var minW, minH := panel.horizontal.minExtent, panel.vertical.minExtent;
    if t.right - t.left < minW {
      if t.left + minW > boundary.right {
        t := t.(left := t.right - minW);
      } else {
        t := t.(right := t.left + minW);
      }
    }
    if t.bottom - t.top < minH {
      if t.top + minH > boundary.bottom {
        t := t.(top := t.bottom - minH);
      } else {
        t := t.(bottom := t.top + minH);
      }
    }
    var s := AlignAxis(Span(t.left, t.right), boundary.right, panel.horizontal);
    t := t.(left := s.low, right := s.high);
    s := AlignAxis(Span(t.top, t.bottom), boundary.bottom, panel.vertical);
    t := t.(top := s.low, bottom := s.high);
  }

  /** The alignment block that the source writes out once for each axis. */
  method AlignAxis(s: Span, boundHigh: int, axis: Axis) returns (t: Span)
    requires s.low < s.high && 0 <= s.high
    ensures s.high >= AlignLow(s.low, axis.lowAlign)
    ensures t == AlignSpan(s, boundHigh, axis)
  {
    AlignLowBounds(s.low, axis.lowAlign);
    t := s;
    if axis.lowAlign != 0 {
      t := t.(low := t.low - CMod(t.low, axis.lowAlign));
    }
    if axis.extentAlign != 0 {
      var extent := t.high - t.low;
      extent := axis.extentAlign * ((extent + (axis.extentAlign - 1)) / axis.extentAlign);
      t := t.(high := t.low + extent);
      if t.high > boundHigh {
        t := t.(high := boundHigh);
        t := t.(low := t.high - extent);
        if axis.lowAlign != 0 {
          t := t.(low := t.low - CMod(t.low, axis.lowAlign));
        }
      }
    }
  }

  // ------------------------------------------------------------------ collecting the ROI

  function LayersOf(us: seq<Update>): (ls: seq<Layer>)
    ensures |ls| == |us| && forall i :: 0 <= i < |us| ==> ls[i] == us[i].layer
  {
    seq(|us|, i requires 0 <= i < |us| => us[i].layer)
  }

  function LayerDirty(u: Update, trusted: bool, screen: Rect): Rect {
    if trusted then DirtyRect(u, screen) else GetIntersection(u.layer.frame, screen)
  }

  /** The union over the first n layers, inside `screen`.  The single-panel composer always takes a
      video layer to be dirty as a whole; the split one trusts the damage of a plain video layer. */
  function DirtyUnion(us: seq<Update>, n: nat, split: bool, screen: Rect): (r: Rect)
    requires n <= |us|
    ensures r == ZERO_RECT || (r.Valid() && r.Within(screen))
  {
    if n == 0 then
      ZERO_RECT
    else
      var roi, u := DirtyUnion(us, n - 1, split, screen), us[n - 1];
      if u.Updating() || u.yuv then
        var dirty := LayerDirty(u, Plain(u) && (split || !u.yuv), screen);
        DirtyRectWithin(u, screen);
        GetUnion(roi, dirty)
      else
        roi
  }

  /** The dirty part of a layer, if it counts. */
  predicate DirtyWithin(u: Update, split: bool, screen: Rect, bound: Rect) {
    var dirty := LayerDirty(u, Plain(u) && (split || !u.yuv), screen);
    (u.Updating() || u.yuv) && dirty.Valid() ==> dirty.Within(bound)
  }

  /** The union is the least rectangle around the dirty parts of the layers. */
  lemma {:induction false} DirtyUnionLeast(us: seq<Update>, n: nat, split: bool, screen: Rect, bound: Rect)
    requires n <= |us| && forall i :: 0 <= i < n ==> DirtyWithin(us[i], split, screen, bound)
    ensures DirtyUnion(us, n, split, screen).Valid() ==> DirtyUnion(us, n, split, screen).Within(bound)
  {
    if n > 0 {
      DirtyUnionLeast(us, n - 1, split, screen, bound);
      assert DirtyWithin(us[n - 1], split, screen, bound);
    }
  }

  lemma {:induction false} DirtyUnionCovers(us: seq<Update>, n: nat, split: bool, screen: Rect, i: nat, p: Point)
    requires i < n <= |us| && (us[i].Updating() || us[i].yuv)
    requires LayerDirty(us[i], Plain(us[i]) && (split || !us[i].yuv), screen).Has(p)
    ensures DirtyUnion(us, n, split, screen).Has(p)
  {
    if i < n - 1 {
      DirtyUnionCovers(us, n - 1, split, screen, i, p);
    }
  }

  /** SurfaceFlinger says that nothing in the layer changes: a damage rectangle without pixels. */
  predicate Quiet(u: Update) {
    u.damage != [] && !u.damage[0].Valid()
  }

  /** Pixel p may look different because of layer u.  The damage tells which do if the layer is one to
      one and not turned; with a single ROI it is not asked for video. */
  predicate MayChange(u: Update, split: bool, p: Point) {
    var l := u.layer;
    (!Quiet(u) || u.yuv) &&
      if Exact(l.Crop(), l.frame, NO_TRANSFORM) && l.transform == NO_TRANSFORM && (split || !u.yuv) then Touched(u, p)
      else l.frame.Has(p)
  }

  lemma LayerDirtyLeast(u: Update, split: bool, screen: Rect, bound: Rect)
    requires forall p: Point :: screen.Has(p) && MayChange(u, split, p) ==> bound.Has(p)
    ensures DirtyWithin(u, split, screen, bound)
  {
    if u.Updating() || u.yuv {
      if Plain(u) && (split || !u.yuv) {
        forall p: Point | screen.Has(p) && Touched(u, p) ensures bound.Has(p) {
          assert MayChange(u, split, p);
        }
        DirtyRectLeast(u, screen, bound);
      } else {
        var part := GetIntersection(u.layer.frame, screen);
        if part.Valid() {
          forall p: Point | part.Has(p) ensures bound.Has(p) {
            assert MayChange(u, split, p);
          }
          WithinByPixels(part, bound);
        }
      }
    }
  }

  /** Every rectangle that holds the pixels that may change holds the union. */
  lemma DirtyUnionTight(us: seq<Update>, split: bool, screen: Rect, bound: Rect)
    requires forall i, p: Point :: 0 <= i < |us| && screen.Has(p) && MayChange(us[i], split, p) ==> bound.Has(p)
    ensures DirtyUnion(us, |us|, split, screen).Valid() ==> DirtyUnion(us, |us|, split, screen).Within(bound)
  {
    forall i | 0 <= i < |us| ensures DirtyWithin(us[i], split, screen, bound) {
      LayerDirtyLeast(us[i], split, screen, bound);
    }
    DirtyUnionLeast(us, |us|, split, screen, bound);
  }

  /** And the union holds each of them. */
  lemma DirtyUnionHas(us: seq<Update>, split: bool, screen: Rect, i: nat, p: Point)
    requires i < |us| && screen.Has(p) && MayChange(us[i], split, p)
    ensures DirtyUnion(us, |us|, split, screen).Has(p)
  {
    if Plain(us[i]) && (split || !us[i].yuv) {
      DirtyRectCovers(us[i], screen, p);
    }
    DirtyUnionCovers(us, |us|, split, screen, i, p);
  }

  /** The region that is finally used, and the drop flags that go with it. */
  function ChosenROI(us: seq<Update>, screen: Rect, panel: PanelAlign, canPartialUpdate: bool): (Rect, Outcome)
    requires screen.left == screen.top == 0
  {
    var dirty := DirtyUnion(us, |us|, false, screen);
    if !canPartialUpdate || !dirty.Valid() then
      (screen, Reset)
    else
      var roi := SanitizedROI(dirty, screen, panel);
      var scan := Scan(LayersOf(us), roi);
      (if scan.Keep? then roi else screen, scan)
  }

  method GenerateROI(f: FrameInfo, list: seq<Update>, xres: nat, yres: nat, panel: PanelAlign, canPartialUpdate: bool)
    returns (lRoi: Rect)
    requires f.Valid() && |list| == f.layerCount
    requires f.dropCount == 0 && forall i :: 0 <= i < f.drop.Length ==> !f.drop[i]
    modifies f`dropCount, f.drop
    ensures f.Valid() && lRoi == ChosenROI(list, Rect(0, 0, xres, yres), panel, canPartialUpdate).0
    ensures Applied(f, ChosenROI(list, Rect(0, 0, xres, yres), panel, canPartialUpdate).1.Keep?,
                    ChosenROI(list, Rect(0, 0, xres, yres), panel, canPartialUpdate).1)
  {
    var fullFrame := Rect(0, 0, xres, yres);
    lRoi := fullFrame;
    if !canPartialUpdate {
      return;
    }
    var roi := ZERO_RECT;
    for index := 0 to |list|
      modifies {}
      invariant roi == DirtyUnion(list, index, false, fullFrame)
    {
      var u := list[index];
      if u.Updating() || u.yuv {
        var dirtyRect := GetIntersection(u.layer.frame, fullFrame);
        if !u.layer.NeedsScaling() && u.layer.transform == NO_TRANSFORM && !u.yuv {
          dirtyRect := CalculateDirtyRect(u, fullFrame);
        }
        roi := GetUnion(roi, dirtyRect);
      }
    }
    if !roi.Valid() {
      return;
    }
    roi := GetSanitizeROI(roi, fullFrame, panel);
    lRoi := roi;
    var ok := ValidateAndApplyROI(f, LayersOf(list), lRoi);
    if !ok {
      lRoi := fullFrame;
    }
  }

  lemma SanitizedContains(roi: Rect, screen: Rect, panel: PanelAlign, p: Point)
    requires roi.Within(screen) && 0 <= screen.left && 0 <= screen.top && roi.Has(p)
    ensures SanitizedROI(roi, screen, panel).Has(p)
  {
    SanitizeSpanContains(Span(roi.left, roi.right), screen.right, panel.horizontal);
    SanitizeSpanContains(Span(roi.top, roi.bottom), screen.bottom, panel.vertical);
  }

  /** The final ROI holds the dirty part of every layer that changes. */
  lemma ROICoversDirty(us: seq<Update>, screen: Rect, panel: PanelAlign, canPartialUpdate: bool, i: nat, p: Point)
    requires screen.left == screen.top == 0 && screen.Has(p)
    requires i < |us| && (us[i].Updating() || us[i].yuv)
    requires LayerDirty(us[i], Plain(us[i]) && !us[i].yuv, screen).Has(p)
    ensures ChosenROI(us, screen, panel, canPartialUpdate).0.Has(p)
  {
    DirtyUnionCovers(us, |us|, false, screen, i, p);
    SanitizedContains(DirtyUnion(us, |us|, false, screen), screen, panel, p);
  }

  /** On a panel whose size fits its own restrictions, a partial ROI meets all of them. */
  lemma ROIMeetsPanel(us: seq<Update>, screen: Rect, panel: PanelAlign)
    requires screen.left == screen.top == 0 && screen.Valid()
    requires Fits(panel.horizontal, Span(0, screen.right)) && Fits(panel.vertical, Span(0, screen.bottom))
    requires ChosenROI(us, screen, panel, true).1.Keep?
    ensures
      var roi := ChosenROI(us, screen, panel, true).0;
      && Sanitized(Span(roi.left, roi.right), Span(0, screen.right), panel.horizontal)
      && Sanitized(Span(roi.top, roi.bottom), Span(0, screen.bottom), panel.vertical)
  {
    var dirty := DirtyUnion(us, |us|, false, screen);
    SanitizeSpanFits(Span(dirty.left, dirty.right), Span(0, screen.right), panel.horizontal);
    SanitizeSpanFits(Span(dirty.top, dirty.bottom), Span(0, screen.bottom), panel.vertical);
  }

  /** The screen is refreshed in full only if nothing on it may change, or if a scaled layer would have
      to be cropped to the ROI. */
  lemma {:induction false} FullOnlyIfNeeded(us: seq<Update>, screen: Rect, panel: PanelAlign) returns (i: nat, p: Point, q: Point)
    requires screen.left == screen.top == 0 && ChosenROI(us, screen, panel, true).1.Reset?
    ensures
      || (forall k, t: Point :: 0 <= k < |us| && screen.Has(t) ==> !MayChange(us[k], false, t))
      || (var roi := SanitizedROI(DirtyUnion(us, |us|, false, screen), screen, panel);
          && i < |us| && us[i].layer.NeedsScaling() && us[i].layer.frame.Has(p) && roi.Has(p)
          && us[i].layer.frame.Has(q) && (!roi.Has(q) || Hides(LayersOf(us), i + 1, q)))
  {
    var dirty := DirtyUnion(us, |us|, false, screen);
    i, p, q := 0, Point(0, 0), Point(0, 0);
    if dirty.Valid() {
      var roi := SanitizedROI(dirty, screen, panel);
      AllInView(roi, LayersOf(us));
      assert LayersOf(us)[..|us|] == LayersOf(us);
      i, p, q := ResetByScaled(LayersOf(us), |us|, roi, roi);
    } else {
      forall k, t: Point | 0 <= k < |us| && screen.Has(t) ensures !MayChange(us[k], false, t) {
        if MayChange(us[k], false, t) {
          DirtyUnionHas(us, false, screen, k, t);
        }
      }
    }
  }

  /** A partial ROI is not much larger than any rectangle that holds all that may change. */
  lemma ROITight(us: seq<Update>, screen: Rect, panel: PanelAlign, bound: Rect)
    requires screen.left == screen.top == 0 && ChosenROI(us, screen, panel, true).1.Keep?
    requires forall i, p: Point :: 0 <= i < |us| && screen.Has(p) && MayChange(us[i], false, p) ==> bound.Has(p)
    ensures
      var roi, h, v := ChosenROI(us, screen, panel, true).0, panel.horizontal, panel.vertical;
      && roi.Width() < Max(bound.Width(), h.minExtent) + 2 * Step(h) + h.extentAlign
      && roi.Height() < Max(bound.Height(), v.minExtent) + 2 * Step(v) + v.extentAlign
  {
    var dirty := DirtyUnion(us, |us|, false, screen);
    DirtyUnionTight(us, false, screen, bound);
    SanitizeSpanTight(Span(dirty.left, dirty.right), screen.right, panel.horizontal);
    SanitizeSpanTight(Span(dirty.top, dirty.bottom), screen.bottom, panel.vertical);
  }

  /** What may differ from the previous frame when HWC_GEOMETRY_CHANGED is not set: the
      content of an updating layer, and of a plain one only where it is damaged. */
  ghost predicate SameGeometry(old': Layer, oldTex: Sample -> int, u: Update, tex: Sample -> int, p: Point) {
    && old'.frame == u.layer.frame && old'.blending == u.layer.blending && old'.planeAlpha == u.layer.planeAlpha
    && (Quiet(u) || (Plain(u) && !u.Damaged(p)) ==>
          oldTex(SampleAt(old', p)) == tex(SampleAt(u.layer, p)))
  }

  /** A partial update shows the whole frame: refreshing the panel inside the ROI only, from
      the kept layers only, leaves every pixel of the screen as a full update would. */
  lemma PartialUpdateShowsFrame(was: seq<Layer>, wasTex: Sample -> int, us: seq<Update>, tex: Sample -> int,
                                screen: Rect, panel: PanelAlign, p: Point)
    requires screen.left == screen.top == 0 && screen.Has(p)
    requires |was| == |us| && forall i :: 0 <= i < |us| ==> SameGeometry(was[i], wasTex, us[i], tex, p)
    requires ChosenROI(us, screen, panel, true).1.Keep?
    ensures
      var (roi, kept) := ChosenROI(us, screen, panel, true);
      Composite(LayersOf(us), tex, p) ==
        if roi.Has(p) then CompositeKept(LayersOf(us), kept.drop, tex, p) else Composite(was, wasTex, p)
  {
    var (roi, kept) := ChosenROI(us, screen, panel, true);
    var ls := LayersOf(us);
    if roi.Has(p) {
      DropPreserves(ls, roi, tex, p);
    } else {
      forall i | 0 <= i < |us| ensures SameLook(was[i], wasTex, ls[i], tex, p) {
        var u := us[i];
        assert SameGeometry(was[i], wasTex, u, tex, p);
        if u.layer.frame.Has(p) && u.Updating() && (!Plain(u) || u.Damaged(p)) {
          if Plain(u) {
            DirtyRectCovers(u, screen, p);
          }
          ROICoversDirty(us, screen, panel, true, i, p);
        }
      }
      CompositeSame(was, wasTex, ls, tex, p);
    }
  }

  // ------------------------------------------------------------------ a panel in two halves

  /** The two mixers' parts of a screen; `merge` is set for panels that cannot take an update for
      each of them. */
  datatype Halves = Halves(left: Rect, right: Rect, merge: bool) {
    predicate Valid() {
      && left.left == left.top == right.top == 0 && left.right == right.left
      && left.Valid() && right.Valid()
    }

    predicate Has(p: Point) {
      left.Has(p) || right.Has(p)
    }
  }

  /** Merged into one rectangle and parted again. */
  function Merged(l: Rect, r: Rect, halves: Halves): (Rect, Rect) {
    if halves.merge then
      (GetIntersection(GetUnion(l, r), halves.left), GetIntersection(GetUnion(l, r), halves.right))
    else
      (l, r)
  }

  function SplitDirty(us: seq<Update>, halves: Halves): (Rect, Rect) {
    Merged(DirtyUnion(us, |us|, true, halves.left), DirtyUnion(us, |us|, true, halves.right), halves)
  }

  /** What is merged stays in its half, and no part of it is lost. */
  lemma MergedKeeps(us: seq<Update>, halves: Halves, p: Point)
    requires halves.Valid()
    ensures
      var l, r := DirtyUnion(us, |us|, true, halves.left), DirtyUnion(us, |us|, true, halves.right);
      var (l', r') := SplitDirty(us, halves);
      && (l'.Valid() ==> l'.Within(halves.left)) && (r'.Valid() ==> r'.Within(halves.right))
      && (l.Has(p) ==> l'.Has(p)) && (r.Has(p) ==> r'.Has(p))
  {
  }

  /** What is dirty in each half, aligned to the panel. */
  function SplitROIs(us: seq<Update>, halves: Halves, panel: PanelAlign): (Rect, Rect)
    requires halves.Valid()
  {
    var (l, r) := SplitDirty(us, halves);
    MergedKeeps(us, halves, Point(0, 0));
    (SanitizedROI(l, halves.left, panel), SanitizedROI(r, halves.right, panel))
  }

  function ChosenSplitROI(us: seq<Update>, halves: Halves, panel: PanelAlign, canPartialUpdate: bool): (Rect, Rect, Outcome)
    requires halves.Valid()
  {
    var (l, r) := SplitDirty(us, halves);
    if !canPartialUpdate || (!l.Valid() && !r.Valid()) then
      (halves.left, halves.right, Reset)
    else
      var (lRoi, rRoi) := SplitROIs(us, halves, panel);
      var scan := ScanSplit(LayersOf(us), lRoi, rRoi);
      (if scan.Keep? then lRoi else halves.left, if scan.Keep? then rRoi else halves.right, scan)
  }

  /** The dirty rectangle of one layer in one half. */
  method HalfDirtyRect(u: Update, half: Rect) returns (dirtyRect: Rect)
    ensures dirtyRect == LayerDirty(u, Plain(u), half)
    ensures dirtyRect.Valid() || dirtyRect == ZERO_RECT
  {
    DirtyRectWithin(u, half);
    dirtyRect := GetIntersection(u.layer.frame, half);
    if !u.layer.NeedsScaling() && u.layer.transform == NO_TRANSFORM {
      dirtyRect := CalculateDirtyRect(u, half);
    }
  }

  method GenerateSplitROI(f: FrameInfo, list: seq<Update>, halves: Halves, panel: PanelAlign, canPartialUpdate: bool)
    returns (lRoi: Rect, rRoi: Rect)
    requires f.Valid() && |list| == f.layerCount && halves.Valid()
    requires f.dropCount == 0 && forall i :: 0 <= i < f.drop.Length ==> !f.drop[i]
    modifies f`dropCount, f.drop
    ensures f.Valid()
    ensures
      var (l, r, o) := ChosenSplitROI(list, halves, panel, canPartialUpdate);
      lRoi == l && rRoi == r && Applied(f, o.Keep?, o)
  {
    lRoi, rRoi := halves.left, halves.right;
    if !canPartialUpdate {
      return;
    }
    var l, r := SplitDirtyRects(list, halves);
    if halves.merge {
      var temp := GetUnion(l, r);
      l := GetIntersection(temp, halves.left);
      r := GetIntersection(temp, halves.right);
    }
    if !l.Valid() && !r.Valid() {
      return;
    }
    MergedKeeps(list, halves, Point(0, 0));
    lRoi := GetSanitizeROI(l, halves.left, panel);
    rRoi := GetSanitizeROI(r, halves.right, panel);
    var ok := ValidateAndApplyROISplit(f, LayersOf(list), lRoi, rRoi);
    if !ok {
      lRoi, rRoi := halves.left, halves.right;
    }
  }

  /** The loop over the layers, for both halves at once. */
  method SplitDirtyRects(list: seq<Update>, halves: Halves) returns (l: Rect, r: Rect)
    ensures l == DirtyUnion(list, |list|, true, halves.left) && r == DirtyUnion(list, |list|, true, halves.right)
  {
    l, r := ZERO_RECT, ZERO_RECT;
    for index := 0 to |list|
      invariant l == DirtyUnion(list, index, true, halves.left) && r == DirtyUnion(list, index, true, halves.right)
    {
      if list[index].Updating() || list[index].yuv {
        var lDirty := HalfDirtyRect(list[index], halves.left);
        var rDirty := HalfDirtyRect(list[index], halves.right);
        if lDirty.Valid() {
          l := GetUnion(l, lDirty);
        }
        if rDirty.Valid() {
          r := GetUnion(r, rDirty);
        }
      }
    }
  }

  /** The ROI of a half holds what every changing layer has dirty in that half. */
  lemma SplitROICoversDirty(us: seq<Update>, halves: Halves, panel: PanelAlign, canPartialUpdate: bool, i: nat, p: Point)
    requires halves.Valid() && i < |us| && (us[i].Updating() || us[i].yuv)
    ensures
      var (l, r, _) := ChosenSplitROI(us, halves, panel, canPartialUpdate);
      && (halves.left.Has(p) && LayerDirty(us[i], Plain(us[i]), halves.left).Has(p) ==> l.Has(p))
      && (halves.right.Has(p) && LayerDirty(us[i], Plain(us[i]), halves.right).Has(p) ==> r.Has(p))
  {
    var (l, r) := SplitDirty(us, halves);
    MergedKeeps(us, halves, p);
    if LayerDirty(us[i], Plain(us[i]), halves.left).Has(p) {
      DirtyUnionCovers(us, |us|, true, halves.left, i, p);
      SanitizedContains(l, halves.left, panel, p);
    }
    if LayerDirty(us[i], Plain(us[i]), halves.right).Has(p) {
      DirtyUnionCovers(us, |us|, true, halves.right, i, p);
      SanitizedContains(r, halves.right, panel, p);
    }
  }

  /** On a panel that has to be updated as one, halves of equal height that are both refreshed are so
      in the same rows, and what is dirty meets at the seam. */
  lemma MergedAlike(us: seq<Update>, halves: Halves, panel: PanelAlign)
    requires halves.Valid() && halves.merge && halves.left.bottom == halves.right.bottom
    ensures
      var (l, r) := SplitDirty(us, halves);
      var (lRoi, rRoi) := SplitROIs(us, halves, panel);
      l.Valid() && r.Valid() ==> l.right == r.left == halves.right.left && lRoi.top == rRoi.top && lRoi.bottom == rRoi.bottom
  {
  }

  /** On another panel each half is refreshed for what may change in it only. */
  lemma SplitDirtyTight(us: seq<Update>, halves: Halves, half: Rect, bound: Rect)
    requires halves.Valid() && !halves.merge && half in {halves.left, halves.right}
    requires forall i, p: Point :: 0 <= i < |us| && half.Has(p) && MayChange(us[i], true, p) ==> bound.Has(p)
    ensures
      var (l, r) := SplitDirty(us, halves);
      var dirty := if half == halves.left then l else r;
      dirty.Valid() ==> dirty.Within(bound)
  {
    DirtyUnionTight(us, true, half, bound);
  }

  /** Both halves are refreshed in full only if nothing on them may change, or if a scaled layer would
      have to be cropped to a ROI. */
  lemma {:induction false} FullHalvesOnlyIfNeeded(us: seq<Update>, halves: Halves, panel: PanelAlign)
    returns (i: nat, p: Point, q: Point)
    requires halves.Valid() && ChosenSplitROI(us, halves, panel, true).2.Reset?
    ensures
      || (forall k, t: Point :: 0 <= k < |us| && halves.Has(t) ==> !MayChange(us[k], true, t))
      || (var (l, r) := SplitROIs(us, halves, panel);
          && i < |us| && us[i].layer.NeedsScaling() && us[i].layer.frame.Has(p) && (l.Has(p) || r.Has(p))
          && us[i].layer.frame.Has(q) && ((!l.Has(q) && !r.Has(q)) || Hides(LayersOf(us), i + 1, q)))
  {
    var (l, r) := SplitDirty(us, halves);
    i, p, q := 0, Point(0, 0), Point(0, 0);
    if l.Valid() || r.Valid() {
      var (lRoi, rRoi) := SplitROIs(us, halves, panel);
      AllInView(lRoi, LayersOf(us));
      AllInView(rRoi, LayersOf(us));
      assert LayersOf(us)[..|us|] == LayersOf(us);
      i, p, q := SplitResetByScaled(LayersOf(us), |us|, lRoi, rRoi, lRoi, rRoi);
    } else {
      forall k, t: Point | 0 <= k < |us| && halves.Has(t) ensures !MayChange(us[k], true, t) {
        MergedKeeps(us, halves, t);
        if MayChange(us[k], true, t) {
          DirtyUnionHas(us, true, if halves.left.Has(t) then halves.left else halves.right, k, t);
        }
      }
    }
  }

  lemma DirtyInHalf(u: Update, half: Rect, p: Point)
    requires half.Has(p) && u.layer.frame.Has(p) && (!Plain(u) || u.Damaged(p))
    ensures LayerDirty(u, Plain(u), half).Has(p)
  {
    if Plain(u) {
      DirtyRectCovers(u, half, p);
    }
  }

  /** Refreshing the two halves inside their ROIs only, from the kept layers only, leaves every
      pixel of the screen as a full update would. */
  lemma SplitUpdateShowsFrame(was: seq<Layer>, wasTex: Sample -> int, us: seq<Update>, tex: Sample -> int,
                              halves: Halves, panel: PanelAlign, p: Point)
    requires halves.Valid() && halves.Has(p)
    requires |was| == |us| && forall i :: 0 <= i < |us| ==> SameGeometry(was[i], wasTex, us[i], tex, p)
    requires ChosenSplitROI(us, halves, panel, true).2.Keep?
    ensures
      var (l, r, kept) := ChosenSplitROI(us, halves, panel, true);
      Composite(LayersOf(us), tex, p) ==
        if l.Has(p) || r.Has(p) then CompositeKept(LayersOf(us), kept.drop, tex, p) else Composite(was, wasTex, p)
  {
    var (l, r, kept) := ChosenSplitROI(us, halves, panel, true);
    var ls := LayersOf(us);
    if l.Has(p) || r.Has(p) {
      DropPreservesSplit(ls, l, r, tex, p);
    } else {
      forall i | 0 <= i < |us| ensures SameLook(was[i], wasTex, ls[i], tex, p) {
        var u := us[i];
        assert SameGeometry(was[i], wasTex, u, tex, p);
        if u.layer.frame.Has(p) && u.Updating() && (!Plain(u) || u.Damaged(p)) {
          DirtyInHalf(u, if halves.left.Has(p) then halves.left else halves.right, p);
          SplitROICoversDirty(us, halves, panel, true, i, p);
        }
      }
      CompositeSame(was, wasTex, ls, tex, p);
    }
  }
}

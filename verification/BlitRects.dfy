/** set_rects and MULDIV (copybit.cpp): which part of the source is blitted into the part of the
    destination that the scissor leaves. */
module BlitRects {
  import opened Rects
  import opened Layers
  import opened Products

  const TWO_32 := 0x1_0000_0000

  /** An integer stored in 32 unsigned bits. */
  function Wrap(n: int): nat {
    n % TWO_32
  }

  lemma Wrapped(n: int)
    ensures 0 <= n < TWO_32 ==> Wrap(n) == n
    ensures 0 <= n ==> Wrap(n) <= n
  {
  }

  /** mdp_rect: unsigned position and size. */
  datatype Area = Area(x: nat, y: nat, w: nat, h: nat)

  /** `mul * a / div` in 32-bit unsigned arithmetic: the product wraps around. */
  function Scaled(a: nat, mul: int, div: nat): nat
    requires div > 0
  {
    if mul == div then a else Wrap(mul * a) / div
  }

  method MulDiv(a: nat, b: nat, mul: int, div: nat) returns (a': nat, b': nat)
    requires div > 0
    ensures a' == Scaled(a, mul, div) && b' == Scaled(b, mul, div)
  {
    a', b' := a, b;
    if mul != div {
      a' := Wrap(mul * a') / div;
      b' := Wrap(mul * b') / div;
    }
  }

  /** intersect: no normalisation of an empty result. */
  function Intersect(lhs: Rect, rhs: Rect): Rect {
    Rect(Max(lhs.left, rhs.left), Max(lhs.top, rhs.top), Min(lhs.right, rhs.right), Min(lhs.bottom, rhs.bottom))
  }

  // ------------------------------------------------------------------ arithmetic of one side

  /** Two quotients are no more than the quotient of the sum. */
  lemma DivSum(n: nat, m: nat, k: nat, div: nat)
    requires div > 0 && n + m <= k * div
    ensures n / div + m / div <= k
  {
    var p, q := n / div, m / div;
    assert p * div <= n && q * div <= m;
    assert (p + q) * div == p * div + q * div;
    assert (k + 1) * div == k * div + div;
    if p + q > k {
      Times(k + 1, p + q, div);
    }
  }

  /** A part of the extent `div`, offset and size scaled, stays inside the extent `mul`, even
      when the products wrap around: wrapping only makes them smaller. */
  lemma ScaledInside(delta: nat, size: nat, mul: nat, div: nat)
    requires div > 0 && delta + size <= div
    ensures Scaled(delta, mul, div) + Scaled(size, mul, div) <= mul
  {
    if mul != div {
      Times(delta + size, div, mul);
      assert mul * delta + mul * size == (delta + size) * mul;
      Wrapped(mul * delta);
      Wrapped(mul * size);
      DivSum(Wrap(mul * delta), Wrap(mul * size), mul, div);
    }
  }

  // ------------------------------------------------------------------ the rectangles

  /** A rectangle that is not inverted, with unsigned coordinates. */
  predicate Ordered32(r: Rect) {
    0 <= r.left <= r.right < TWO_32 && 0 <= r.top <= r.bottom < TWO_32
  }

  /** One axis of the source: the clip's offset and size in the extent of the destination, which is
      mapped to [low, high) and may be mirrored in it. */
  datatype SourceAxis = SourceAxis(delta: nat, size: nat, extent: nat, low: int, high: int, mirror: bool)

  /** Offset and size are those of a part. */
  predicate IsPart(a: SourceAxis) {
    a.delta + a.size <= a.extent && a.extent > 0
  }

  function AxisX(t: Transform, dst: Rect, src: Rect, clip: Rect): (a: SourceAxis)
    requires clip.Valid() && clip.Within(dst)
    ensures IsPart(a)
  {
    if t.rot90 then SourceAxis(clip.top - dst.top, clip.Height(), dst.Height(), src.left, src.right, t.flipV)
    else SourceAxis(clip.left - dst.left, clip.Width(), dst.Width(), src.left, src.right, t.flipH)
  }

  function AxisY(t: Transform, dst: Rect, src: Rect, clip: Rect): (a: SourceAxis)
    requires clip.Valid() && clip.Within(dst)
    ensures IsPart(a)
  {
    if t.rot90 then SourceAxis(dst.right - clip.right, clip.Width(), dst.Width(), src.top, src.bottom, t.flipH)
    else SourceAxis(clip.top - dst.top, clip.Height(), dst.Height(), src.top, src.bottom, t.flipV)
  }

  function SourceSize(a: SourceAxis): nat
    requires a.extent > 0
  {
    Scaled(a.size, a.high - a.low, a.extent)
  }

  function SourceStart(a: SourceAxis): nat
    requires a.extent > 0
  {
    var x := Wrap(Scaled(a.delta, a.high - a.low, a.extent) + a.low);
    if a.mirror then Wrap(a.low + a.high - (x + SourceSize(a))) else x
  }

  /** The source area for `clip`, a part of dst. */
  function SourceArea(t: Transform, dst: Rect, src: Rect, clip: Rect): Area
    requires clip.Valid() && clip.Within(dst)
  {
    var x, y := AxisX(t, dst, src, clip), AxisY(t, dst, src, clip);
    Area(SourceStart(x), SourceStart(y), SourceSize(x), SourceSize(y))
  }

  function ToRect(a: Area): Rect {
    Rect(a.x, a.y, a.x + a.w, a.y + a.h)
  }

  datatype Rectangles = Empty | Rectangles(dst: Area, src: Area)

  function BlitOf(t: Transform, dst: Rect, src: Rect, scissor: Rect): Rectangles {
    var clip := Intersect(scissor, dst);
    if clip.Valid() then
      Rectangles(Area(Wrap(clip.left), Wrap(clip.top), clip.Width(), clip.Height()), SourceArea(t, dst, src, clip))
    else
      Empty
  }

  /** The two axes, without the flips. */
  method SourceAxes(t: Transform, dst: Rect, src: Rect, clip: Rect) returns (x: SourceAxis, y: SourceAxis)
    requires clip.Valid() && clip.Within(dst)
    ensures x == AxisX(t, dst, src, clip).(mirror := false) && y == AxisY(t, dst, src, clip).(mirror := false)
  {
    var deltaX, deltaY, srcW, srcH, w, h;
    if t.rot90 {
      deltaX, deltaY := clip.top - dst.top, dst.right - clip.right;
      srcW, srcH := clip.bottom - clip.top, clip.right - clip.left;
      w, h := dst.bottom - dst.top, dst.right - dst.left;
    } else {
      deltaX, deltaY := clip.left - dst.left, clip.top - dst.top;
      srcW, srcH := clip.right - clip.left, clip.bottom - clip.top;
      w, h := dst.right - dst.left, dst.bottom - dst.top;
    }
    x := SourceAxis(deltaX, srcW, w, src.left, src.right, false);
    y := SourceAxis(deltaY, srcH, h, src.top, src.bottom, false);
  }

  method PlaceAxis(a: SourceAxis) returns (start: nat, size: nat)
    requires a.extent > 0 && !a.mirror
    ensures start == SourceStart(a) && size == SourceSize(a)
  {
    var delta;
    delta, size := MulDiv(a.delta, a.size, a.high - a.low, a.extent);
    start := Wrap(delta + a.low);
  }

  /** The flips: each mirrors the axis it stands for once the blit is turned. */
  method Mirror(t: Transform, src: Rect, x: nat, y: nat, srcW: nat, srcH: nat) returns (x': nat, y': nat)
    ensures x' == if (if t.rot90 then t.flipV else t.flipH) then Wrap(src.left + src.right - (x + srcW)) else x
    ensures y' == if (if t.rot90 then t.flipH else t.flipV) then Wrap(src.top + src.bottom - (y + srcH)) else y
  {
    x', y' := x, y;
    if t.flipV {
      if t.rot90 {
        x' := Wrap((src.left + src.right) - (x' + srcW));
      } else {
        y' := Wrap((src.top + src.bottom) - (y' + srcH));
      }
    }
    if t.flipH {
      if t.rot90 {
        y' := Wrap((src.top + src.bottom) - (y' + srcH));
      } else {
        x' := Wrap((src.left + src.right) - (x' + srcW));
      }
    }
  }

  /** Mirroring comes on top of the unmirrored place. */
  lemma MirroredStart(a: SourceAxis)
    requires a.extent > 0
    ensures SourceSize(a.(mirror := false)) == SourceSize(a)
    ensures SourceStart(a) ==
      if a.mirror then Wrap(a.low + a.high - (SourceStart(a.(mirror := false)) + SourceSize(a))) else SourceStart(a.(mirror := false))
  {
  }

  method PlaceSource(t: Transform, dst: Rect, src: Rect, clip: Rect) returns (source: Area)
    requires clip.Valid() && clip.Within(dst)
    ensures source == SourceArea(t, dst, src, clip)
  {
    var axisX, axisY := SourceAxes(t, dst, src, clip);
    var x, srcW := PlaceAxis(axisX);
    var y, srcH := PlaceAxis(axisY);
    x, y := Mirror(t, src, x, y, srcW, srcH);
    source := Area(x, y, srcW, srcH);
    MirroredStart(AxisX(t, dst, src, clip));
    MirroredStart(AxisY(t, dst, src, clip));
  }

  method SetRects(t: Transform, dst: Rect, src: Rect, scissor: Rect) returns (e: Rectangles)
    ensures e == BlitOf(t, dst, src, scissor)
  {
    var clip := Intersect(scissor, dst);
    if !clip.Valid() {
      return Empty;
    }
    var source := PlaceSource(t, dst, src, clip);
    return Rectangles(Area(Wrap(clip.left), Wrap(clip.top), clip.right - clip.left, clip.bottom - clip.top), source);
  }

  lemma StartInside(a: SourceAxis)
    requires IsPart(a) && 0 <= a.low <= a.high < TWO_32
    ensures a.low <= SourceStart(a) && SourceStart(a) + SourceSize(a) <= a.high
  {
    ScaledInside(a.delta, a.size, a.high - a.low, a.extent);
    var d, s := Scaled(a.delta, a.high - a.low, a.extent), SourceSize(a);
    Wrapped(d + a.low);
    Wrapped(a.low + a.high - (d + a.low + s));
  }

  /** For every flip, rotation and scaling the source area lies inside the source rectangle, if and
      only if that is not inverted. */
  lemma BlitInside(t: Transform, dst: Rect, src: Rect, clip: Rect)
    requires clip.Valid() && clip.Within(dst)
    requires 0 <= src.left < TWO_32 && 0 <= src.right < TWO_32 && 0 <= src.top < TWO_32 && 0 <= src.bottom < TWO_32
    ensures ToRect(SourceArea(t, dst, src, clip)).Within(src) <==> Ordered32(src)
  {
    if Ordered32(src) {
      StartInside(AxisX(t, dst, src, clip));
      StartInside(AxisY(t, dst, src, clip));
    }
  }

  /** The destination area is what scissor and destination share. */
  lemma BlitDestination(t: Transform, dst: Rect, src: Rect, scissor: Rect)
    requires 0 <= scissor.left && 0 <= scissor.top && scissor.right <= TWO_32 && scissor.bottom <= TWO_32
    ensures
      var b := BlitOf(t, dst, src, scissor);
      if Intersect(scissor, dst).Valid() then
        b.Rectangles? && ToRect(b.dst) == Intersect(scissor, dst) && b.src == SourceArea(t, dst, src, ToRect(b.dst))
      else
        b.Empty?
  {
    var clip := Intersect(scissor, dst);
    Wrapped(clip.left);
    Wrapped(clip.top);
  }

  // ------------------------------------------------------------------ what is blitted

  /** The source pixel that an unscaled blit puts at p, for all eight transforms: the blitter
      mirrors after it has turned. */
  function BlitPixel(t: Transform, src: Rect, dst: Rect, p: Point): Point {
    var dx, dy := p.x - dst.left, p.y - dst.top;
    var u := if t.rot90 then dy else dx;
    var v := if t.rot90 then dst.Width() - 1 - dx else dy;
    Point(if (if t.rot90 then t.flipV else t.flipH) then src.right - 1 - u else src.left + u,
          if (if t.rot90 then t.flipH else t.flipV) then src.bottom - 1 - v else src.top + v)
  }

  /** Source and destination have the same size once turned. */
  predicate Unscaled(t: Transform, src: Rect, dst: Rect) {
    if t.rot90 then src.Width() == dst.Height() && src.Height() == dst.Width()
    else src.Width() == dst.Width() && src.Height() == dst.Height()
  }

  /** It is the pixel that the layer shows by the composer's own account. */
  lemma BlitPixelIsSample(handle: int, t: Transform, src: Rect, dst: Rect, p: Point)
    requires Exact(src, dst, t)
    ensures
      var q := BlitPixel(t, src, dst, p);
      Unscaled(t, src, dst) && SampleOf(handle, src, dst, t, p) == Texel(handle, q.x, q.y)
  {
  }

  lemma StartUnscaled(a: SourceAxis)
    requires IsPart(a) && 0 <= a.low < a.high < TWO_32 && a.extent == a.high - a.low
    ensures SourceSize(a) == a.size
    ensures SourceStart(a) == if a.mirror then a.high - a.delta - a.size else a.low + a.delta
  {
    Wrapped(a.delta + a.low);
    Wrapped(a.low + a.high - (a.delta + a.low + a.size));
  }

  /** The source rectangle of an unscaled blit, side by side. */
  lemma UnscaledSource(t: Transform, dst: Rect, src: Rect, clip: Rect)
    requires Ordered32(src) && Unscaled(t, src, dst) && clip.Valid() && clip.Within(dst)
    ensures ToRect(SourceArea(t, dst, src, clip)) == ClippedUnscaled(t, dst, src, clip)
  {
    StartUnscaled(AxisX(t, dst, src, clip));
    StartUnscaled(AxisY(t, dst, src, clip));
  }

  function ClippedUnscaled(t: Transform, dst: Rect, src: Rect, clip: Rect): Rect {
    var x := if t.rot90 then clip.top - dst.top else clip.left - dst.left;
    var y := if t.rot90 then dst.right - clip.right else clip.top - dst.top;
    var w := if t.rot90 then clip.Height() else clip.Width();
    var h := if t.rot90 then clip.Width() else clip.Height();
    var left := if (if t.rot90 then t.flipV else t.flipH) then src.right - x - w else src.left + x;
    var top := if (if t.rot90 then t.flipH else t.flipV) then src.bottom - y - h else src.top + y;
    Rect(left, top, left + w, top + h)
  }

  lemma ClippedUnscaledPixels(t: Transform, dst: Rect, src: Rect, clip: Rect, p: Point)
    requires Unscaled(t, src, dst)
    ensures
      var part := ClippedUnscaled(t, dst, src, clip);
      Unscaled(t, part, clip) && BlitPixel(t, part, clip, p) == BlitPixel(t, src, dst, p)
  {
  }

  /** Clipping an unscaled blit does not move the picture: the smaller blit is unscaled too, and
      puts at every pixel it covers what the whole one would have put there. */
  lemma ClippedBlitSamePixels(t: Transform, dst: Rect, src: Rect, clip: Rect, p: Point)
    requires Ordered32(src) && Unscaled(t, src, dst) && clip.Valid() && clip.Within(dst)
    ensures
      var part := ToRect(SourceArea(t, dst, src, clip));
      Unscaled(t, part, clip) && BlitPixel(t, part, clip, p) == BlitPixel(t, src, dst, p)
  {
    UnscaledSource(t, dst, src, clip);
    ClippedUnscaledPixels(t, dst, src, clip, p);
  }

  // ------------------------------------------------------------------ where the product wraps

  /** The scaled number is the right one exactly as long as the product does not reach 2^32, or
      nothing is scaled. */
  lemma ScaledExactIff(a: nat, mul: nat, div: nat)
    requires 0 < div <= TWO_32
    ensures Scaled(a, mul, div) == mul * a / div <==> mul == div || mul * a < TWO_32
  {
    if mul == div {
      QuotientIs(mul * a, a, div);
    } else {
      Remainder(mul * a, div);
    }
  }

  /** Taking off a multiple of 2^32, which is at least `div`, lowers the quotient. */
  lemma Remainder(n: nat, div: nat)
    requires 0 < div <= TWO_32
    ensures Wrap(n) / div == n / div <==> n < TWO_32
  {
    if n >= TWO_32 {
      var m := Wrap(n);
      var p, q := m / div, n / div;
      assert m + div <= n;
      if p >= q {
        Times(q, p, div);
        assert n < q * div + div;
      }
    }
  }

  /** `a` of `extent`, carried over to the length `len` and rounded down. */
  function Share(len: int, a: int, extent: int): int
    requires extent > 0
  {
    len * a / extent
  }

  /** Neither product of the axis reaches 2^32, or nothing is scaled. */
  predicate NoWrap(a: SourceAxis) {
    a.high - a.low == a.extent || ((a.high - a.low) * a.delta < TWO_32 && (a.high - a.low) * a.size < TWO_32)
  }

  lemma ScaledShare(a: nat, len: nat, extent: nat)
    requires 0 < extent && (len == extent || len * a < TWO_32)
    ensures Scaled(a, len, extent) == Share(len, a, extent)
  {
    Times(0, a, len);
    if len == extent {
      QuotientIs(len * a, a, extent);
    } else {
      Wrapped(len * a);
    }
  }

  /** One axis of a scaled blit: what is skipped of the source, from the end where the picture
      begins, and what is read are the shares of what the clip skips and shows. */
  ghost predicate ReadsShare(a: SourceAxis)
    requires a.extent > 0
  {
    var skipped := if a.mirror then a.high - (SourceStart(a) + SourceSize(a)) else SourceStart(a) - a.low;
    && skipped == Share(a.high - a.low, a.delta, a.extent)
    && SourceSize(a) == Share(a.high - a.low, a.size, a.extent)
  }

  /** The start of the axis without the wrapping. */
  lemma StartUnwrapped(a: SourceAxis, d: nat)
    requires IsPart(a) && 0 <= a.low <= a.high < TWO_32 && d == Scaled(a.delta, a.high - a.low, a.extent)
    ensures SourceStart(a) == if a.mirror then a.high - d - SourceSize(a) else a.low + d
  {
    ScaledInside(a.delta, a.size, a.high - a.low, a.extent);
    Wrapped(d + a.low);
    Wrapped(a.low + a.high - (d + a.low + SourceSize(a)));
  }

  lemma AxisShare(a: SourceAxis)
    requires IsPart(a) && 0 <= a.low <= a.high < TWO_32 && NoWrap(a)
    ensures ReadsShare(a)
  {
    StartUnwrapped(a, Scaled(a.delta, a.high - a.low, a.extent));
    ScaledShare(a.delta, a.high - a.low, a.extent);
    ScaledShare(a.size, a.high - a.low, a.extent);
  }

  /** Which part a scaled blit reads, for all eight transforms: in a turned blit the rows of the
      source go along the columns of the destination, from its right edge on, and a flip counts from
      the far end of the source. */
  lemma ScaledBlitPart(t: Transform, dst: Rect, src: Rect, clip: Rect)
    requires Ordered32(src) && clip.Valid() && clip.Within(dst)
    requires NoWrap(AxisX(t, dst, src, clip)) && NoWrap(AxisY(t, dst, src, clip))
    ensures
      var part := ToRect(SourceArea(t, dst, src, clip));
      var x := if (if t.rot90 then t.flipV else t.flipH) then src.right - part.right else part.left - src.left;
      var y := if (if t.rot90 then t.flipH else t.flipV) then src.bottom - part.bottom else part.top - src.top;
      if t.rot90 then
        && x == Share(src.Width(), clip.top - dst.top, dst.Height())
        && part.Width() == Share(src.Width(), clip.Height(), dst.Height())
        && y == Share(src.Height(), dst.right - clip.right, dst.Width())
        && part.Height() == Share(src.Height(), clip.Width(), dst.Width())
      else
        && x == Share(src.Width(), clip.left - dst.left, dst.Width())
        && part.Width() == Share(src.Width(), clip.Width(), dst.Width())
        && y == Share(src.Height(), clip.top - dst.top, dst.Height())
        && part.Height() == Share(src.Height(), clip.Height(), dst.Height())
  {
    AxisShare(AxisX(t, dst, src, clip));
    AxisShare(AxisY(t, dst, src, clip));
  }

  /** A blit that reads the wrong part of its source: the destination begins 2^21 columns to the
      left of the screen, and the source column at the screen's edge is 0 where it should be 1024. */
  lemma BlitWraps()
    ensures
      var dst, src, screen := Rect(-0x20_0000, 0, 0x20_0000, 16), Rect(0, 0, 2048, 16), Rect(0, 0, 4096, 16);
      BlitOf(NO_TRANSFORM, dst, src, screen).Rectangles? && BlitOf(NO_TRANSFORM, dst, src, screen).src.x == 0
    ensures 2048 * 0x20_0000 / 0x40_0000 == 1024
  {
    assert Intersect(Rect(0, 0, 4096, 16), Rect(-0x20_0000, 0, 0x20_0000, 16)) == Rect(0, 0, 4096, 16);
    assert Wrap(2048 * 0x20_0000) == 0;
    assert Scaled(0x20_0000, 2048, 0x40_0000) == 0;
    assert SourceStart(SourceAxis(0x20_0000, 4096, 0x40_0000, 0, 2048, false)) == 0;
  }

  /** An inverted source, which stretch_copybit lets through: the area is wider than any buffer. */
  lemma InvertedBlit()
    ensures
      var dst, src := Rect(0, 0, 16, 16), Rect(10, 0, 5, 16);
      BlitOf(NO_TRANSFORM, dst, src, dst).Rectangles? && BlitOf(NO_TRANSFORM, dst, src, dst).src.w > 4096
  {
    assert Intersect(Rect(0, 0, 16, 16), Rect(0, 0, 16, 16)) == Rect(0, 0, 16, 16);
    assert Wrap(-80) == TWO_32 - 80;
    assert Scaled(16, -5, 16) == (TWO_32 - 80) / 16;
  }
}

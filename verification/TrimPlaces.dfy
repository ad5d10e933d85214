/** Where a layer is read from once it has been cut back (calculate_crop_rects and optimizeLayerRects
    in hwc_utils.cpp), turned and scaled layers included: the hardware maps the destination onto the
    crop, so a cut is exact when the crop loses the same part as the destination. */
module TrimPlaces {
  import opened Rects
  import opened Layers
  import opened Products
  import opened Rounding
  import opened OptimizeRects

  // ------------------------------------------------------------------ ratios of integers

  lemma Cancel(q: real, k: real, n: real)
    requires n > 0.0
    ensures q * n == k * n <==> q == k
  {
  }

  lemma RatioTimes(m: int, n: int)
    requires n > 0
    ensures m as real / n as real * n as real == m as real
  {
  }

  lemma Reorder(q: real, n: real, j: real)
    ensures q * n * j == q * (n * j) == q * j * n
  {
  }

  lemma RatioEq(m: int, n: int, k: int, j: int)
    requires n > 0 && j > 0
    ensures m as real / n as real == k as real / j as real <==> m * j == k * n
  {
    var q, r := m as real / n as real, k as real / j as real;
    RatioTimes(m, n);
    RatioTimes(k, j);
    var nj := n * j;
    RealProduct(n, j);
    Positive(n, j);
    Cancel(q, r, nj as real);
    Reorder(q, n as real, j as real);
    Reorder(r, j as real, n as real);
    RealProduct(m, j);
    RealProduct(k, n);
    RealProduct(j, n);
  }

  lemma Positive(n: int, j: int)
    requires n > 0 && j > 0
    ensures n * j > 0
  {
  }

  // ------------------------------------------------------------------ one axis

  /** The place along the crop, from `from` to `to`, on which x falls between lo and hi. */
  function Along(lo: int, hi: int, from: int, to: int, x: int): real
    requires lo < hi
  {
    (from * (hi - lo) + (to - from) * (x - lo)) as real / (hi - lo) as real
  }

  /** The crop from `from` to `to` loses u and v of n at its ends, and that is what `from2` and `to2`
      make of it. */
  predicate EndsFit(n: int, u: int, v: int, from: int, to: int, from2: int, to2: int) {
    (from2 - from) * n == (to - from) * u && (to - to2) * n == (to - from) * v
  }

  lemma Spread(a: int, b: int, m: int, s: int, n: int)
    ensures (a * m + b * s) * n == (a * n) * m + (b * n) * s
  {
  }

  lemma Gather(an: int, d: int, u: int, m: int, s: int)
    ensures (an + d * u) * m + (d * m) * s == (an + d * (u + s)) * m
  {
  }

  lemma Steps(from: int, to: int, from2: int, to2: int, n: int)
    ensures (to2 - from2) * n == (to - from) * n - (to - to2) * n - (from2 - from) * n
    ensures from2 * n == from * n + (from2 - from) * n
  {
  }

  lemma Less2(d: int, n: int, u: int, v: int)
    ensures d * (n - u - v) == d * n - d * u - d * v
  {
  }

  /** Then every x falls where it did. */
  lemma FallsWhereItDid(lo: int, hi: int, lo2: int, hi2: int, from: int, to: int, from2: int, to2: int, x: int)
    requires lo < hi && lo2 < hi2
    requires EndsFit(hi - lo, lo2 - lo, hi - hi2, from, to, from2, to2)
    ensures Along(lo2, hi2, from2, to2, x) == Along(lo, hi, from, to, x)
  {
    var n, u, v, m, s, d, d2 := hi - lo, lo2 - lo, hi - hi2, hi2 - lo2, x - lo2, to - from, to2 - from2;
    Steps(from, to, from2, to2, n);
    Less2(d, n, u, v);
    Spread(from2, d2, m, s, n);
    Gather(from * n, d, u, m, s);
    assert d2 * n == d * m && from2 * n == from * n + d * u;
    assert (from2 * m + d2 * s) * n == (from * n + d * (u + s)) * m;
    RatioEq(from2 * m + d2 * s, m, from * n + d * (x - lo), n);
  }

  lemma CancelInt(a: int, b: int, m: int)
    requires m > 0 && a * m == b * m
    ensures a == b
  {
  }

  /** The two ends tell. */
  lemma EndsTell(lo: int, hi: int, lo2: int, hi2: int, from: int, to: int, from2: int, to2: int)
    requires lo < hi && lo2 < hi2
    requires Along(lo2, hi2, from2, to2, lo2) == Along(lo, hi, from, to, lo2)
    requires Along(lo2, hi2, from2, to2, hi2) == Along(lo, hi, from, to, hi2)
    ensures EndsFit(hi - lo, lo2 - lo, hi - hi2, from, to, from2, to2)
  {
    var n, u, v, m, d, d2 := hi - lo, lo2 - lo, hi - hi2, hi2 - lo2, to - from, to2 - from2;
    RatioEq(from2 * m + d2 * 0, m, from * n + d * u, n);
    RatioEq(from2 * m + d2 * m, m, from * n + d * (hi2 - lo), n);
    Spread(from2, d2, m, 0, n);
    Spread(from2, d2, m, m, n);
    CancelInt(from2 * n, from * n + d * u, m);
    assert (from2 * n) * m + (d2 * n) * m == (from2 * n + d2 * n) * m;
    CancelInt(from2 * n + d2 * n, from * n + d * (n - v), m);
    Steps(from, to, from2, to2, n);
    Less2(d, n, 0, v);
  }

  /** The part of an extent that goes with `cut` of n is a whole number of pixels. */
  predicate Whole(extent: int, cut: int, n: int)
    requires n > 0
  {
    extent * cut % n == 0
  }

  lemma WholeMultiple(m: int, c: int, n: int)
    requires n > 0 && c * n == m
    ensures m % n == 0
  {
    Unique(m / n, c, m % n, 0, n);
  }

  /** The pixels cut off are that part exactly when it is whole. */
  lemma CutIsPart(extent: int, cut: int, n: int)
    requires extent >= 0 && cut >= 0 && n > 0
    ensures CutPixels(extent, cut as real / n as real) * n == extent * cut <==> Whole(extent, cut, n)
  {
    var c, m := CutPixels(extent, cut as real / n as real), extent * cut;
    RatioPixels(extent, cut, n);
    if c * n == m {
      WholeMultiple(m, c, n);
    } else if m % n == 0 {
      RoundsOf(c, m / n, 0, n);
    }
  }

  /** One axis of a crop, read in either direction. */
  function Axial(lo: int, hi: int, a: int, b: int, mirrored: bool, x: int): real
    requires lo < hi
  {
    if mirrored then Along(lo, hi, b, a, x) else Along(lo, hi, a, b, x)
  }

  /** What is left of [a, b] when u and v of n go at the ends. */
  function CutEnds(a: int, b: int, n: int, u: int, v: int, mirrored: bool): (int, int)
    requires n > 0
  {
    var cu, cv := CutPixels(b - a, u as real / n as real), CutPixels(b - a, v as real / n as real);
    if mirrored then (a + cv, b - cu) else (a + cu, b - cv)
  }

  /** Along one axis everything is read where it was. */
  ghost predicate AxisSame(lo2: int, hi2: int, a2: int, b2: int, lo: int, hi: int, a: int, b: int, mirrored: bool)
    requires lo < hi && lo2 < hi2
  {
    forall x :: Axial(lo2, hi2, a2, b2, mirrored, x) == Axial(lo, hi, a, b, mirrored, x)
  }

  lemma Negated(c: int, n: int, e: int, u: int)
    ensures (-c) * n == (-e) * u <==> c * n == e * u
  {
  }

  lemma AxisKept(lo: int, hi: int, lo2: int, hi2: int, a: int, b: int, mirrored: bool)
    requires lo <= lo2 < hi2 <= hi && a <= b
    ensures
      var n, u, v := hi - lo, lo2 - lo, hi - hi2;
      var cut := CutEnds(a, b, n, u, v, mirrored);
      AxisSame(lo2, hi2, cut.0, cut.1, lo, hi, a, b, mirrored) <==> Whole(b - a, u, n) && Whole(b - a, v, n)
  {
    var n, u, v := hi - lo, lo2 - lo, hi - hi2;
    var cut := CutEnds(a, b, n, u, v, mirrored);
    var cu, cv := CutPixels(b - a, u as real / n as real), CutPixels(b - a, v as real / n as real);
    CutIsPart(b - a, u, n);
    CutIsPart(b - a, v, n);
    Negated(cu, n, b - a, u);
    Negated(cv, n, b - a, v);
    var from, to := if mirrored then b else a, if mirrored then a else b;
    var from2, to2 := if mirrored then cut.1 else cut.0, if mirrored then cut.0 else cut.1;
    if EndsFit(n, u, v, from, to, from2, to2) {
      forall x ensures Axial(lo2, hi2, cut.0, cut.1, mirrored, x) == Axial(lo, hi, a, b, mirrored, x) {
        FallsWhereItDid(lo, hi, lo2, hi2, from, to, from2, to2, x);
      }
    }
    if AxisSame(lo2, hi2, cut.0, cut.1, lo, hi, a, b, mirrored) {
      assert Axial(lo2, hi2, cut.0, cut.1, mirrored, lo2) == Axial(lo, hi, a, b, mirrored, lo2);
      assert Axial(lo2, hi2, cut.0, cut.1, mirrored, hi2) == Axial(lo, hi, a, b, mirrored, hi2);
      EndsTell(lo, hi, lo2, hi2, from, to, from2, to2);
    }
  }

  // ------------------------------------------------------------------ both axes

  /** What the cuts on the four sides of the frame make of a crop. */
  ghost predicate CutAround(c: Rect, crop: Rect, frame: Rect, dest: Rect, t: Transform)
    requires frame.Valid()
  {
    var l, u, r, b := dest.left - frame.left, dest.top - frame.top, frame.right - dest.right, frame.bottom - dest.bottom;
    if t.rot90 then
      && (c.left, c.right) == CutEnds(crop.left, crop.right, frame.Height(), u, b, t.flipV)
      && (c.top, c.bottom) == CutEnds(crop.top, crop.bottom, frame.Width(), l, r, !t.flipH)
    else
      && (c.left, c.right) == CutEnds(crop.left, crop.right, frame.Width(), l, r, t.flipH)
      && (c.top, c.bottom) == CutEnds(crop.top, crop.bottom, frame.Height(), u, b, t.flipV)
  }

  /** The clipped crop, axis by axis. */
  lemma ClippedEnds(crop: Rect, frame: Rect, dest: Rect, t: Transform)
    requires frame.Valid() && dest.Within(frame)
    ensures CutAround(ClippedCrop(crop, frame, dest, t), crop, frame, dest, t)
  {
    CutRatiosInside(frame, dest);
  }

  /** One axis of a buffer and the axis of the screen on which it is shown. */
  datatype Reading = Reading(lo: int, hi: int, a: int, b: int, mirrored: bool) {
    predicate Valid() {
      lo < hi
    }

    predicate Inside(whole: Reading) {
      whole.lo <= lo < hi <= whole.hi && mirrored == whole.mirrored
    }
  }

  /** What is read along the columns and along the rows of a buffer; flips and turn in the order in
      which calc_cut takes them. */
  function ReadColumns(crop: Rect, frame: Rect, t: Transform): Reading {
    if t.rot90 then Reading(frame.top, frame.bottom, crop.left, crop.right, t.flipV)
    else Reading(frame.left, frame.right, crop.left, crop.right, t.flipH)
  }

  function ReadRows(crop: Rect, frame: Rect, t: Transform): Reading {
    if t.rot90 then Reading(frame.left, frame.right, crop.top, crop.bottom, !t.flipH)
    else Reading(frame.top, frame.bottom, crop.top, crop.bottom, t.flipV)
  }

  /** The same place is read at every coordinate of the screen. */
  ghost predicate SameReading(part: Reading, whole: Reading)
    requires part.Valid() && whole.Valid()
  {
    AxisSame(part.lo, part.hi, part.a, part.b, whole.lo, whole.hi, whole.a, whole.b, whole.mirrored)
  }

  /** The cuts at both ends take a whole number of pixels with them. */
  predicate WholeCuts(part: Reading, whole: Reading)
    requires whole.Valid()
  {
    && Whole(whole.b - whole.a, part.lo - whole.lo, whole.hi - whole.lo)
    && Whole(whole.b - whole.a, whole.hi - part.hi, whole.hi - whole.lo)
  }

  /** The part of a reading that is left after the cuts of calculate_crop_rects. */
  ghost predicate CutBack(part: Reading, whole: Reading) {
    && part.Inside(whole) && whole.a <= whole.b
    && (part.a, part.b) == CutEnds(whole.a, whole.b, whole.hi - whole.lo, part.lo - whole.lo, whole.hi - part.hi, whole.mirrored)
  }

  lemma ColumnsCutBack(c: Rect, crop: Rect, frame: Rect, dest: Rect, t: Transform)
    requires frame.Valid() && dest.Valid() && dest.Within(frame) && crop.Width() >= 0 && CutAround(c, crop, frame, dest, t)
    ensures CutBack(ReadColumns(c, dest, t), ReadColumns(crop, frame, t))
  {
  }

  lemma RowsCutBack(c: Rect, crop: Rect, frame: Rect, dest: Rect, t: Transform)
    requires frame.Valid() && dest.Valid() && dest.Within(frame) && crop.Height() >= 0 && CutAround(c, crop, frame, dest, t)
    ensures CutBack(ReadRows(c, dest, t), ReadRows(crop, frame, t))
  {
  }

  lemma ReadingKept(part: Reading, whole: Reading)
    requires CutBack(part, whole)
    ensures SameReading(part, whole) <==> WholeCuts(part, whole)
  {
    AxisKept(whole.lo, whole.hi, part.lo, part.hi, whole.a, whole.b, whole.mirrored);
  }

  /** Both axes of a layer that is cut from `crop` and `frame` to `crop2` and `dest`. */
  ghost predicate PlacesKept(crop2: Rect, dest: Rect, crop: Rect, frame: Rect, t: Transform)
    requires frame.Valid() && dest.Valid()
  {
    SameReading(ReadColumns(crop2, dest, t), ReadColumns(crop, frame, t)) && SameReading(ReadRows(crop2, dest, t), ReadRows(crop, frame, t))
  }

  /** A layer that is cut back goes on being read where it was, if and only if the cuts on all four
      sides take whole pixels with them; for all eight transforms, and scaled or not. */
  lemma ClippedPlacesIff(crop: Rect, frame: Rect, dest: Rect, t: Transform)
    requires frame.Valid() && dest.Valid() && dest.Within(frame) && crop.Width() >= 0 && crop.Height() >= 0
    ensures
      var c := ClippedCrop(crop, frame, dest, t);
      PlacesKept(c, dest, crop, frame, t) <==>
      WholeCuts(ReadColumns(c, dest, t), ReadColumns(crop, frame, t)) && WholeCuts(ReadRows(c, dest, t), ReadRows(crop, frame, t))
  {
    var c := ClippedCrop(crop, frame, dest, t);
    ClippedEnds(crop, frame, dest, t);
    ColumnsCutBack(c, crop, frame, dest, t);
    RowsCutBack(c, crop, frame, dest, t);
    BothKept(ReadColumns(c, dest, t), ReadColumns(crop, frame, t), ReadRows(c, dest, t), ReadRows(crop, frame, t));
  }

  lemma BothKept(columns: Reading, allColumns: Reading, rows: Reading, allRows: Reading)
    requires CutBack(columns, allColumns) && CutBack(rows, allRows)
    ensures SameReading(columns, allColumns) && SameReading(rows, allRows) <==>
      WholeCuts(columns, allColumns) && WholeCuts(rows, allRows)
  {
    ReadingKept(columns, allColumns);
    ReadingKept(rows, allRows);
  }

  // ------------------------------------------------------------------ trimmed layers

  lemma OwnPart(extent: int, cut: int)
    requires extent > 0
    ensures Whole(extent, cut, extent)
  {
    Unique(extent * cut / extent, cut, extent * cut % extent, 0, extent);
  }

  /** The cuts of a layer that is shown with a quarter turn, and passes for unscaled because its crop
      has the size of its frame before the turn. */
  predicate TurnedCutsWhole(frame: Rect, dest: Rect)
    requires frame.Valid()
  {
    var w, h := frame.Width(), frame.Height();
    && Whole(w, dest.top - frame.top, h) && Whole(w, frame.bottom - dest.bottom, h)
    && Whole(h, dest.left - frame.left, w) && Whole(h, frame.right - dest.right, w)
  }

  lemma UnscaledCutsWhole(c: Rect, crop: Rect, frame: Rect, dest: Rect, t: Transform)
    requires frame.Valid() && crop.Width() == frame.Width() && crop.Height() == frame.Height()
    ensures
      WholeCuts(ReadColumns(c, dest, t), ReadColumns(crop, frame, t)) && WholeCuts(ReadRows(c, dest, t), ReadRows(crop, frame, t)) <==>
      !t.rot90 || TurnedCutsWhole(frame, dest)
  {
    if !t.rot90 {
      OwnPart(frame.Width(), dest.left - frame.left);
      OwnPart(frame.Width(), frame.right - dest.right);
      OwnPart(frame.Height(), dest.top - frame.top);
      OwnPart(frame.Height(), frame.bottom - dest.bottom);
    }
  }

  /** What optimizeLayerRects leaves of a layer is read where it was, if and only if the layer is not
      turned or the cuts take whole pixels with them. */
  lemma TrimPlacesIff(top: Rect, l: Layer)
    requires !l.colorFill && !l.NeedsScaling() && l.frame.Valid() && TrimAgainst(top, l).frame.Valid()
    ensures
      var r := TrimAgainst(top, l);
      PlacesKept(r.Crop(), r.frame, l.Crop(), l.frame, l.transform) <==> !l.transform.rot90 || TurnedCutsWhole(l.frame, r.frame)
  {
    var r := TrimAgainst(top, l);
    if GetIntersection(l.frame, top).Valid() {
      DeductEdges(l.frame, top);
    } else {
      ClippedCropNone(l.Crop(), l.frame, l.transform);
    }
    assert r.frame.Within(l.frame) && r.Crop() == ClippedCrop(l.Crop(), l.frame, r.frame, l.transform);
    ClippedPlacesIff(l.Crop(), l.frame, r.frame, l.transform);
    UnscaledCutsWhole(r.Crop(), l.Crop(), l.frame, r.frame, l.transform);
  }

  /** What trimList leaves of a layer, scaled or not, is read where it was under the same condition. */
  lemma ScreenPlacesIff(l: Layer, screen: Rect, view: Rect)
    requires !l.colorFill && l.frame.Valid() && Leaves(l.frame, screen) && l.Crop().Width() >= 0 && l.Crop().Height() >= 0
    requires TrimToScreen(l, screen, view).frame.Valid()
    ensures
      var r := TrimToScreen(l, screen, view);
      PlacesKept(r.Crop(), r.frame, l.Crop(), l.frame, l.transform) <==>
      && WholeCuts(ReadColumns(r.Crop(), r.frame, l.transform), ReadColumns(l.Crop(), l.frame, l.transform))
      && WholeCuts(ReadRows(r.Crop(), r.frame, l.transform), ReadRows(l.Crop(), l.frame, l.transform))
  {
    var r := TrimToScreen(l, screen, view);
    TrimToPart(l, GetIntersection(view, screen));
    assert r.Crop() == ClippedCrop(l.Crop(), l.frame, r.frame, l.transform);
    ClippedPlacesIff(l.Crop(), l.frame, r.frame, l.transform);
  }

  /** A turned layer of 100 by 200 that passes for unscaled. */
  predicate Portrait(l: Layer) {
    l.frame == l.Crop() == Rect(0, 0, 100, 200) && l.transform == Transform(false, false, true) && !l.colorFill
  }

  lemma TrimmedFrame(top: Rect, l: Layer)
    requires Portrait(l) && GetIntersection(l.frame, top).Valid()
    ensures TrimAgainst(top, l).frame == DeductRect(l.frame, GetIntersection(l.frame, top))
  {
    DeductEdges(l.frame, top);
  }

  lemma TurnedKept(top: Rect, l: Layer, r: Layer)
    requires !l.colorFill && !l.NeedsScaling() && l.frame.Valid() && l.transform.rot90
    requires r == TrimAgainst(top, l) && r.frame.Valid()
    ensures PlacesKept(r.Crop(), r.frame, l.Crop(), l.frame, l.transform) <==> TurnedCutsWhole(l.frame, r.frame)
  {
    TrimPlacesIff(top, l);
  }

  lemma OneRow()
    ensures !TurnedCutsWhole(Rect(0, 0, 100, 200), Rect(0, 1, 100, 200))
  {
    assert 100 * 1 % 200 == 100;
  }

  lemma TenColumns()
    ensures TurnedCutsWhole(Rect(0, 0, 100, 200), Rect(10, 0, 100, 200))
  {
    assert 200 * 10 % 100 == 0;
  }

  /** Under an opaque line of one row it loses a whole column of its buffer for half of one... */
  lemma OddCutMoves(l: Layer, r: Layer)
    requires Portrait(l) && r == TrimAgainst(Rect(0, 0, 100, 1), l)
    ensures r.frame == Rect(0, 1, 100, 200) && !PlacesKept(r.Crop(), r.frame, l.Crop(), l.frame, l.transform)
  {
    TrimmedFrame(Rect(0, 0, 100, 1), l);
    OneRow();
    TurnedKept(Rect(0, 0, 100, 1), l, r);
  }

  /** ... and under an opaque bar of ten columns nothing moves, although it is not square. */
  lemma EvenCutStays(l: Layer, r: Layer)
    requires Portrait(l) && r == TrimAgainst(Rect(0, 0, 10, 200), l)
    ensures r.frame == Rect(10, 0, 100, 200) && PlacesKept(r.Crop(), r.frame, l.Crop(), l.frame, l.transform)
  {
    TrimmedFrame(Rect(0, 0, 10, 200), l);
    TenColumns();
    TurnedKept(Rect(0, 0, 10, 200), l, r);
  }

  lemma PortraitExists()
    ensures
      var screen := Rect(0, 0, 100, 200);
      Portrait(Layer(0, screen, ToFRect(screen), Transform(false, false, true), Premult, 0xFF, false))
  {
  }
}

/** validateAndApplyROI (hwc_mdpcomp.cpp), for one panel and for a panel in two halves:
    layers that cannot be seen inside the region of interest are dropped. */
module RoiDrop {
  import opened Rects
  import opened Layers
  import opened Frames

  /** Reset: a scaled layer would have to be cropped to the ROI, so the ROI is given up. */
  datatype Outcome = Reset | Keep(drop: seq<bool>)

  function Extend(o: Outcome, dropped: bool): Outcome {
    match o
    case Reset => Reset
    case Keep(d) => Keep(d + [dropped])
  }

  function Append(o: Outcome, tail: seq<bool>): Outcome {
    match o
    case Reset => Reset
    case Keep(d) => Keep(d + tail)
  }

  /** The scan goes from the top layer down; `vis` is the part of the ROI still in view. */
  function Scan(ls: seq<Layer>, vis: Rect): (o: Outcome)
    ensures o.Keep? ==> |o.drop| == |ls|
  {
    if ls == [] then
      Keep([])
    else
      var l, rest := ls[|ls| - 1], ls[..|ls| - 1];
      if !vis.Valid() then
        Extend(Scan(rest, vis), true)
      else
        var res := GetIntersection(vis, l.frame);
        if !res.Valid() then
          Extend(Scan(rest, vis), true)
        else if res != l.frame && l.NeedsScaling() then
          Reset
        else
          Extend(Scan(rest, if l.Opaque() then DeductRect(vis, res) else vis), false)
  }

  function ScanSplit(ls: seq<Layer>, visL: Rect, visR: Rect): (o: Outcome)
    ensures o.Keep? ==> |o.drop| == |ls|
  {
    if ls == [] then
      Keep([])
    else
      var l, rest := ls[|ls| - 1], ls[..|ls| - 1];
      if !visL.Valid() && !visR.Valid() then
        Extend(ScanSplit(rest, visL, visR), true)
      else
        var resL, resR := GetIntersection(visL, l.frame), GetIntersection(visR, l.frame);
        if !resL.Valid() && !resR.Valid() then
          Extend(ScanSplit(rest, visL, visR), true)
        else if GetUnion(resL, resR) != l.frame && l.NeedsScaling() then
          Reset
        else if l.Opaque() then
          Extend(ScanSplit(rest, DeductRect(visL, resL), DeductRect(visR, resR)), false)
        else
          Extend(ScanSplit(rest, visL, visR), false)
  }

  // ------------------------------------------------------------------ the methods

  /** What either composer leaves behind: the flags of the scan, or no drop at all. */
  twostate predicate Applied(f: FrameInfo, ok: bool, o: Outcome)
    requires f.Valid()
    reads f, f.drop
  {
    && f.layerCount == old(f.layerCount)
    && (ok <==> o.Keep?)
    && (ok ==> f.Drops() == o.drop && f.dropCount == Count(o.drop))
    && (!ok ==> f.dropCount == 0 && forall i :: 0 <= i < f.drop.Length ==> !f.drop[i])
  }

  lemma {:induction false} CountAppend(s: seq<bool>, t: seq<bool>)
    ensures Count(s + t) == Count(s) + Count(t)
  {
    if t == [] {
      assert s + t == s;
    } else {
      CountAppend(s, t[..|t| - 1]);
      assert (s + t)[..|s + t| - 1] == s + t[..|t| - 1];
    }
  }

  /** Marking layer i on top of the flags already decided above it. */
  lemma DropStep(before: seq<bool>, after: seq<bool>, i: nat, n: nat, o: Outcome, d: bool)
    requires |before| == |after| && i < n <= |before|
    requires after == before[i := d]
    ensures after[i..n] == [d] + before[i + 1..n]
    ensures Append(Extend(o, d), before[i + 1..n]) == Append(o, after[i..n])
    ensures Count(after[i..n]) == Count(before[i + 1..n]) + (if d then 1 else 0)
  {
    assert after[i..n] == [d] + before[i + 1..n];
    CountAppend([d], before[i + 1..n]);
    assert [d][..0] == [];
    if o.Keep? {
      assert (o.drop + [d]) + before[i + 1..n] == o.drop + ([d] + before[i + 1..n]);
    }
  }

  datatype Verdict = Dropped | Unsuitable | Shown

  /** What becomes of one layer, and what of the ROI is in view below it. */
  method JudgeLayer(layer: Layer, visibleRect: Rect, ghost rest: seq<Layer>) returns (verdict: Verdict, below: Rect)
    ensures Scan(rest + [layer], visibleRect) ==
            if verdict.Unsuitable? then Reset else Extend(Scan(rest, below), verdict.Dropped?)
  {
    assert (rest + [layer])[..|rest|] == rest;
    below := visibleRect;
    if !visibleRect.Valid() {
      return Dropped, below;
    }
    var res := GetIntersection(visibleRect, layer.frame);
    if !res.Valid() {
      return Dropped, below;
    }
    if res != layer.frame && layer.NeedsScaling() {
      return Unsuitable, below;
    }
    if layer.Opaque() {
      below := DeductRect(visibleRect, res);
    }
    return Shown, below;
  }

  /** Layer i joins the layers above it, `rest` being what becomes of the ones below. */
  method MarkLayer(f: FrameInfo, i: nat, dropped: bool, ghost rest: Outcome)
    requires f.Valid() && i < f.layerCount && f.dropCount == Count(f.drop[i + 1..f.layerCount])
    requires forall k :: 0 <= k <= i ==> !f.drop[k]
    modifies f`dropCount, f.drop
    ensures f.Valid() && f.dropCount == Count(f.drop[i..f.layerCount])
    ensures forall k :: 0 <= k < i ==> !f.drop[k]
    ensures Append(rest, f.drop[i..f.layerCount]) == Append(Extend(rest, dropped), old(f.drop[i + 1..f.layerCount]))
  {
    ghost var before := f.drop[..];
    if dropped {
      f.drop[i] := true;
      f.dropCount := f.dropCount + 1;
    }
    assert f.drop[..] == before[i := dropped];
    DropStep(before, f.drop[..], i, f.layerCount, rest, dropped);
  }

  /** One round of the loop: `whole` is the outcome, of which the flags from i + 1 up are set. */
  method ApplyLayer(f: FrameInfo, list: seq<Layer>, i: nat, visibleRect: Rect, ghost whole: Outcome) returns (ok: bool, below: Rect)
    requires f.Valid() && i < |list| == f.layerCount && f.dropCount == Count(f.drop[i + 1..f.layerCount])
    requires forall k :: 0 <= k <= i ==> !f.drop[k]
    requires Append(Scan(list[..i + 1], visibleRect), f.drop[i + 1..f.layerCount]) == whole
    modifies f`dropCount, f.drop
    ensures f.Valid()
    ensures ok ==>
      && f.dropCount == Count(f.drop[i..f.layerCount]) && (forall k :: 0 <= k < i ==> !f.drop[k])
      && Append(Scan(list[..i], below), f.drop[i..f.layerCount]) == whole
    ensures !ok ==> whole == Reset && f.dropCount == 0 && forall k :: 0 <= k < f.drop.Length ==> !f.drop[k]
  {
    assert list[..i + 1] == list[..i] + [list[i]];
    var verdict;
    verdict, below := JudgeLayer(list[i], visibleRect, list[..i]);
    ok := !verdict.Unsuitable?;
    if ok {
      MarkLayer(f, i, verdict.Dropped?, Scan(list[..i], below));
    } else {
      f.ClearDrops();
    }
  }

  method ValidateAndApplyROI(f: FrameInfo, list: seq<Layer>, lRoi: Rect) returns (ok: bool)
    requires f.Valid() && |list| == f.layerCount
    requires f.dropCount == 0 && forall i :: 0 <= i < f.drop.Length ==> !f.drop[i]
    modifies f`dropCount, f.drop
    ensures f.Valid() && Applied(f, ok, Scan(list, lRoi))
  {
    ghost var whole := Scan(list, lRoi);
    var visibleRect := lRoi;
    assert list[..|list|] == list;
    var i := |list| - 1;
    ok := true;
    while ok && i >= 0
      invariant f.Valid() && f.layerCount == |list|
      invariant ok ==>
        && -1 <= i < |list| && f.dropCount == Count(f.drop[i + 1..f.layerCount]) && (forall k :: 0 <= k <= i ==> !f.drop[k])
        && Append(Scan(list[..i + 1], visibleRect), f.drop[i + 1..f.layerCount]) == whole
      invariant !ok ==> whole == Reset && f.dropCount == 0 && forall k :: 0 <= k < f.drop.Length ==> !f.drop[k]
      decreases i + 1, ok
    {
      ok, visibleRect := ApplyLayer(f, list, i, visibleRect, whole);
      i := i - 1;
    }
  }

  method JudgeLayerSplit(layer: Layer, visibleRectL: Rect, visibleRectR: Rect, ghost rest: seq<Layer>)
    returns (verdict: Verdict, belowL: Rect, belowR: Rect)
    ensures ScanSplit(rest + [layer], visibleRectL, visibleRectR) ==
            if verdict.Unsuitable? then Reset else Extend(ScanSplit(rest, belowL, belowR), verdict.Dropped?)
  {
    assert (rest + [layer])[..|rest|] == rest;
    belowL, belowR := visibleRectL, visibleRectR;
    if !visibleRectL.Valid() && !visibleRectR.Valid() {
      return Dropped, belowL, belowR;
    }
    var lRes := GetIntersection(visibleRectL, layer.frame);
    var rRes := GetIntersection(visibleRectR, layer.frame);
    var res := GetUnion(lRes, rRes);
    if !lRes.Valid() && !rRes.Valid() {
      return Dropped, belowL, belowR;
    }
    if res != layer.frame && layer.NeedsScaling() {
      return Unsuitable, belowL, belowR;
    }
    if layer.Opaque() {
      belowL := DeductRect(visibleRectL, lRes);
      belowR := DeductRect(visibleRectR, rRes);
    }
    return Shown, belowL, belowR;
  }

  method ApplyLayerSplit(f: FrameInfo, list: seq<Layer>, i: nat, visibleRectL: Rect, visibleRectR: Rect, ghost whole: Outcome)
    returns (ok: bool, belowL: Rect, belowR: Rect)
    requires f.Valid() && i < |list| == f.layerCount && f.dropCount == Count(f.drop[i + 1..f.layerCount])
    requires forall k :: 0 <= k <= i ==> !f.drop[k]
    requires Append(ScanSplit(list[..i + 1], visibleRectL, visibleRectR), f.drop[i + 1..f.layerCount]) == whole
    modifies f`dropCount, f.drop
    ensures f.Valid()
    ensures ok ==>
      && f.dropCount == Count(f.drop[i..f.layerCount]) && (forall k :: 0 <= k < i ==> !f.drop[k])
      && Append(ScanSplit(list[..i], belowL, belowR), f.drop[i..f.layerCount]) == whole
    ensures !ok ==> whole == Reset && f.dropCount == 0 && forall k :: 0 <= k < f.drop.Length ==> !f.drop[k]
  {
    assert list[..i + 1] == list[..i] + [list[i]];
    var verdict;
    verdict, belowL, belowR := JudgeLayerSplit(list[i], visibleRectL, visibleRectR, list[..i]);
    ok := !verdict.Unsuitable?;
    if ok {
      MarkLayer(f, i, verdict.Dropped?, ScanSplit(list[..i], belowL, belowR));
    } else {
      f.ClearDrops();
    }
  }

  method ValidateAndApplyROISplit(f: FrameInfo, list: seq<Layer>, lRoi: Rect, rRoi: Rect) returns (ok: bool)
    requires f.Valid() && |list| == f.layerCount
    requires f.dropCount == 0 && forall i :: 0 <= i < f.drop.Length ==> !f.drop[i]
    modifies f`dropCount, f.drop
    ensures f.Valid() && Applied(f, ok, ScanSplit(list, lRoi, rRoi))
  {
    ghost var whole := ScanSplit(list, lRoi, rRoi);
    var visibleRectL, visibleRectR := lRoi, rRoi;
    assert list[..|list|] == list;
    var i := |list| - 1;
    ok := true;
    while ok && i >= 0
      invariant f.Valid() && f.layerCount == |list|
      invariant ok ==>
        && -1 <= i < |list| && f.dropCount == Count(f.drop[i + 1..f.layerCount]) && (forall k :: 0 <= k <= i ==> !f.drop[k])
        && Append(ScanSplit(list[..i + 1], visibleRectL, visibleRectR), f.drop[i + 1..f.layerCount]) == whole
      invariant !ok ==> whole == Reset && f.dropCount == 0 && forall k :: 0 <= k < f.drop.Length ==> !f.drop[k]
      decreases i + 1, ok
    {
      ok, visibleRectL, visibleRectR := ApplyLayerSplit(f, list, i, visibleRectL, visibleRectR, whole);
      i := i - 1;
    }
  }

  // ------------------------------------------------------------------ the picture

  /** The composite of the layers that were not dropped. */
  function CompositeKept(ls: seq<Layer>, drop: seq<bool>, tex: Sample -> int, p: Point): Color
    requires |ls| == |drop|
  {
    if ls == [] then
      Background
    else
      var n := |ls| - 1;
      var below := CompositeKept(ls[..n], drop[..n], tex, p);
      if !drop[n] && ls[n].frame.Has(p) then Paint(ls[n], Ink(tex(SampleAt(ls[n], p))), below) else below
  }

  /** Inside the ROI the kept layers show what all layers show: a dropped layer's pixels in
      the ROI all lie under a kept opaque layer. */
  lemma {:induction false} DropPreserves(ls: seq<Layer>, roi: Rect, tex: Sample -> int, p: Point)
    requires Scan(ls, roi).Keep? && roi.Has(p)
    ensures CompositeKept(ls, Scan(ls, roi).drop, tex, p) == Composite(ls, tex, p)
  {
    if ls != [] {
      var n := |ls| - 1;
      var l, rest, drop := ls[n], ls[..n], Scan(ls, roi).drop;
      var res := GetIntersection(roi, l.frame);
      if !res.Valid() {
        assert drop == Scan(rest, roi).drop + [true];
        DropPreserves(rest, roi, tex, p);
      } else if l.Opaque() && l.frame.Has(p) {
        assert drop == Scan(rest, DeductRect(roi, res)).drop + [false];
      } else {
        var vis := if l.Opaque() then DeductRect(roi, res) else roi;
        assert drop == Scan(rest, vis).drop + [false];
        DeductOverlap(roi, l.frame, p);
        DropPreserves(rest, vis, tex, p);
      }
    }
  }

  /** Deducting the empty overlap changes nothing that has pixels. */
  lemma DeductNothing(r: Rect, p: Point)
    requires r.Has(p)
    ensures DeductRect(r, ZERO_RECT) == r
  {
  }

  lemma StaysVisible(vis: Rect, l: Layer, p: Point)
    requires vis.Has(p) && !l.frame.Has(p)
    ensures DeductRect(vis, GetIntersection(vis, l.frame)).Has(p)
  {
    DeductOverlap(vis, l.frame, p);
    if !GetIntersection(vis, l.frame).Valid() {
      DeductNothing(vis, p);
    }
  }

  /** The same for a panel in two halves, each with its own ROI. */
  lemma {:induction false} DropPreservesSplit(ls: seq<Layer>, lRoi: Rect, rRoi: Rect, tex: Sample -> int, p: Point)
    requires ScanSplit(ls, lRoi, rRoi).Keep? && (lRoi.Has(p) || rRoi.Has(p))
    ensures CompositeKept(ls, ScanSplit(ls, lRoi, rRoi).drop, tex, p) == Composite(ls, tex, p)
  {
    if ls != [] {
      var n := |ls| - 1;
      var l, rest, drop := ls[n], ls[..n], ScanSplit(ls, lRoi, rRoi).drop;
      var resL, resR := GetIntersection(lRoi, l.frame), GetIntersection(rRoi, l.frame);
      if !resL.Valid() && !resR.Valid() {
        assert drop == ScanSplit(rest, lRoi, rRoi).drop + [true];
        DropPreservesSplit(rest, lRoi, rRoi, tex, p);
      } else if l.Opaque() {
        var visL, visR := DeductRect(lRoi, resL), DeductRect(rRoi, resR);
        assert drop == ScanSplit(rest, visL, visR).drop + [false];
        if !l.frame.Has(p) {
          if lRoi.Has(p) { StaysVisible(lRoi, l, p); } else { StaysVisible(rRoi, l, p); }
          DropPreservesSplit(rest, visL, visR, tex, p);
        }
      } else {
        assert drop == ScanSplit(rest, lRoi, rRoi).drop + [false];
        DropPreservesSplit(rest, lRoi, rRoi, tex, p);
      }
    }
  }

  /** Nothing more is kept than needed, and no kept layer that needs scaling is cropped: a
      kept layer shares a pixel with the ROI, a scaled one lies in it altogether. */
  lemma {:induction false} KeptTouchesRoi(ls: seq<Layer>, vis: Rect, roi: Rect, i: nat) returns (p: Point)
    requires Scan(ls, vis).Keep? && i < |ls| && !Scan(ls, vis).drop[i]
    requires forall q: Point :: vis.Has(q) ==> roi.Has(q)
    ensures roi.Has(p) && ls[i].frame.Has(p)
    ensures ls[i].NeedsScaling() ==> forall q: Point :: ls[i].frame.Has(q) ==> roi.Has(q)
  {
    var n := |ls| - 1;
    var l, rest := ls[n], ls[..n];
    var res := GetIntersection(vis, l.frame);
    if i == n {
      p := Point(res.left, res.top);
      assert res.Has(p);
    } else if !vis.Valid() || !res.Valid() {
      p := KeptTouchesRoi(rest, vis, roi, i);
    } else {
      var vis' := if l.Opaque() then DeductRect(vis, res) else vis;
      forall q: Point | vis'.Has(q) ensures roi.Has(q) {
        DeductOverlap(vis, l.frame, q);
      }
      p := KeptTouchesRoi(rest, vis', roi, i);
    }
  }

  // ------------------------------------------------------------------ nothing hidden is kept

  lemma {:induction false} NothingInView(ls: seq<Layer>, vis: Rect)
    requires !vis.Valid()
    ensures Scan(ls, vis) == Keep(AllTrue(|ls|))
  {
    if ls != [] {
      NothingInView(ls[..|ls| - 1], vis);
    }
  }

  lemma WholeDeducted(vis: Rect, frame: Rect)
    requires vis.Valid() && vis.Within(frame)
    ensures GetIntersection(vis, frame) == vis && !DeductRect(vis, vis).Valid()
  {
  }

  /** Under an opaque layer that covers the region, everything is dropped. */
  lemma {:induction false} HiddenDropped(ls: seq<Layer>, vis: Rect, j: nat)
    requires j < |ls| && ls[j].Opaque() && (vis.Valid() ==> vis.Within(ls[j].frame))
    ensures Scan(ls, vis).Keep? ==> forall i :: 0 <= i < j ==> Scan(ls, vis).drop[i]
  {
    var n := |ls| - 1;
    var rest, res := ls[..n], GetIntersection(vis, ls[n].frame);
    if !vis.Valid() {
      NothingInView(ls, vis);
    } else if j == n {
      WholeDeducted(vis, ls[n].frame);
      NothingInView(rest, DeductRect(vis, res));
    } else if res.Valid() && ls[n].Opaque() {
      DeductEdges(vis, ls[n].frame);
      HiddenDropped(rest, DeductRect(vis, res), j);
    } else {
      HiddenDropped(rest, vis, j);
    }
  }

  /** An opaque layer from n up covers q. */
  predicate Hides(ls: seq<Layer>, n: nat, q: Point) {
    exists k :: n <= k < |ls| && ls[k].Opaque() && ls[k].frame.Has(q)
  }

  lemma HidesStep(ls: seq<Layer>, n: nat, q: Point)
    requires n < |ls|
    ensures Hides(ls, n, q) <==> Hides(ls, n + 1, q) || (ls[n].Opaque() && ls[n].frame.Has(q))
  {
  }

  /** `vis` is the part of the ROI that is left in view under the layers from n up, or more. */
  ghost predicate InView(vis: Rect, roi: Rect, ls: seq<Layer>, n: nat) {
    forall q: Point :: (vis.Has(q) ==> roi.Has(q)) && (roi.Has(q) ==> vis.Has(q) || Hides(ls, n, q))
  }

  lemma AllInView(roi: Rect, ls: seq<Layer>)
    ensures InView(roi, roi, ls, |ls|)
  {
  }

  lemma SameInView(vis: Rect, roi: Rect, ls: seq<Layer>, n: nat)
    requires n < |ls| && InView(vis, roi, ls, n + 1)
    ensures InView(vis, roi, ls, n)
  {
    forall q: Point ensures Hides(ls, n + 1, q) ==> Hides(ls, n, q) {
      HidesStep(ls, n, q);
    }
  }

  lemma LessInView(vis: Rect, roi: Rect, ls: seq<Layer>, n: nat)
    requires n < |ls| && InView(vis, roi, ls, n + 1) && ls[n].Opaque()
    ensures InView(DeductRect(vis, GetIntersection(vis, ls[n].frame)), roi, ls, n)
  {
    var cut := DeductRect(vis, GetIntersection(vis, ls[n].frame));
    forall q: Point ensures (cut.Has(q) ==> roi.Has(q)) && (roi.Has(q) ==> cut.Has(q) || Hides(ls, n, q)) {
      HidesStep(ls, n, q);
      DeductOverlap(vis, ls[n].frame, q);
      DeductZero(vis, q);
      if vis.Has(q) && !ls[n].frame.Has(q) {
        StaysVisible(vis, ls[n], q);
      }
    }
  }

  lemma DeductZero(r: Rect, q: Point)
    ensures DeductRect(r, ZERO_RECT).Has(q) ==> r.Has(q)
  {
  }

  /** A rectangle that is not all of another one lacks one of its pixels. */
  lemma Lacking(part: Rect, whole: Rect) returns (q: Point)
    requires part.Within(whole) && part.Valid() && part != whole
    ensures whole.Has(q) && !part.Has(q)
  {
    q := if part.left != whole.left || part.top != whole.top then Point(whole.left, whole.top)
         else Point(whole.right - 1, whole.bottom - 1);
  }

  /** Layer l meets what is in view, but is not all there. */
  lemma PartlySeen(vis: Rect, frame: Rect) returns (p: Point, q: Point)
    requires GetIntersection(vis, frame).Valid() && GetIntersection(vis, frame) != frame
    ensures vis.Has(p) && frame.Has(p) && !vis.Has(q) && frame.Has(q)
  {
    var res := GetIntersection(vis, frame);
    p := Point(res.left, res.top);
    assert res.Has(p);
    q := Lacking(res, frame);
  }

  /** The ROI is given up only for a scaled layer that it meets, and of which a pixel lies outside it
      or under an opaque layer. */
  lemma {:induction false} ResetByScaled(ls: seq<Layer>, n: nat, vis: Rect, roi: Rect) returns (i: nat, p: Point, q: Point)
    requires n <= |ls| && Scan(ls[..n], vis).Reset? && InView(vis, roi, ls, n)
    ensures i < n && ls[i].NeedsScaling() && ls[i].frame.Has(p) && roi.Has(p)
    ensures ls[i].frame.Has(q) && (!roi.Has(q) || Hides(ls, i + 1, q))
  {
    var l := ls[n - 1];
    var res := GetIntersection(vis, l.frame);
    assert ls[..n][..n - 1] == ls[..n - 1];
    if !vis.Valid() || !res.Valid() || (!l.Opaque() && (res == l.frame || !l.NeedsScaling())) {
      SameInView(vis, roi, ls, n - 1);
      i, p, q := ResetByScaled(ls, n - 1, vis, roi);
    } else if res != l.frame && l.NeedsScaling() {
      i := n - 1;
      p, q := PartlySeen(vis, l.frame);
    } else {
      LessInView(vis, roi, ls, n - 1);
      i, p, q := ResetByScaled(ls, n - 1, DeductRect(vis, res), roi);
    }
  }

  // ------------------------------------------------------------------ and in two halves

  lemma {:induction false} NothingInViewSplit(ls: seq<Layer>, visL: Rect, visR: Rect)
    requires !visL.Valid() && !visR.Valid()
    ensures ScanSplit(ls, visL, visR) == Keep(AllTrue(|ls|))
  {
    if ls != [] {
      NothingInViewSplit(ls[..|ls| - 1], visL, visR);
    }
  }

  lemma DeductsToNothing(vis: Rect, frame: Rect)
    requires vis.Valid() ==> vis.Within(frame)
    ensures !DeductRect(vis, GetIntersection(vis, frame)).Valid()
  {
    if vis.Valid() {
      WholeDeducted(vis, frame);
    }
  }

  lemma DeductStaysWithin(vis: Rect, other: Rect, frame: Rect)
    requires vis.Valid() ==> vis.Within(frame)
    ensures
      var d := DeductRect(vis, GetIntersection(vis, other));
      d.Valid() ==> d.Within(frame)
  {
    if GetIntersection(vis, other).Valid() {
      DeductEdges(vis, other);
    }
  }

  lemma {:induction false} HiddenDroppedSplit(ls: seq<Layer>, visL: Rect, visR: Rect, j: nat)
    requires j < |ls| && ls[j].Opaque()
    requires (visL.Valid() ==> visL.Within(ls[j].frame)) && (visR.Valid() ==> visR.Within(ls[j].frame))
    ensures ScanSplit(ls, visL, visR).Keep? ==> forall i :: 0 <= i < j ==> ScanSplit(ls, visL, visR).drop[i]
  {
    var n := |ls| - 1;
    var l, rest := ls[n], ls[..n];
    var resL, resR := GetIntersection(visL, l.frame), GetIntersection(visR, l.frame);
    if !visL.Valid() && !visR.Valid() {
      NothingInViewSplit(ls, visL, visR);
    } else if j == n {
      DeductsToNothing(visL, l.frame);
      DeductsToNothing(visR, l.frame);
      NothingInViewSplit(rest, DeductRect(visL, resL), DeductRect(visR, resR));
    } else if (resL.Valid() || resR.Valid()) && l.Opaque() {
      DeductStaysWithin(visL, l.frame, ls[j].frame);
      DeductStaysWithin(visR, l.frame, ls[j].frame);
      HiddenDroppedSplit(rest, DeductRect(visL, resL), DeductRect(visR, resR), j);
    } else {
      HiddenDroppedSplit(rest, visL, visR, j);
    }
  }

  /** Nothing is kept for nothing, and no scaled layer is cropped; the ROI is given up only for a
      scaled layer that it meets. */
  lemma {:induction false} SplitTouchesRoi(ls: seq<Layer>, visL: Rect, visR: Rect, roiL: Rect, roiR: Rect, i: nat) returns (p: Point)
    requires ScanSplit(ls, visL, visR).Keep? && i < |ls| && !ScanSplit(ls, visL, visR).drop[i]
    requires forall q: Point :: (visL.Has(q) ==> roiL.Has(q)) && (visR.Has(q) ==> roiR.Has(q))
    ensures (roiL.Has(p) || roiR.Has(p)) && ls[i].frame.Has(p)
  {
    var n := |ls| - 1;
    var l, rest := ls[n], ls[..n];
    var resL, resR := GetIntersection(visL, l.frame), GetIntersection(visR, l.frame);
    if i == n {
      var res := if resL.Valid() then resL else resR;
      p := Point(res.left, res.top);
      assert res.Has(p);
    } else if (!visL.Valid() && !visR.Valid()) || (!resL.Valid() && !resR.Valid()) || !l.Opaque() {
      p := SplitTouchesRoi(rest, visL, visR, roiL, roiR, i);
    } else {
      forall q: Point
        ensures (DeductRect(visL, resL).Has(q) ==> roiL.Has(q)) && (DeductRect(visR, resR).Has(q) ==> roiR.Has(q))
      {
        DeductOverlap(visL, l.frame, q);
        DeductOverlap(visR, l.frame, q);
      }
      p := SplitTouchesRoi(rest, DeductRect(visL, resL), DeductRect(visR, resR), roiL, roiR, i);
    }
  }

  lemma PartlySeenSplit(visL: Rect, visR: Rect, frame: Rect) returns (p: Point, q: Point)
    requires
      var resL, resR := GetIntersection(visL, frame), GetIntersection(visR, frame);
      (resL.Valid() || resR.Valid()) && GetUnion(resL, resR) != frame
    ensures (visL.Has(p) || visR.Has(p)) && frame.Has(p) && !visL.Has(q) && !visR.Has(q) && frame.Has(q)
  {
    var resL, resR := GetIntersection(visL, frame), GetIntersection(visR, frame);
    var res := if resL.Valid() then resL else resR;
    p := Point(res.left, res.top);
    assert res.Has(p);
    q := Lacking(GetUnion(resL, resR), frame);
  }

  /** The ROIs are given up only for a scaled layer that one of them meets, and of which a pixel lies
      outside both or under an opaque layer. */
  lemma {:induction false} SplitResetByScaled(ls: seq<Layer>, n: nat, visL: Rect, visR: Rect, roiL: Rect, roiR: Rect)
    returns (i: nat, p: Point, q: Point)
    requires n <= |ls| && ScanSplit(ls[..n], visL, visR).Reset? && InView(visL, roiL, ls, n) && InView(visR, roiR, ls, n)
    ensures i < n && ls[i].NeedsScaling() && ls[i].frame.Has(p) && (roiL.Has(p) || roiR.Has(p))
    ensures ls[i].frame.Has(q) && ((!roiL.Has(q) && !roiR.Has(q)) || Hides(ls, i + 1, q))
  {
    var l := ls[n - 1];
    var resL, resR := GetIntersection(visL, l.frame), GetIntersection(visR, l.frame);
    assert ls[..n][..n - 1] == ls[..n - 1];
    if (resL.Valid() || resR.Valid()) && GetUnion(resL, resR) != l.frame && l.NeedsScaling() {
      i := n - 1;
      p, q := PartlySeenSplit(visL, visR, l.frame);
    } else if (resL.Valid() || resR.Valid()) && l.Opaque() {
      LessInView(visL, roiL, ls, n - 1);
      LessInView(visR, roiR, ls, n - 1);
      i, p, q := SplitResetByScaled(ls, n - 1, DeductRect(visL, resL), DeductRect(visR, resR), roiL, roiR);
    } else {
      SameInView(visL, roiL, ls, n - 1);
      SameInView(visR, roiR, ls, n - 1);
      i, p, q := SplitResetByScaled(ls, n - 1, visL, visR, roiL, roiR);
    }
  }
}

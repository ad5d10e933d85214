/** What setListStats does to the layers before anything is composed (hwc_utils.cpp): trimList cuts
    them to the screen, and in optimizeLayerRects an opaque layer cuts what it covers off the layers
    below it. */
module OptimizeRects {
  import opened Rects
  import opened Layers

  // ------------------------------------------------------------------ trimList

  predicate Leaves(frame: Rect, screen: Rect) {
    frame.left < screen.left || frame.top < screen.top || frame.right > screen.right || frame.bottom > screen.bottom
  }

  /** One layer cut to the screen; the crop is written back as an integer rectangle in any case. */
  function TrimToScreen(l: Layer, screen: Rect, view: Rect): Layer
    requires l.frame.Valid()
  {
    if Leaves(l.frame, screen) then Trim(l, GetIntersection(view, screen), l.Orientation()) else l.(cropf := ToFRect(l.Crop()))
  }

  function TrimmedAll(ls: seq<Layer>, screen: Rect, view: Rect): (r: seq<Layer>)
    requires forall i :: 0 <= i < |ls| ==> ls[i].frame.Valid()
    ensures |r| == |ls| && forall i :: 0 <= i < |ls| ==> r[i] == TrimToScreen(ls[i], screen, view)
  {
    seq(|ls|, i requires 0 <= i < |ls| => TrimToScreen(ls[i], screen, view))
  }

  method TrimList(layers: array<Layer>, screen: Rect, view: Rect)
    requires forall i :: 0 <= i < |layers[..]| ==> layers[..][i].frame.Valid()
    modifies layers
    ensures layers[..] == TrimmedAll(old(layers[..]), screen, view)
  {
    ghost var was := layers[..];
    for i := 0 to layers.Length
      invariant forall k :: 0 <= k < i ==> layers[k] == TrimToScreen(was[k], screen, view)
      invariant forall k :: i <= k < layers.Length ==> layers[k] == was[k]
    {
      var crop, frame := layers[i].Crop(), layers[i].frame;
      if Leaves(frame, screen) {
        crop, frame := CalculateCropRects(crop, frame, GetIntersection(view, screen), layers[i].Orientation());
      }
      layers[i] := layers[i].(cropf := ToFRect(crop), frame := frame);
    }
  }

  ghost predicate Integral(ls: seq<Layer>) {
    forall i :: 0 <= i < |ls| ==> ls[i].cropf.Integral()
  }

  /** No strategy ever sees a crop that is not integral. */
  lemma {:induction false} OptimizedIntegral(ls: seq<Layer>, i: int)
    requires i < |ls| && Integral(ls)
    ensures Integral(Optimized(ls, i))
    decreases i
  {
    if i > 0 {
      OptimizedIntegral(Pass(ls, i), i - 1);
    }
  }

  /** The list as every strategy finds it. */
  function Prepared(ls: seq<Layer>, screen: Rect, view: Rect): (r: seq<Layer>)
    requires forall i :: 0 <= i < |ls| ==> ls[i].frame.Valid()
    ensures |r| == |ls|
  {
    Optimized(TrimmedAll(ls, screen, view), |ls| - 1)
  }

  lemma PreparedIntegral(ls: seq<Layer>, screen: Rect, view: Rect)
    requires forall i :: 0 <= i < |ls| ==> ls[i].frame.Valid()
    ensures Integral(Prepared(ls, screen, view))
  {
    OptimizedIntegral(TrimmedAll(ls, screen, view), |ls| - 1);
  }

  method SetListStats(layers: array<Layer>, screen: Rect, view: Rect)
    requires forall i :: 0 <= i < |layers[..]| ==> layers[..][i].frame.Valid()
    modifies layers
    ensures layers[..] == Prepared(old(layers[..]), screen, view)
  {
    TrimList(layers, screen, view);
    OptimizeLayerRects(layers);
  }

  // ------------------------------------------------------------------ optimizeLayerRects

  /** What one opaque frame takes off a layer below it. */
  function TrimAgainst(top: Rect, l: Layer): Layer {
    var irect := GetIntersection(l.frame, top);
    if !l.NeedsScaling() && irect.Valid() then Trim(l, DeductRect(l.frame, irect), l.Orientation()) else l
  }

  /** Layers below j are still to be cut against layer i. */
  function TrimBelow(ls: seq<Layer>, i: nat, j: nat): (r: seq<Layer>)
    requires j <= i < |ls|
    ensures |r| == |ls|
    ensures forall k :: j <= k < |ls| ==> r[k] == ls[k]
    ensures forall k :: 0 <= k < j ==> r[k] == TrimAgainst(ls[i].frame, ls[k])
    decreases j
  {
    if j == 0 then ls else TrimBelow(ls[j - 1 := TrimAgainst(ls[i].frame, ls[j - 1])], i, j - 1)
  }

  function Pass(ls: seq<Layer>, i: nat): (r: seq<Layer>)
    requires i < |ls|
    ensures |r| == |ls|
  {
    if ls[i].Opaque() then TrimBelow(ls, i, i) else ls
  }

  /** Layers i, i-1, ..., 1 act as the cutting layer, in this order. */
  function Optimized(ls: seq<Layer>, i: int): (r: seq<Layer>)
    requires i < |ls|
    ensures |r| == |ls|
    decreases i
  {
    if i <= 0 then ls else Optimized(Pass(ls, i), i - 1)
  }

  method OptimizeLayerRects(layers: array<Layer>)
    modifies layers
    ensures layers[..] == Optimized(old(layers[..]), layers.Length - 1)
  {
    var i := layers.Length - 1;
    while i > 0
      invariant -1 <= i < layers.Length
      invariant Optimized(layers[..], i) == Optimized(old(layers[..]), layers.Length - 1)
    {
      if layers[i].Opaque() {
        ghost var start := layers[..];
        var topFrame := layers[i].frame;
        var j := i - 1;
        while j >= 0
          invariant -1 <= j < i
          invariant layers[i].frame == topFrame
          invariant TrimBelow(layers[..], i, j + 1) == Pass(start, i)
        {
          ghost var before := layers[..];
          if !layers[j].NeedsScaling() {
            var irect := GetIntersection(layers[j].frame, topFrame);
            if irect.Valid() {
              var dest := DeductRect(layers[j].frame, irect);
              DeductEdges(layers[j].frame, topFrame);
              var crop, frame := CalculateCropRects(layers[j].Crop(), layers[j].frame, dest, layers[j].Orientation());
              layers[j] := layers[j].(cropf := ToFRect(crop), frame := frame);
            }
          }
          assert layers[..] == before[j := TrimAgainst(topFrame, before[j])];
          j := j - 1;
        }
      }
      i := i - 1;
    }
  }

  /** A quarter-turned layer is within the exact domain when its frame is square and it is
      not flipped once: the scaling test compares crop and frame without turning either. */
  predicate RotationExact(l: Layer) {
    l.frame.Valid() && l.Has90Transform() && !l.NeedsScaling() ==>
      l.transform.flipH == l.transform.flipV && l.frame.Width() == l.frame.Height()
  }

  lemma RotationExactMeansExact(l: Layer)
    requires !l.NeedsScaling() && !l.colorFill && l.frame.Valid()
    ensures RotationExact(l) <==> Exact(l.Crop(), l.frame, l.transform)
  {
  }

  /** Outside the cutting frame a trimmed layer covers and shows what it did before. */
  lemma TrimAgainstOutside(top: Rect, l: Layer, tex: Sample -> int, p: Point)
    requires RotationExact(l) && !top.Has(p)
    ensures SameLook(TrimAgainst(top, l), tex, l, tex, p)
  {
    if !l.NeedsScaling() && GetIntersection(l.frame, top).Valid() {
      DeductOverlap(l.frame, top, p);
      DeductEdges(l.frame, top);
      TrimKeepsSamples(l, DeductRect(l.frame, GetIntersection(l.frame, top)), l.Orientation(), p);
    }
  }

  lemma TrimAgainstRotation(top: Rect, l: Layer)
    requires RotationExact(l)
    ensures RotationExact(TrimAgainst(top, l))
  {
    if !l.NeedsScaling() && GetIntersection(l.frame, top).Valid() {
      DeductEdges(l.frame, top);
      TrimKeepsSamples(l, DeductRect(l.frame, GetIntersection(l.frame, top)), l.Orientation(), Point(0, 0));
    }
  }

  /** If two lists show the same up to some layer and look alike above it, they show the same. */
  lemma {:induction false} CompositeFrom(ls: seq<Layer>, ls': seq<Layer>, k: nat, tex: Sample -> int, p: Point)
    requires k <= |ls| == |ls'|
    requires Composite(ls[..k], tex, p) == Composite(ls'[..k], tex, p)
    requires forall i :: k <= i < |ls| ==> SameLook(ls[i], tex, ls'[i], tex, p)
    ensures Composite(ls, tex, p) == Composite(ls', tex, p)
  {
    if k == |ls| {
      assert ls[..k] == ls && ls'[..k] == ls';
    } else {
      var n := |ls| - 1;
      assert ls[..n][..k] == ls[..k] && ls'[..n][..k] == ls'[..k];
      CompositeFrom(ls[..n], ls'[..n], k, tex, p);
      assert SameLook(ls[n], tex, ls'[n], tex, p);
    }
  }

  /** One cutting layer changes no pixel: outside its frame nothing moves, inside it hides
      everything that was cut. */
  lemma PassPreserves(ls: seq<Layer>, i: nat, tex: Sample -> int, p: Point)
    requires i < |ls|
    requires forall k :: 0 <= k < |ls| ==> RotationExact(ls[k])
    ensures Composite(Pass(ls, i), tex, p) == Composite(ls, tex, p)
    ensures forall k :: 0 <= k < |ls| ==> RotationExact(Pass(ls, i)[k])
  {
    var r := Pass(ls, i);
    if ls[i].Opaque() {
      var top := ls[i].frame;
      forall k | 0 <= k < |ls| ensures RotationExact(r[k]) {
        TrimAgainstRotation(top, ls[k]);
      }
      if top.Has(p) {
        assert r[..i + 1][|r[..i + 1]| - 1] == ls[i] && ls[..i + 1][|ls[..i + 1]| - 1] == ls[i];
        CompositeFrom(r, ls, i + 1, tex, p);
      } else {
        forall k | 0 <= k < |ls| ensures SameLook(r[k], tex, ls[k], tex, p) {
          TrimAgainstOutside(top, ls[k], tex, p);
        }
        CompositeSame(r, tex, ls, tex, p);
      }
    }
  }

  lemma {:induction false} OptimizedPreserves(ls: seq<Layer>, i: int, tex: Sample -> int, p: Point)
    requires i < |ls|
    requires forall k :: 0 <= k < |ls| ==> RotationExact(ls[k])
    ensures Composite(Optimized(ls, i), tex, p) == Composite(ls, tex, p)
    decreases i
  {
    if i > 0 {
      PassPreserves(ls, i, tex, p);
      OptimizedPreserves(Pass(ls, i), i - 1, tex, p);
    }
  }

  /** The cut is really made: right after a pass no non-scaled layer below an opaque one
      still overlaps it, unless what would be left is not one rectangle. */
  lemma PassCuts(ls: seq<Layer>, i: nat, j: nat, p: Point)
    requires j < i < |ls| && ls[i].Opaque() && !ls[j].NeedsScaling()
    ensures
      var overlap := GetIntersection(ls[j].frame, ls[i].frame);
      overlap.Valid() && DeductRect(ls[j].frame, overlap) != ls[j].frame ==>
        !(Pass(ls, i)[j].frame.Has(p) && ls[i].frame.Has(p))
  {
    var overlap := GetIntersection(ls[j].frame, ls[i].frame);
    if overlap.Valid() && DeductRect(ls[j].frame, overlap) != ls[j].frame {
      DeductOverlap(ls[j].frame, ls[i].frame, p);
      DeductEdges(ls[j].frame, ls[i].frame);
    }
  }

  /** A pass changes geometry only, and not that of layers that need scaling or are not below. */
  lemma PassAt(ls: seq<Layer>, i: nat, k: nat)
    requires i < |ls| && k < |ls|
    ensures Pass(ls, i)[k].Opaque() == ls[k].Opaque()
    ensures ls[k].NeedsScaling() || !ls[i].Opaque() || i <= k ==> Pass(ls, i)[k] == ls[k]
  {
    if ls[i].Opaque() && k < i {
      assert Pass(ls, i)[k] == TrimAgainst(ls[i].frame, ls[k]);
    }
  }

  /** No layer from k + 1 up is opaque. */
  ghost predicate NothingOpaqueAbove(ls: seq<Layer>, k: nat) {
    forall t :: k < t < |ls| ==> !ls[t].Opaque()
  }

  lemma PassOpaqueAbove(ls: seq<Layer>, i: nat, k: nat)
    requires i < |ls| && NothingOpaqueAbove(ls, k)
    ensures NothingOpaqueAbove(Pass(ls, i), k)
  {
    forall t | k < t < |ls| ensures !Pass(ls, i)[t].Opaque() {
      PassAt(ls, i, t);
    }
  }

  ghost predicate LeftAlone(ls: seq<Layer>, k: nat)
    requires k < |ls|
  {
    ls[k].NeedsScaling() || NothingOpaqueAbove(ls, k)
  }

  /** Layers that need scaling and layers under a translucent layer only are left alone. */
  lemma {:induction false} OptimizedLeavesScaled(ls: seq<Layer>, i: int, k: nat)
    requires i < |ls| && k < |ls| && LeftAlone(ls, k)
    ensures Optimized(ls, i)[k] == ls[k]
    decreases i
  {
    if i > 0 {
      PassAt(ls, i, k);
      if !ls[k].NeedsScaling() {
        PassOpaqueAbove(ls, i, k);
      }
      OptimizedLeavesScaled(Pass(ls, i), i - 1, k);
    }
  }

  /** A list of such layers stays as it is. */
  lemma OptimizedLeavesList(ls: seq<Layer>, i: int)
    requires i < |ls| && forall k :: 0 <= k < |ls| ==> LeftAlone(ls, k)
    ensures Optimized(ls, i) == ls
  {
    forall k | 0 <= k < |ls| ensures Optimized(ls, i)[k] == ls[k] {
      assert LeftAlone(ls, k);
      OptimizedLeavesScaled(ls, i, k);
    }
  }

  // ------------------------------------------------------------------ what is cut in the end

  /** The list when it is layer i's turn to cut, the layers above it having had theirs. */
  function AtTurn(ls: seq<Layer>, hi: int, i: nat): (r: seq<Layer>)
    requires hi < |ls|
    ensures |r| == |ls|
    decreases hi
  {
    if hi <= i then ls else AtTurn(Pass(ls, hi), hi - 1, i)
  }

  lemma {:induction false} OptimizedFromTurn(ls: seq<Layer>, hi: int, i: nat)
    requires 0 < i <= hi < |ls|
    ensures Optimized(ls, hi) == Optimized(AtTurn(ls, hi, i), i)
    decreases hi
  {
    if hi > i {
      OptimizedFromTurn(Pass(ls, hi), hi - 1, i);
    }
  }

  /** Nothing grows, and a layer that has had its turn is left alone. */
  lemma {:induction false} OptimizedShrinks(ls: seq<Layer>, i: int, k: nat, p: Point)
    requires i < |ls| && k < |ls|
    ensures Optimized(ls, i)[k].frame.Has(p) ==> ls[k].frame.Has(p)
    ensures i <= k ==> Optimized(ls, i)[k] == ls[k]
    decreases i
  {
    if i > 0 {
      PassAt(ls, i, k);
      if ls[i].Opaque() && k < i {
        assert Pass(ls, i)[k] == TrimAgainst(ls[i].frame, ls[k]);
        if GetIntersection(ls[k].frame, ls[i].frame).Valid() {
          DeductOverlap(ls[k].frame, ls[i].frame, p);
          DeductEdges(ls[k].frame, ls[i].frame);
        }
      }
      OptimizedShrinks(Pass(ls, i), i - 1, k, p);
    }
  }

  /** Layer i has cut what it covers off layer j, and they still share no pixel in the end. */
  lemma TurnCuts(turn: seq<Layer>, i: nat, j: nat, p: Point)
    requires j < i < |turn| && turn[i].Opaque() && !turn[j].NeedsScaling()
    requires
      var overlap := GetIntersection(turn[j].frame, turn[i].frame);
      overlap.Valid() && DeductRect(turn[j].frame, overlap) != turn[j].frame
    ensures !(Optimized(turn, i)[j].frame.Has(p) && turn[i].frame.Has(p))
  {
    OptimizedShrinks(Pass(turn, i), i - 1, j, p);
    PassCuts(turn, i, j, p);
  }

  /** In the list that comes out no unscaled layer shares a pixel with an opaque one above it, unless
      at the opaque one's turn what would have been left of it was not one rectangle. */
  lemma OptimizedCuts(ls: seq<Layer>, i: nat, j: nat, p: Point)
    requires j < i < |ls|
    requires
      var turn := AtTurn(ls, |ls| - 1, i);
      var overlap := GetIntersection(turn[j].frame, turn[i].frame);
      turn[i].Opaque() && !turn[j].NeedsScaling() && overlap.Valid() && DeductRect(turn[j].frame, overlap) != turn[j].frame
    ensures
      var out := Optimized(ls, |ls| - 1);
      !(out[j].frame.Has(p) && out[i].frame.Has(p))
  {
    var turn := AtTurn(ls, |ls| - 1, i);
    OptimizedFromTurn(ls, |ls| - 1, i);
    OptimizedShrinks(turn, i, i, p);
    TurnCuts(turn, i, j, p);
  }

  // ------------------------------------------------------------------ the picture of both

  /** Cutting looks at the part of the frame that is left, wherever else the scissor reaches. */
  lemma CutsOfPart(frame: Rect, scissor: Rect)
    requires frame.Valid()
    ensures
      var part := ClippedDst(frame, scissor);
      part.Within(frame) ==> CutRatios(frame, scissor) == CutRatios(frame, part) && ClippedDst(frame, part) == part
  {
  }

  lemma TrimToPart(l: Layer, scissor: Rect)
    requires l.frame.Valid() && ClippedDst(l.frame, scissor).Within(l.frame)
    ensures Trim(l, scissor, l.Orientation()) == Trim(l, ClippedDst(l.frame, scissor), l.Orientation())
  {
    CutsOfPart(l.frame, scissor);
  }

  /** Trimming to the screen is within the exact domain: the layer does not leave the screen, or it
      is not scaled. */
  predicate TrimsExactly(l: Layer, screen: Rect) {
    RotationExact(l) && (!l.frame.Within(screen) ==> l.colorFill || !l.NeedsScaling())
  }

  /** Inside the view and the screen a layer that is trimmed covers and shows what it did before. */
  lemma TrimToScreenKeeps(l: Layer, screen: Rect, view: Rect, tex: Sample -> int, p: Point)
    requires l.frame.Valid() && TrimsExactly(l, screen) && view.Has(p) && screen.Has(p)
    ensures SameLook(TrimToScreen(l, screen, view), tex, l, tex, p)
  {
    if Leaves(l.frame, screen) {
      var scissor := GetIntersection(view, screen);
      assert scissor.Has(p);
      if l.frame.Has(p) {
        var part := ClippedDst(l.frame, scissor);
        assert part.Has(p) && part.Within(l.frame);
        TrimToPart(l, scissor);
        if !l.colorFill {
          RotationExactMeansExact(l);
        }
        TrimKeepsSamples(l, part, l.Orientation(), p);
      }
    }
  }

  /** What is left of a layer lies on the screen, and in the view if the layer did not. */
  lemma TrimmedOnScreen(l: Layer, screen: Rect, view: Rect)
    requires l.frame.Valid()
    ensures
      var r := TrimToScreen(l, screen, view);
      if l.frame.Within(screen) then r.frame == l.frame
      else r.frame.Valid() ==> r.frame.Within(screen) && r.frame.Within(view)
  {
  }

  /** And it stays within the domain of optimizeLayerRects. */
  lemma TrimToScreenRotation(l: Layer, screen: Rect, view: Rect)
    requires l.frame.Valid() && TrimsExactly(l, screen)
    ensures RotationExact(TrimToScreen(l, screen, view))
  {
    var part := ClippedDst(l.frame, GetIntersection(view, screen));
    if Leaves(l.frame, screen) && !l.colorFill && part.Valid() {
      TrimToPart(l, GetIntersection(view, screen));
      RotationExactMeansExact(l);
      TrimKeepsSamples(l, part, l.Orientation(), Point(0, 0));
    }
  }

  /** What the strategies find shows, inside the view and the screen, what was handed over. */
  lemma PreparedPreserves(ls: seq<Layer>, screen: Rect, view: Rect, tex: Sample -> int, p: Point)
    requires ls != [] && forall i :: 0 <= i < |ls| ==> ls[i].frame.Valid() && TrimsExactly(ls[i], screen)
    requires view.Has(p) && screen.Has(p)
    ensures Composite(Prepared(ls, screen, view), tex, p) == Composite(ls, tex, p)
  {
    var trimmed := TrimmedAll(ls, screen, view);
    forall i | 0 <= i < |ls| ensures SameLook(trimmed[i], tex, ls[i], tex, p) && RotationExact(trimmed[i]) {
      TrimToScreenKeeps(ls[i], screen, view, tex, p);
      TrimToScreenRotation(ls[i], screen, view);
    }
    CompositeSame(trimmed, tex, ls, tex, p);
    OptimizedPreserves(trimmed, |ls| - 1, tex, p);
  }
}

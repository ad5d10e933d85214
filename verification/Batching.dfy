/** getBatch and markLayersForCaching (hwc_mdpcomp.cpp): which layers are flattened into the
    framebuffer (FB) plane, and between which MDP layers that plane goes. */
module Batching {
  import opened Rects
  import opened Layers
  import opened Frames

  predicate AreLayersIntersecting(l1: Layer, l2: Layer) {
    GetIntersection(l1.frame, l2.frame).Valid()
  }

  /** Some MDP layer in [from, to] intersects layer target. */
  predicate IntersectsUpdating(fb: seq<bool>, ls: seq<Layer>, from: nat, to: int, target: nat)
    requires |fb| == |ls| && to < |fb| && target < |fb|
  {
    exists i :: from <= i <= to && !fb[i] && AreLayersIntersecting(ls[i], ls[target])
  }

  /** No batched layer in [from, to) intersects an MDP layer above it, up to and with `to`. */
  predicate CanPush(fb: seq<bool>, drop: seq<bool>, ls: seq<Layer>, from: nat, to: nat)
    requires |fb| == |drop| == |ls| && to < |fb|
  {
    forall i :: from <= i < to && fb[i] && !drop[i] ==> !IntersectsUpdating(fb, ls, i + 1, to, i)
  }

  method IntersectingUpdatingLayers(f: FrameInfo, list: seq<Layer>, fromIndex: nat, toIndex: int, target: nat)
    returns (r: bool)
    requires f.Valid() && |list| == f.layerCount && toIndex < f.layerCount && target < f.layerCount
    ensures r == IntersectsUpdating(f.Fb(), list, fromIndex, toIndex, target)
  {
    var i := fromIndex;
    while i <= toIndex
      invariant fromIndex <= i
      invariant forall k :: fromIndex <= k < i && k <= toIndex && !f.Fb()[k] ==> !AreLayersIntersecting(list[k], list[target])
    {
      if !f.isFBComposed[i] {
        if AreLayersIntersecting(list[i], list[target]) {
          assert !f.Fb()[i];
          return true;
        }
      }
      i := i + 1;
    }
    return false;
  }

  method CanPushBatchToTop(f: FrameInfo, list: seq<Layer>, fromIndex: nat, toIndex: nat) returns (r: bool)
    requires f.Valid() && |list| == f.layerCount && toIndex < f.layerCount
    ensures r == CanPush(f.Fb(), f.Drops(), list, fromIndex, toIndex)
  {
    var i := fromIndex;
    while i < toIndex
      invariant fromIndex <= i
      invariant forall k :: fromIndex <= k < i && k < toIndex && f.Fb()[k] && !f.Drops()[k] ==>
                              !IntersectsUpdating(f.Fb(), list, k + 1, toIndex, k)
    {
      if f.isFBComposed[i] && !f.drop[i] {
        var hit := IntersectingUpdatingLayers(f, list, i + 1, toIndex, i);
        if hit {
          assert f.Fb()[i] && !f.Drops()[i];
          return false;
        }
      }
      i := i + 1;
    }
    return true;
  }

  // ------------------------------------------------------------------ the search

  datatype Batch = Batch(start: int, end: int, count: nat, fbZ: int)

  const NO_BATCH := Batch(-1, -1, 0, -1)

  /** The variables of the inner loop. */
  datatype Growth = Growth(i: nat, b: Batch, firstZReverse: int, above: nat, dropped: nat)

  ghost predicate Growing(g: Growth, n: nat) {
    && 0 <= g.b.start <= g.i <= n
    && (g.i == g.b.start ==> g.b.count == 0)
    && (g.above > 0 ==> g.b.count > 0)
    && (g.firstZReverse < 0 || g.b.start < g.firstZReverse < g.i)
  }

  datatype Move = Continue(g: Growth) | Break(g: Growth)

  /** One turn of the inner loop. */
  function Advance(fb: seq<bool>, drop: seq<bool>, ls: seq<Layer>, g: Growth): Move
    requires |fb| == |drop| == |ls| && Growing(g, |fb|) && g.i < |fb|
  {
    if !fb[g.i] then
      if g.b.count == 0 then Break(g.(i := g.i + 1)) else Continue(g.(i := g.i + 1, above := g.above + 1))
    else if drop[g.i] then
      Continue(g.(i := g.i + 1, dropped := g.dropped + 1))
    else if g.above <= 0 || !IntersectsUpdating(fb, ls, g.b.start, g.i - 1, g.i) then
      Continue(g.(i := g.i + 1, b := g.b.(count := g.b.count + 1, end := g.i)))
    else if CanPush(fb, drop, ls, g.b.start, g.i) then
      Continue(g.(i := g.i + 1,
                  b := g.b.(count := g.b.count + 1, end := g.i, fbZ := g.b.fbZ + g.above),
                  firstZReverse := if g.firstZReverse < 0 then g.i else g.firstZReverse,
                  above := 0))
    else
      Break(g.(i := if g.firstZReverse >= 0 then g.firstZReverse else g.i))
  }

  /** The inner loop: grow one batch upwards from its start.  The index that comes back is
      where the next batch starts; it may lie below the layer that stopped this one. */
  function Grow(fb: seq<bool>, drop: seq<bool>, ls: seq<Layer>, g: Growth): (r: Growth)
    requires |fb| == |drop| == |ls| && Growing(g, |fb|)
    ensures r.b.start == g.b.start
    ensures r.i <= |fb| && (r.i > g.b.start || g.i == |fb| == g.b.start)
    decreases |fb| - g.i
  {
    if g.i >= |fb| then
      g
    else
      match Advance(fb, drop, ls, g)
      case Break(r) => r
      case Continue(next) => Grow(fb, drop, ls, next)
  }

  function NewBatch(i: nat, dropped: nat): Growth {
    Growth(i, Batch(i, i, 0, i - dropped), -1, 0, dropped)
  }

  /** The outer loop: keep the largest batch, the first one among equals.  It ends because
      each batch starts above the one before, even after a rewind. */
  function Search(fb: seq<bool>, drop: seq<bool>, ls: seq<Layer>, i: nat, dropped: nat, best: Batch): Batch
    requires |fb| == |drop| == |ls| && i <= |fb|
    decreases |fb| - i
  {
    if i >= |fb| then
      best
    else
      var g := Grow(fb, drop, ls, NewBatch(i, dropped));
      Search(fb, drop, ls, g.i, g.dropped, if g.b.count > best.count then g.b else best)
  }

  /** One turn of getBatch's inner loop on its local variables. */
  method AdvanceBatch(f: FrameInfo, list: seq<Layer>, g: Growth) returns (g': Growth, stop: bool)
    requires f.Valid() && |list| == f.layerCount && g.i < f.layerCount && Growing(g, f.layerCount)
    ensures Advance(f.Fb(), f.Drops(), list, g) == if stop then Break(g') else Continue(g')
  {
    g', stop := g, false;
    if !f.isFBComposed[g.i] {
      if g.b.count == 0 {
        g', stop := g.(i := g.i + 1), true;
      } else {
        g' := g.(i := g.i + 1, above := g.above + 1);
      }
    } else if f.drop[g.i] {
      g' := g.(i := g.i + 1, dropped := g.dropped + 1);
    } else if g.above <= 0 {
      g' := g.(i := g.i + 1, b := g.b.(count := g.b.count + 1, end := g.i));
    } else {
      var hit := IntersectingUpdatingLayers(f, list, g.b.start, g.i - 1, g.i);
      if !hit {
        g' := g.(i := g.i + 1, b := g.b.(count := g.b.count + 1, end := g.i));
      } else {
        var push := CanPushBatchToTop(f, list, g.b.start, g.i);
        if push {
          if g.firstZReverse < 0 {
            g' := g'.(firstZReverse := g.i);
          }
          g' := g'.(i := g.i + 1, b := g.b.(count := g.b.count + 1, end := g.i, fbZ := g.b.fbZ + g.above), above := 0);
        } else {
          stop := true;
          if g.firstZReverse >= 0 {
            g' := g.(i := g.firstZReverse);
          }
        }
      }
    }
  }

  /** One batch grows as far as it can. */
  method GrowBatch(f: FrameInfo, list: seq<Layer>, first: Growth) returns (g: Growth)
    requires f.Valid() && |list| == f.layerCount && Growing(first, f.layerCount)
    ensures g == Grow(f.Fb(), f.Drops(), list, first)
  {
    ghost var grown := Grow(f.Fb(), f.Drops(), list, first);
    var stop := false;
    g := first;
    while g.i < f.layerCount && !stop
      invariant g.i <= f.layerCount
      invariant if stop then g == grown else Growing(g, f.layerCount) && Grow(f.Fb(), f.Drops(), list, g) == grown
      decreases !stop, f.layerCount - g.i
    {
      g, stop := AdvanceBatch(f, list, g);
    }
  }

  method GetBatch(f: FrameInfo, list: seq<Layer>) returns (best: Batch)
    requires f.Valid() && |list| == f.layerCount
    ensures best == Search(f.Fb(), f.Drops(), list, 0, 0, NO_BATCH)
  {
    ghost var fb, drop := f.Fb(), f.Drops();
    var i: nat, droppedLayerCt: nat := 0, 0;
    best := NO_BATCH;
    while i < f.layerCount
      invariant i <= f.layerCount
      invariant Search(fb, drop, list, i, droppedLayerCt, best) == Search(fb, drop, list, 0, 0, NO_BATCH)
      decreases f.layerCount - i
    {
      var g := GrowBatch(f, list, NewBatch(i, droppedLayerCt));
      i, droppedLayerCt := g.i, g.dropped;
      if g.b.count > best.count {
        best := g.b;
      }
    }
  }

  // ------------------------------------------------------------------ what a batch promises

  predicate Batched(fb: seq<bool>, drop: seq<bool>, k: nat)
    requires k < |fb| == |drop|
  {
    fb[k] && !drop[k]
  }

  /** Layers of [lo, hi) that are FB-composed and not dropped; MDP layers; layers that are
      dropped without being given to MDP. */
  function FbCount(fb: seq<bool>, drop: seq<bool>, lo: nat, hi: nat): nat
    requires hi <= |fb| == |drop|
  {
    if hi <= lo then 0 else FbCount(fb, drop, lo, hi - 1) + (if Batched(fb, drop, hi - 1) then 1 else 0)
  }

  function MdpCount(fb: seq<bool>, lo: nat, hi: nat): nat
    requires hi <= |fb|
  {
    if hi <= lo then 0 else MdpCount(fb, lo, hi - 1) + (if !fb[hi - 1] then 1 else 0)
  }

  function DropCount(fb: seq<bool>, drop: seq<bool>, lo: nat, hi: nat): nat
    requires hi <= |fb| == |drop|
  {
    if hi <= lo then 0 else DropCount(fb, drop, lo, hi - 1) + (if fb[hi - 1] && drop[hi - 1] then 1 else 0)
  }

  lemma {:induction false} MdpCountSplit(fb: seq<bool>, lo: nat, mid: nat, hi: nat)
    requires lo <= mid <= hi <= |fb|
    ensures MdpCount(fb, lo, hi) == MdpCount(fb, lo, mid) + MdpCount(fb, mid, hi)
  {
    if mid < hi {
      MdpCountSplit(fb, lo, mid, hi - 1);
    }
  }

  lemma {:induction false} DropCountSplit(fb: seq<bool>, drop: seq<bool>, lo: nat, mid: nat, hi: nat)
    requires lo <= mid <= hi <= |fb| == |drop|
    ensures DropCount(fb, drop, lo, hi) == DropCount(fb, drop, lo, mid) + DropCount(fb, drop, mid, hi)
  {
    if mid < hi {
      DropCountSplit(fb, drop, lo, mid, hi - 1);
    }
  }

  lemma {:induction false} MdpCountZero(fb: seq<bool>, lo: nat, hi: nat, m: nat)
    requires lo <= m < hi <= |fb| && MdpCount(fb, lo, hi) == 0
    ensures fb[m]
  {
    if m < hi - 1 {
      MdpCountZero(fb, lo, hi - 1, m);
    }
  }

  /** With the FB plane put just below the MDP layers that start at `cut`, no batched layer of
      [lo, hi) changes sides with an MDP layer of [lo, hi) that it intersects. */
  ghost predicate OrderKept(fb: seq<bool>, drop: seq<bool>, ls: seq<Layer>, lo: nat, hi: nat, cut: nat)
    requires hi <= |fb| == |drop| == |ls|
  {
    forall k, m :: lo <= k < hi && lo <= m < hi && Batched(fb, drop, k) && !fb[m] && AreLayersIntersecting(ls[m], ls[k]) ==>
      (m < k ==> m < cut) && (k < m ==> cut <= m)
  }

  ghost predicate GrowthOk(fb: seq<bool>, drop: seq<bool>, ls: seq<Layer>, g: Growth, cut: nat, base: int)
    requires |fb| == |drop| == |ls|
  {
    && Growing(g, |fb|)
    && g.b.start <= cut <= g.i
    && OrderKept(fb, drop, ls, g.b.start, g.i, cut)
    && g.above == MdpCount(fb, cut, g.i)
    && g.b.fbZ == base + MdpCount(fb, g.b.start, cut)
    && g.b.count == FbCount(fb, drop, g.b.start, g.i)
    && (g.b.count > 0 ==>
          && cut <= g.b.end < g.i
          && Batched(fb, drop, g.b.end)
          && g.b.count == FbCount(fb, drop, g.b.start, g.b.end + 1))
  }

  /** The result of one growth: the batch is exactly the FB layers of [start, end], and its
      z-order counts the MDP layers that end up below it, from `base` on. */
  ghost predicate BatchOk(fb: seq<bool>, drop: seq<bool>, ls: seq<Layer>, b: Batch, cut: nat, base: int)
    requires |fb| == |drop| == |ls|
  {
    b.count > 0 ==>
      && 0 <= b.start <= cut <= b.end < |fb|
      && Batched(fb, drop, b.end)
      && b.count == FbCount(fb, drop, b.start, b.end + 1)
      && b.fbZ == base + MdpCount(fb, b.start, cut)
      && OrderKept(fb, drop, ls, b.start, b.end + 1, cut)
  }

  /** The layer that joins the batch next, in each of the ways it can join. */
  lemma JoinKeepsOrder(fb: seq<bool>, drop: seq<bool>, ls: seq<Layer>, g: Growth, cut: nat, base: int, push: bool)
    requires |fb| == |drop| == |ls| && GrowthOk(fb, drop, ls, g, cut, base)
    requires g.i < |fb| && Batched(fb, drop, g.i)
    requires if push then CanPush(fb, drop, ls, g.b.start, g.i)
             else g.above == 0 || !IntersectsUpdating(fb, ls, g.b.start, g.i - 1, g.i)
    ensures OrderKept(fb, drop, ls, g.b.start, g.i + 1, if push then g.i else cut)
  {
    var lo, cut' := g.b.start, if push then g.i else cut;
    if push {
      forall k, m | lo <= k < m <= g.i && Batched(fb, drop, k) && !fb[m] ensures !AreLayersIntersecting(ls[m], ls[k]) {
        assert !IntersectsUpdating(fb, ls, k + 1, g.i, k);
      }
    } else if g.above == 0 {
      forall m | cut <= m < g.i ensures fb[m] {
        MdpCountZero(fb, cut, g.i, m);
      }
    }
  }

  /** One turn that continues keeps the promise. */
  lemma AdvanceSound(fb: seq<bool>, drop: seq<bool>, ls: seq<Layer>, g: Growth, cut: nat, base: int) returns (cut': nat)
    requires |fb| == |drop| == |ls| && GrowthOk(fb, drop, ls, g, cut, base) && g.i < |fb|
    requires Advance(fb, drop, ls, g).Continue?
    ensures GrowthOk(fb, drop, ls, Advance(fb, drop, ls, g).g, cut', base)
    ensures Advance(fb, drop, ls, g).g.dropped == g.dropped + (if fb[g.i] && drop[g.i] then 1 else 0)
    ensures Advance(fb, drop, ls, g).g.i == g.i + 1
  {
    cut' := cut;
    if Batched(fb, drop, g.i) {
      if g.above == 0 || !IntersectsUpdating(fb, ls, g.b.start, g.i - 1, g.i) {
        JoinKeepsOrder(fb, drop, ls, g, cut, base, false);
      } else {
        JoinKeepsOrder(fb, drop, ls, g, cut, base, true);
        MdpCountSplit(fb, g.b.start, cut, g.i);
        cut' := g.i;
      }
    }
  }

  /** A batch that has grown as far as it goes. */
  lemma GrownIsBatch(fb: seq<bool>, drop: seq<bool>, ls: seq<Layer>, g: Growth, cut: nat, base: int)
    requires |fb| == |drop| == |ls| && GrowthOk(fb, drop, ls, g, cut, base)
    ensures BatchOk(fb, drop, ls, g.b, cut, base)
  {
  }

  /** How many dropped layers the rewind at the end of a batch leaves to be counted again. */
  function GrowOver(fb: seq<bool>, drop: seq<bool>, ls: seq<Layer>, g: Growth): nat
    requires |fb| == |drop| == |ls| && Growing(g, |fb|)
    decreases |fb| - g.i
  {
    if g.i >= |fb| then
      0
    else
      match Advance(fb, drop, ls, g)
      case Break(r) => DropCount(fb, drop, r.i, g.i)
      case Continue(next) => GrowOver(fb, drop, ls, next)
  }

  /** How many of them have been counted again by the time the winning batch starts; `ahead` is the
      number so far, `bestOver` what it was for the best batch so far. */
  function SearchOver(fb: seq<bool>, drop: seq<bool>, ls: seq<Layer>, i: nat, dropped: nat, best: Batch, ahead: nat, bestOver: nat): nat
    requires |fb| == |drop| == |ls| && i <= |fb|
    decreases |fb| - i
  {
    if i >= |fb| then
      bestOver
    else
      var g := Grow(fb, drop, ls, NewBatch(i, dropped));
      var next := ahead + GrowOver(fb, drop, ls, NewBatch(i, dropped));
      if g.b.count > best.count then
        SearchOver(fb, drop, ls, g.i, g.dropped, g.b, next, ahead)
      else
        SearchOver(fb, drop, ls, g.i, g.dropped, best, next, bestOver)
  }

  /** How often getBatch counts a dropped layer again before the batch it returns. */
  function Rewound(fb: seq<bool>, drop: seq<bool>, ls: seq<Layer>): nat
    requires |fb| == |drop| == |ls|
  {
    SearchOver(fb, drop, ls, 0, 0, NO_BATCH, 0, 0)
  }

  /** The turn that ends a batch. */
  lemma BreakSound(fb: seq<bool>, drop: seq<bool>, ls: seq<Layer>, g: Growth, cut: nat, base: int)
    requires |fb| == |drop| == |ls| && GrowthOk(fb, drop, ls, g, cut, base) && g.i < |fb|
    requires Advance(fb, drop, ls, g).Break?
    ensures
      var r := Advance(fb, drop, ls, g).g;
      && r.b == g.b && r.i <= |fb|
      && r.dropped + DropCount(fb, drop, 0, g.i) == g.dropped + DropCount(fb, drop, 0, r.i) + DropCount(fb, drop, r.i, g.i)
      && (r.b.count == 0 ==> FbCount(fb, drop, r.b.start, r.i) == 0)
  {
    var r := Advance(fb, drop, ls, g).g;
    if r.i < g.i {
      DropCountSplit(fb, drop, 0, r.i, g.i);
    }
  }

  lemma {:induction false} GrowSound(fb: seq<bool>, drop: seq<bool>, ls: seq<Layer>, g: Growth, cut: nat, base: int)
    returns (cut': nat)
    requires |fb| == |drop| == |ls| && GrowthOk(fb, drop, ls, g, cut, base)
    ensures
      var r := Grow(fb, drop, ls, g);
      && BatchOk(fb, drop, ls, r.b, cut', base)
      && r.dropped + DropCount(fb, drop, 0, g.i) == g.dropped + DropCount(fb, drop, 0, r.i) + GrowOver(fb, drop, ls, g)
      && (r.b.count == 0 ==> FbCount(fb, drop, r.b.start, r.i) == 0)
    decreases |fb| - g.i
  {
    cut' := cut;
    if g.i < |fb| {
      if Advance(fb, drop, ls, g).Continue? {
        var c := AdvanceSound(fb, drop, ls, g, cut, base);
        cut' := GrowSound(fb, drop, ls, Advance(fb, drop, ls, g).g, c, base);
      } else {
        GrownIsBatch(fb, drop, ls, g, cut, base);
        BreakSound(fb, drop, ls, g, cut, base);
      }
    } else {
      GrownIsBatch(fb, drop, ls, g, cut, base);
    }
  }

  /** Nothing is counted again when nothing is dropped. */
  lemma {:induction false} GrowOverNone(fb: seq<bool>, drop: seq<bool>, ls: seq<Layer>, g: Growth)
    requires |fb| == |drop| == |ls| && Growing(g, |fb|) && forall k :: 0 <= k < |drop| ==> !drop[k]
    ensures GrowOver(fb, drop, ls, g) == 0
    decreases |fb| - g.i
  {
    if g.i < |fb| {
      if Advance(fb, drop, ls, g).Continue? {
        GrowOverNone(fb, drop, ls, Advance(fb, drop, ls, g).g);
      } else {
        NoDrops(fb, drop, Advance(fb, drop, ls, g).g.i, g.i);
      }
    }
  }

  lemma {:induction false} SearchOverNone(fb: seq<bool>, drop: seq<bool>, ls: seq<Layer>, i: nat, dropped: nat, best: Batch)
    requires |fb| == |drop| == |ls| && i <= |fb| && forall k :: 0 <= k < |drop| ==> !drop[k]
    ensures SearchOver(fb, drop, ls, i, dropped, best, 0, 0) == 0
    decreases |fb| - i
  {
    if i < |fb| {
      GrowOverNone(fb, drop, ls, NewBatch(i, dropped));
      var g := Grow(fb, drop, ls, NewBatch(i, dropped));
      SearchOverNone(fb, drop, ls, g.i, g.dropped, if g.b.count > best.count then g.b else best);
    }
  }

  lemma {:induction false} NoDrops(fb: seq<bool>, drop: seq<bool>, lo: nat, hi: nat)
    requires hi <= |fb| == |drop|
    ensures (forall k :: lo <= k < hi ==> !drop[k]) ==> DropCount(fb, drop, lo, hi) == 0
  {
    if lo < hi {
      NoDrops(fb, drop, lo, hi - 1);
    }
  }

  lemma {:induction false} FbCountSplit(fb: seq<bool>, drop: seq<bool>, lo: nat, mid: nat, hi: nat)
    requires lo <= mid <= hi <= |fb| == |drop|
    ensures FbCount(fb, drop, lo, hi) == FbCount(fb, drop, lo, mid) + FbCount(fb, drop, mid, hi)
  {
    if mid < hi {
      FbCountSplit(fb, drop, lo, mid, hi - 1);
    }
  }

  /** A batch whose z-order counts the MDP layers below it, less `over`. */
  ghost predicate Found(fb: seq<bool>, drop: seq<bool>, ls: seq<Layer>, b: Batch, cut: nat, over: nat)
    requires |fb| == |drop| == |ls|
  {
    b.count > 0 ==>
      0 <= b.start < |fb| && BatchOk(fb, drop, ls, b, cut, b.start - DropCount(fb, drop, 0, b.start) - over)
  }

  /** One batch of the search. */
  lemma BatchFound(fb: seq<bool>, drop: seq<bool>, ls: seq<Layer>, i: nat, dropped: nat, ahead: nat) returns (cut: nat)
    requires |fb| == |drop| == |ls| && i < |fb| && dropped == DropCount(fb, drop, 0, i) + ahead
    ensures
      var g := Grow(fb, drop, ls, NewBatch(i, dropped));
      && Found(fb, drop, ls, g.b, cut, ahead)
      && g.dropped == DropCount(fb, drop, 0, g.i) + ahead + GrowOver(fb, drop, ls, NewBatch(i, dropped))
      && (g.b.count == 0 && FbCount(fb, drop, 0, i) == 0 ==> FbCount(fb, drop, 0, g.i) == 0)
  {
    cut := GrowSound(fb, drop, ls, NewBatch(i, dropped), i, i - dropped);
    FbCountSplit(fb, drop, 0, i, Grow(fb, drop, ls, NewBatch(i, dropped)).i);
  }

  /** What the whole search finds.  By as much as a dropped layer has been counted again, the
      z-order of the winning batch comes out too low. */
  lemma {:induction false} SearchSound(fb: seq<bool>, drop: seq<bool>, ls: seq<Layer>, i: nat, dropped: nat, best: Batch,
                                       ahead: nat, bestCut: nat, bestOver: nat)
    returns (cut: nat)
    requires |fb| == |drop| == |ls| && i <= |fb|
    requires dropped == DropCount(fb, drop, 0, i) + ahead
    requires Found(fb, drop, ls, best, bestCut, bestOver)
    requires best.count == 0 ==> FbCount(fb, drop, 0, i) == 0
    ensures
      var r := Search(fb, drop, ls, i, dropped, best);
      && Found(fb, drop, ls, r, cut, SearchOver(fb, drop, ls, i, dropped, best, ahead, bestOver))
      && (r.count == 0 ==> FbCount(fb, drop, 0, |fb|) == 0)
    decreases |fb| - i
  {
    cut := bestCut;
    if i < |fb| {
      var c := BatchFound(fb, drop, ls, i, dropped, ahead);
      var g := Grow(fb, drop, ls, NewBatch(i, dropped));
      var next := ahead + GrowOver(fb, drop, ls, NewBatch(i, dropped));
      if g.b.count > best.count {
        cut := SearchSound(fb, drop, ls, g.i, g.dropped, g.b, next, c, ahead);
      } else {
        cut := SearchSound(fb, drop, ls, g.i, g.dropped, best, next, bestCut, bestOver);
      }
    }
  }

  // ------------------------------------------------------------------ marking the rest

  /** Only the batch stays in the FB; dropped layers keep their mark. */
  function Marked(fb: seq<bool>, drop: seq<bool>, b: Batch): (r: seq<bool>)
    requires |fb| == |drop|
    ensures |r| == |fb|
    ensures forall i :: 0 <= i < |fb| ==> r[i] == (fb[i] && (drop[i] || b.start <= i <= b.end))
  {
    seq(|fb|, i requires 0 <= i < |fb| => fb[i] && (drop[i] || b.start <= i <= b.end))
  }

  /** No layer that would have to move to MDP is unsupported there. */
  predicate RestSupported(fb: seq<bool>, drop: seq<bool>, b: Batch, supported: seq<bool>, n: nat)
    requires n <= |fb| == |drop| == |supported|
  {
    forall i :: 0 <= i < n && (i < b.start || i > b.end) && fb[i] && !drop[i] ==> supported[i]
  }

  /** The layers outside the batch go to MDP, if they all can. */
  method MarkRest(f: FrameInfo, b: Batch, supported: seq<bool>) returns (ok: bool)
    requires f.Valid() && |supported| == f.layerCount
    modifies f.isFBComposed
    ensures f.Valid() && ok == RestSupported(old(f.Fb()), f.Drops(), b, supported, f.layerCount)
    ensures f.Drops() == old(f.Drops()) && (ok ==> f.Fb() == Marked(old(f.Fb()), f.Drops(), b))
  {
    ghost var fb, drop := f.Fb(), f.Drops();
    for i := 0 to f.layerCount
      invariant f.Drops() == drop
      invariant forall k :: 0 <= k < i ==> f.isFBComposed[k] == Marked(fb, drop, b)[k]
      invariant forall k :: i <= k < |fb| ==> f.isFBComposed[k] == fb[k]
      invariant RestSupported(fb, drop, b, supported, i)
    {
      assert f.drop[i] == drop[i];
      if (i < b.start || i > b.end) && f.isFBComposed[i] {
        if !f.drop[i] {
          if !supported[i] {
            assert !RestSupported(fb, drop, b, supported, |fb|);
            return false;
          }
          f.isFBComposed[i] := false;
        }
      }
    }
    assert f.Fb() == Marked(fb, drop, b);
    return true;
  }

  method MarkLayersForCaching(f: FrameInfo, list: seq<Layer>, supported: seq<bool>) returns (ok: bool)
    requires f.Valid() && |list| == |supported| == f.layerCount
    modifies f, f.isFBComposed
    ensures f.Valid() && f.layerCount == old(f.layerCount) && f.dropCount == old(f.dropCount)
    ensures old(f.fbCount) == 0 ==> ok && f.Fb() == old(f.Fb()) && f.fbZ == old(f.fbZ) &&
                                    f.mdpCount == old(f.mdpCount) && f.fbCount == 0
    ensures old(f.fbCount) != 0 ==>
      var b := Search(old(f.Fb()), old(f.Drops()), list, 0, 0, NO_BATCH);
      && (ok <==> old(f.mdpCount) != 0 && RestSupported(old(f.Fb()), old(f.Drops()), b, supported, |list|))
      && (ok ==> && f.Fb() == Marked(old(f.Fb()), old(f.Drops()), b)
                 && f.fbZ == b.fbZ && f.fbCount == b.count
                 && f.mdpCount == f.layerCount - f.fbCount - f.dropCount)
  {
    if f.fbCount == 0 {
      return true;
    }
    if f.mdpCount == 0 {
      return false;
    }
    var b := GetBatch(f, list);
    ok := MarkRest(f, b, supported);
    if ok {
      f.fbZ := b.fbZ;
      f.fbCount := b.count;
      f.mdpCount := f.layerCount - f.fbCount - f.dropCount;
    }
  }

  lemma {:induction false} MarkedBefore(fb: seq<bool>, drop: seq<bool>, b: Batch, hi: nat)
    requires |fb| == |drop| && hi <= |fb| && hi <= b.start
    ensures MdpCount(Marked(fb, drop, b), 0, hi) == hi - DropCount(fb, drop, 0, hi)
    ensures FbCount(Marked(fb, drop, b), drop, 0, hi) == 0
  {
    if hi > 0 {
      MarkedBefore(fb, drop, b, hi - 1);
    }
  }

  lemma {:induction false} MarkedInside(fb: seq<bool>, drop: seq<bool>, b: Batch, lo: nat, hi: nat)
    requires |fb| == |drop| && hi <= |fb| && b.start <= lo && hi <= b.end + 1
    ensures MdpCount(Marked(fb, drop, b), lo, hi) == MdpCount(fb, lo, hi)
    ensures FbCount(Marked(fb, drop, b), drop, lo, hi) == FbCount(fb, drop, lo, hi)
  {
    if lo < hi {
      MarkedInside(fb, drop, b, lo, hi - 1);
    }
  }

  lemma {:induction false} MarkedAfter(fb: seq<bool>, drop: seq<bool>, b: Batch, lo: nat, hi: nat)
    requires |fb| == |drop| && hi <= |fb| && b.end < lo
    ensures FbCount(Marked(fb, drop, b), drop, lo, hi) == 0
  {
    if lo < hi {
      MarkedAfter(fb, drop, b, lo, hi - 1);
    }
  }

  /** After marking, the FB plane has a place between the MDP layers where no pixel changes
      its drawing order; the batch size is the number of layers in the FB; and fbZ is the
      number of MDP layers below that place, less what the rewind has counted twice: it is that
      place if and only if nothing has been. */
  lemma MarkedPlacement(fb: seq<bool>, drop: seq<bool>, ls: seq<Layer>) returns (cut: nat)
    requires |fb| == |drop| == |ls| && FbCount(fb, drop, 0, |fb|) > 0
    ensures
      var b := Search(fb, drop, ls, 0, 0, NO_BATCH);
      var fb' := Marked(fb, drop, b);
      && b.count > 0 && cut <= |fb|
      && OrderKept(fb', drop, ls, 0, |fb|, cut)
      && b.count == FbCount(fb', drop, 0, |fb|)
      && b.fbZ == MdpCount(fb', 0, cut) - Rewound(fb, drop, ls)
      && (b.fbZ == MdpCount(fb', 0, cut) <==> Rewound(fb, drop, ls) == 0)
  {
    cut := SearchSound(fb, drop, ls, 0, 0, NO_BATCH, 0, 0, 0);
    var b := Search(fb, drop, ls, 0, 0, NO_BATCH);
    MarkedCounts(fb, drop, b, cut);
    forall k, m | 0 <= k < |fb| && 0 <= m < |fb| && Batched(Marked(fb, drop, b), drop, k) && !Marked(fb, drop, b)[m] &&
                  AreLayersIntersecting(ls[m], ls[k])
      ensures (m < k ==> m < cut) && (k < m ==> cut <= m)
    {
      assert Batched(fb, drop, k);
    }
  }

  /** The counts of the marks, from those of the batch. */
  lemma MarkedCounts(fb: seq<bool>, drop: seq<bool>, b: Batch, cut: nat)
    requires |fb| == |drop| && b.count > 0 && 0 <= b.start <= cut <= b.end < |fb|
    requires b.count == FbCount(fb, drop, b.start, b.end + 1)
    ensures
      var fb' := Marked(fb, drop, b);
      && b.count == FbCount(fb', drop, 0, |fb|)
      && MdpCount(fb', 0, cut) == b.start - DropCount(fb, drop, 0, b.start) + MdpCount(fb, b.start, cut)
  {
    var fb' := Marked(fb, drop, b);
    MarkedBefore(fb, drop, b, b.start);
    MarkedInside(fb, drop, b, b.start, cut);
    MarkedInside(fb, drop, b, b.start, b.end + 1);
    MarkedAfter(fb, drop, b, b.end + 1, |fb|);
    MdpCountSplit(fb', 0, b.start, cut);
    FbCountSplit(fb', drop, 0, b.start, |fb|);
    FbCountSplit(fb', drop, b.start, b.end + 1, |fb|);
  }
}

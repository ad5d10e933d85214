/** Why the caching theorem asks that getBatch (hwc_mdpcomp.cpp) counts no dropped layer twice: a
    frame in which it does, and the framebuffer ends up too low. */
module DroppedRewind {
  import opened Rects
  import opened Layers
  import opened OptimizeRects
  import opened Batching
  import opened ZOrder
  import opened RoiDrop
  import opened RoiGeneration
  import opened Strips

  const LIST := [
    Strip(0, 2, Premult), Strip(4, 6, Premult), Strip(5, 7, Premult), Strip(20, 21, Premult),
    Strip(1, 3, Premult), Strip(2, 4, Premult), Strip(3, 4, Premult)
  ]
  /** Layers 1 and 4 update and go to MDP; layer 3 lies outside the region that changes. */
  const FB := [true, false, true, true, false, true, true]
  const UPDATING := [false, true, false, false, true, false, false]
  const DROP := [false, false, false, true, false, false, false]
  const SPLIT := [false, false, false, false, false, false, false]

  // ------------------------------------------------------------------ where the drop comes from

  const SCREEN := Rect(0, 0, 32, 1)
  const ROI := Rect(1, 0, 6, 1)

  lemma DirtyStrips(us: seq<Update>)
    requires us == Updates(LIST, UPDATING)
    ensures DirtyUnion(us, 7, false, SCREEN) == ROI
  {
    ListFrames();
    DirtyNext(us, 0, SCREEN);
    DirtyNext(us, 1, SCREEN);
    DirtyNext(us, 2, SCREEN);
    assert DirtyUnion(us, 3, false, SCREEN) == Rect(4, 0, 6, 1);
    DirtyNext(us, 3, SCREEN);
    DirtyNext(us, 4, SCREEN);
    assert DirtyUnion(us, 5, false, SCREEN) == ROI;
    DirtyNext(us, 5, SCREEN);
    DirtyNext(us, 6, SCREEN);
  }

  lemma ListFrames()
    ensures LIST[1].frame == Rect(4, 0, 6, 1) && LIST[4].frame == Rect(1, 0, 3, 1)
  {
  }

  /** All layers but layer 3 are in view, and none hides anything. */
  lemma {:induction false} ScanStrips(n: nat)
    requires n <= 7
    ensures Scan(LIST[..n], ROI) == Keep(DROP[..n])
  {
    if n > 0 {
      ScanStrips(n - 1);
      assert LIST[..n][..n - 1] == LIST[..n - 1] && DROP[..n] == DROP[..n - 1] + [DROP[n - 1]];
      assert !LIST[n - 1].NeedsScaling() && !LIST[n - 1].Opaque();
    }
  }

  /** A partial update of this frame drops exactly layer 3. */
  lemma RoiDropsLayer3()
    ensures ChosenROI(Updates(LIST, UPDATING), SCREEN, NO_RESTRICTION, true) == (ROI, Keep(DROP))
  {
    DirtyStrips(Updates(LIST, UPDATING));
    ScanStrips(7);
    assert LIST[..7] == LIST && DROP[..7] == DROP;
  }

  /** Nothing is opaque, and optimizeLayerRects leaves the list alone. */
  lemma ListUntrimmed()
    ensures Optimized(LIST, 6) == LIST
  {
    forall k | 0 <= k < 7 ensures LeftAlone(LIST, k) {
      assert NothingOpaqueAbove(LIST, k);
    }
    OptimizedLeavesList(LIST, 6);
  }

  // ------------------------------------------------------------------ the search

  /** The overlaps that matter: layer 1 meets layer 2, layer 4 meets layers 0 and 5. */
  ghost predicate Crossing(ls: seq<Layer>) {
    && |ls| == 7
    && (forall i :: 0 <= i < 7 ==> (AreLayersIntersecting(ls[1], ls[i]) <==> i == 1 || i == 2))
    && (forall i :: 0 <= i < 7 ==> (AreLayersIntersecting(ls[4], ls[i]) <==> i == 0 || i == 4 || i == 5))
  }

  lemma ListCrosses()
    ensures Crossing(LIST)
  {
  }

  lemma HitsLayer2(ls: seq<Layer>)
    requires Crossing(ls)
    ensures IntersectsUpdating(FB, ls, 0, 1, 2) && CanPush(FB, DROP, ls, 0, 2)
  {
    assert AreLayersIntersecting(ls[1], ls[2]);
  }

  lemma HitsLayer5(ls: seq<Layer>)
    requires Crossing(ls)
    ensures IntersectsUpdating(FB, ls, 0, 4, 5) && !CanPush(FB, DROP, ls, 0, 5)
  {
    assert AreLayersIntersecting(ls[4], ls[5]);
    assert AreLayersIntersecting(ls[4], ls[0]) && IntersectsUpdating(FB, ls, 1, 5, 0);
  }

  lemma HitsLayer5Again(ls: seq<Layer>)
    requires Crossing(ls)
    ensures IntersectsUpdating(FB, ls, 2, 4, 5) && CanPush(FB, DROP, ls, 2, 5)
  {
    assert AreLayersIntersecting(ls[4], ls[5]);
  }

  const FIRST := Batch(0, 2, 2, 1)
  const FOUND := Batch(2, 6, 3, 2)

  /** Grows from layer 0, is pushed over layer 1, and is stopped by layer 5; the search goes on at
      layer 2, with the dropped layer 3 already counted. */
  lemma FirstBatch(ls: seq<Layer>)
    requires Crossing(ls)
    ensures Grow(FB, DROP, ls, NewBatch(0, 0)) == Growth(2, FIRST, 2, 1, 1)
    ensures GrowOver(FB, DROP, ls, NewBatch(0, 0)) == 1
  {
    HitsLayer2(ls);
    HitsLayer5(ls);
    var g2, g3 := Growth(2, Batch(0, 0, 1, 0), -1, 1, 0), Growth(3, FIRST, 2, 0, 0);
    assert Advance(FB, DROP, ls, g2) == Continue(g3);
    var g5, r := Growth(5, FIRST, 2, 1, 1), Growth(2, FIRST, 2, 1, 1);
    assert Advance(FB, DROP, ls, g5) == Break(r);
    assert DropCount(FB, DROP, 2, 3) == 0 && DropCount(FB, DROP, 2, 4) == 1 && DropCount(FB, DROP, 2, 5) == 1;
    assert Grow(FB, DROP, ls, g5) == r && GrowOver(FB, DROP, ls, g5) == 1;
    var g4 := Growth(4, FIRST, 2, 0, 1);
    assert Grow(FB, DROP, ls, g4) == r && GrowOver(FB, DROP, ls, g4) == 1;
    assert Grow(FB, DROP, ls, g3) == r && GrowOver(FB, DROP, ls, g3) == 1;
    assert Grow(FB, DROP, ls, g2) == r && GrowOver(FB, DROP, ls, g2) == 1;
    var g1 := Growth(1, Batch(0, 0, 1, 0), -1, 0, 0);
    assert Grow(FB, DROP, ls, g1) == r && GrowOver(FB, DROP, ls, g1) == 1;
  }

  lemma SecondBatch(ls: seq<Layer>)
    requires Crossing(ls)
    ensures Grow(FB, DROP, ls, NewBatch(2, 1)) == Growth(7, FOUND, 5, 0, 2)
  {
    HitsLayer5Again(ls);
    var r := Growth(7, FOUND, 5, 0, 2);
    assert Grow(FB, DROP, ls, Growth(6, Batch(2, 5, 2, 2), 5, 0, 2)) == r;
    assert Grow(FB, DROP, ls, Growth(5, Batch(2, 2, 1, 1), -1, 1, 2)) == r;
    assert Grow(FB, DROP, ls, Growth(4, Batch(2, 2, 1, 1), -1, 0, 2)) == r;
    assert Grow(FB, DROP, ls, Growth(3, Batch(2, 2, 1, 1), -1, 0, 1)) == r;
  }

  /** Layer 3 is counted by the first batch and, after its rewind to layer 2, by the second. */
  lemma WholeSearch(ls: seq<Layer>)
    requires Crossing(ls)
    ensures Search(FB, DROP, ls, 0, 0, NO_BATCH) == FOUND && Rewound(FB, DROP, ls) == 1
  {
    FirstBatch(ls);
    SecondBatch(ls);
    var next := 1 + GrowOver(FB, DROP, ls, NewBatch(2, 1));
    assert Search(FB, DROP, ls, 7, 2, FOUND) == FOUND && SearchOver(FB, DROP, ls, 7, 2, FOUND, next, 1) == 1;
    assert Search(FB, DROP, ls, 2, 1, FIRST) == FOUND && SearchOver(FB, DROP, ls, 2, 1, FIRST, 1, 0) == 1;
  }

  const MARKED := [false, false, true, true, false, true, true]

  lemma FoundMarks()
    ensures Marked(FB, DROP, FOUND) == MARKED
  {
  }

  lemma Stage4()
    ensures ZOf(MARKED, SPLIT, 2, 4) == 3
  {
    assert NextZ(MARKED, SPLIT, 2, 1) == 1;
    assert NextZ(MARKED, SPLIT, 2, 2) == 2;
    assert NextZ(MARKED, SPLIT, 2, 3) == 2;
    assert NextZ(MARKED, SPLIT, 2, 4) == 2;
  }

  lemma KeysSwapped(m: Setup, p: Point)
    requires m.Valid() && m.fb == MARKED && m.split == SPLIT && m.fbZ == 2
    ensures Key(m, 5, p) == 2 && Key(m, 4, p) == 3
  {
    Stage4();
  }

  /** For the marks of this frame fbZ comes out as 2 although three MDP layers belong below the FB:
      wherever layers 4 and 5 overlap, layer 4 is drawn over layer 5, which lies above it. */
  lemma DroppedLayerMisplacesFb(ls: seq<Layer>, p: Point)
    requires Crossing(ls) && ls[4].frame.Has(p) && ls[5].frame.Has(p)
    ensures Rewound(FB, DROP, ls) == 1
    ensures
      var b := Search(FB, DROP, ls, 0, 0, NO_BATCH);
      var m := Setup(Marked(FB, DROP, b), DROP, ls, SPLIT, b.fbZ);
      Visible(m, 4, p) && Visible(m, 5, p) && Key(m, 5, p) < Key(m, 4, p) && !PictureKept(m)
  {
    WholeSearch(ls);
    FoundMarks();
    var m := Setup(MARKED, DROP, ls, SPLIT, 2);
    KeysSwapped(m, p);
    if PictureKept(m) {
      assert Mixer(m, Stages(m), p) == Listed(m, 7, p);
      KeptInOrder(m, p, 4, 5);
    }
  }

  /** The frame above is such a list, and its drop flags are those of its partial update. */
  lemma FrameIsMisplaced()
    ensures Crossing(LIST) && LIST[4].frame.Has(Point(2, 0)) && LIST[5].frame.Has(Point(2, 0))
    ensures Optimized(LIST, 6) == LIST
    ensures ChosenROI(Updates(LIST, UPDATING), SCREEN, NO_RESTRICTION, true) == (ROI, Keep(DROP))
  {
    ListCrosses();
    ListUntrimmed();
    RoiDropsLayer3();
  }
}

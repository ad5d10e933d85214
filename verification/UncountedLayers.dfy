/** A frame in which mdpCount does not cover the layers marked for MDP, and FrameInfo::map would
    write past its array (hwc_mdpcomp.cpp): two layers that update are hidden and dropped. */
module UncountedLayers {
  import opened Rects
  import opened Layers
  import opened Frames
  import opened OptimizeRects
  import opened RoiDrop
  import opened RoiGeneration
  import opened Batching
  import opened ZOrder
  import opened PipeAccounting
  import opened PostHeuristics
  import opened Strips

  /** Ten columns that show twenty, so that optimizeLayerRects leaves them alone. */
  function Shrunk(): Layer {
    Layer(0, Rect(0, 0, 10, 1), ToFRect(Rect(0, 0, 20, 1)), NO_TRANSFORM, Premult, 0xFF, false)
  }

  /** Layers 0 and 1 lie under layer 2.  Layer 5 does not update, and MDP cannot show it, so that
      fullMDPComp gives up before it has changed anything. */
  const LIST := [
    Shrunk(), Shrunk(), Strip(0, 10, None),
    Strip(10, 20, Premult), Strip(20, 30, Premult), Strip(25, 35, Premult)
  ]
  const UPDATING := [true, true, true, true, true, false]
  const DROP := [true, true, false, false, false, false]
  const SCREEN := Rect(0, 0, 64, 1)
  const ROI := Rect(0, 0, 30, 1)

  /** Trimming has nothing to do: this is the list that the strategies find. */
  lemma ListUntrimmed()
    ensures Optimized(LIST, 5) == LIST
  {
    HiddenScaled();
    NothingOpaque();
    assert LeftAlone(LIST, 0) && LeftAlone(LIST, 1);
    OptimizedLeavesList(LIST, 5);
  }

  lemma HiddenScaled()
    ensures LIST[0].NeedsScaling() && LIST[1].NeedsScaling()
  {
  }

  lemma NothingOpaque()
    ensures forall k :: 2 <= k < 6 ==> NothingOpaqueAbove(LIST, k)
  {
  }

  // ------------------------------------------------------------------ where the drops come from

  lemma ListFrames()
    ensures LIST[0].frame == LIST[1].frame == LIST[2].frame == Rect(0, 0, 10, 1)
    ensures LIST[3].frame == Rect(10, 0, 20, 1) && LIST[4].frame == Rect(20, 0, 30, 1)
    ensures LIST[5].frame == Rect(25, 0, 35, 1)
  {
  }

  lemma DirtyStrips(us: seq<Update>)
    requires us == Updates(LIST, UPDATING)
    ensures DirtyUnion(us, 6, false, SCREEN) == ROI
  {
    ListFrames();
    DirtyNext(us, 0, SCREEN);
    DirtyNext(us, 1, SCREEN);
    DirtyNext(us, 2, SCREEN);
    assert DirtyUnion(us, 3, false, SCREEN) == Rect(0, 0, 10, 1);
    DirtyNext(us, 3, SCREEN);
    assert DirtyUnion(us, 4, false, SCREEN) == Rect(0, 0, 20, 1);
    DirtyNext(us, 4, SCREEN);
    DirtyNext(us, 5, SCREEN);
  }

  /** From the top down: layer 2 takes its columns out of view. */
  lemma ScanHidden()
    ensures Scan(LIST[..3], ROI) == Keep([true, true, false])
  {
    var below := Rect(10, 0, 30, 1);
    ListFrames();
    ScanNext(LIST, 0, below);
    assert Scan(LIST[..1], below) == Keep([true]);
    ScanNext(LIST, 1, below);
    assert !LIST[2].NeedsScaling() && LIST[2].Opaque();
    ScanNext(LIST, 2, ROI);
  }

  lemma Kept3()
    ensures KeepsNext(LIST, 3, ROI)
  {
    assert Kept(LIST[3], ROI);
    ScanKept(LIST, 3, ROI);
  }

  lemma Kept4()
    ensures KeepsNext(LIST, 4, ROI)
  {
    assert Kept(LIST[4], ROI);
    ScanKept(LIST, 4, ROI);
  }

  lemma Kept5()
    ensures KeepsNext(LIST, 5, ROI)
  {
    assert Kept(LIST[5], ROI);
    ScanKept(LIST, 5, ROI);
  }

  lemma StripsKept()
    ensures forall k :: 3 <= k < 6 ==> KeepsNext(LIST, k, ROI)
  {
    forall k | 3 <= k < 6 ensures KeepsNext(LIST, k, ROI) {
      if k == 3 {
        Kept3();
      } else if k == 4 {
        Kept4();
      } else {
        Kept5();
      }
    }
  }

  /** Two hidden layers, and four that are shown. */
  lemma TwoHidden(ls: seq<Layer>, vis: Rect)
    requires |ls| == 6 && Scan(ls[..3], vis) == Keep([true, true, false])
    requires forall k :: 3 <= k < 6 ==> KeepsNext(ls, k, vis)
    ensures Scan(ls, vis) == Keep(DROP)
  {
    ScanAbove(ls, 3, 6, vis, [true, true, false]);
    assert ls[..6] == ls && [true, true, false] + AllFalse(3) == DROP;
  }

  lemma ScanStrips()
    ensures Scan(LIST, ROI) == Keep(DROP)
  {
    ScanHidden();
    StripsKept();
    TwoHidden(LIST, ROI);
  }

  /** A partial update of this frame drops the two hidden layers, although they update. */
  lemma RoiDropsHidden()
    ensures Optimized(LIST, 5) == LIST
    ensures ChosenROI(Updates(LIST, UPDATING), SCREEN, NO_RESTRICTION, true) == (ROI, Keep(DROP))
  {
    ListUntrimmed();
    DirtyStrips(Updates(LIST, UPDATING));
    ScanStrips();
  }

  // ------------------------------------------------------------------ cacheBasedComp on this frame

  const CAPS := Caps(UPDATING, UPDATING, AllFalse(6), AllFalse(6), AllFalse(6), AllFalse(6))
  const NOTHING_SPECIAL := Special([], [], 0)
  const FB := [false, false, false, false, false, true]
  const FED := Feed(FB, DROP, 1)

  lemma Fed()
    ensures CacheFeed(DROP, CAPS, NOTHING_SPECIAL) == FED && FED.Strays() == 2 && FED.MdpCount() == 3
  {
    assert Idle(UPDATING) == FB;
    var yuv := MarkYuv(FB, DROP, [], AllFalse(6), AllTrue(6), 0);
    assert yuv == FB && MarkSecure(FB, [], AllFalse(6), 0) == FB;
    assert StrayCount(FB, DROP, 0, 2) == 2 && StrayCount(FB, DROP, 0, 4) == 2 && StrayCount(FB, DROP, 0, 6) == 2;
    assert FbCount(FB, DROP, 0, 2) == 0 && FbCount(FB, DROP, 0, 4) == 0 && FbCount(FB, DROP, 0, 6) == 1;
    TwoDropped();
  }

  lemma TwoDropped()
    ensures Count(DROP) == 2
  {
    CountNext(DROP, 0);
    CountNext(DROP, 1);
    CountNext(DROP, 2);
    CountNext(DROP, 3);
    CountNext(DROP, 4);
    CountNext(DROP, 5);
    assert DROP[..0] == [] && DROP[..6] == DROP;
  }

  /** Layer 5 is the whole batch. */
  lemma Batch5(list: seq<Layer>)
    requires |list| == 6
    ensures Search(FB, DROP, list, 0, 0, NO_BATCH) == Batch(5, 5, 1, 5)
    ensures FED.Final(list) == FB && MdpCount(FB, 0, 6) == 5
  {
    assert Grow(FB, DROP, list, NewBatch(5, 0)) == Growth(6, Batch(5, 5, 1, 5), -1, 0, 0);
    assert Search(FB, DROP, list, 6, 0, Batch(5, 5, 1, 5)) == Batch(5, 5, 1, 5);
    assert Search(FB, DROP, list, 5, 0, NO_BATCH) == Batch(5, 5, 1, 5);
    assert Search(FB, DROP, list, 4, 0, NO_BATCH) == Batch(5, 5, 1, 5);
    assert Search(FB, DROP, list, 3, 0, NO_BATCH) == Batch(5, 5, 1, 5);
    assert Search(FB, DROP, list, 2, 0, NO_BATCH) == Batch(5, 5, 1, 5);
    assert Search(FB, DROP, list, 1, 0, NO_BATCH) == Batch(5, 5, 1, 5);
    assert Marked(FB, DROP, Batch(5, 5, 1, 5)) == FB;
    assert MdpCount(FB, 0, 3) == 3 && MdpCount(FB, 0, 5) == 5;
  }

  lemma CachePasses(list: seq<Layer>)
    requires |list| == 6
    ensures CacheReaches(DROP, list, CAPS, NOTHING_SPECIAL, false)
    ensures FED.Final(list) == FB && FED.Missing() == 2 && MdpCount(FB, 0, 6) == 5
  {
    Fed();
    Batch5(list);
  }

  /** What cacheBasedComp hands over on this frame. */
  ghost predicate HandedOver(f: FrameInfo)
    reads f, f.isFBComposed
  {
    f.Valid() && f.layerCount == 6 && f.Fb() == FB && f.mdpCount == 3 && f.fbCount == 1
  }

  lemma CountsHandedOver(f: FrameInfo, list: seq<Layer>)
    requires f.Valid() && |list| == f.layerCount == 6 && Composable(f, list, AllFalse(6), FED)
    ensures HandedOver(f)
  {
    CachePasses(list);
    NoSplits(FB, 6);
    FbCountOfBatch();
  }

  /** On this frame cacheBasedComp hands over mdpCount == 3, which the resource check lets pass on a
      mixer of four stages, while five layers are marked: one more than map has room for. */
  method UncountedLayersPass(f: FrameInfo, list: seq<Layer>) returns (ok: bool)
    requires f.Valid() && |list| == f.layerCount == 6 && f.Drops() == DROP && DropsCounted(f)
    modifies f, f.isFBComposed, f.layerToMDP, f.listIndex, f.zOrder, f.drop
    ensures ok && HandedOver(f)
  {
    CachePasses(list);
    Fed();
    ok := CacheBasedMarks(f, list, CAPS, NOTHING_SPECIAL, false);
    CountsHandedOver(f, list);
  }

  lemma HandedOverOverflows(f: FrameInfo)
    requires HandedOver(f)
    ensures Resources(f, AllFalse(6), Limits(MAX_PIPES_PER_MIXER, 0, 0))
    ensures MdpCount(f.Fb(), 0, f.layerCount) == 5 > MAX_PIPES_PER_MIXER
  {
    Batch5(LIST);
    NoRotation(FB, 6);
  }

  lemma FbCountOfBatch()
    ensures FbCount(FB, DROP, 0, 6) == 1
  {
    assert FbCount(FB, DROP, 0, 2) == 0 && FbCount(FB, DROP, 0, 4) == 0;
  }

  lemma {:induction false} NoRotation(fb: seq<bool>, n: nat)
    requires n <= |fb|
    ensures RotCount(fb, AllFalse(|fb|), n) == 0
  {
    if n > 0 {
      NoRotation(fb, n - 1);
    }
  }
}

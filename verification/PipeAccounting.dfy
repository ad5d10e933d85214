/** The counters that every composition strategy keeps beside its marks (hwc_mdpcomp.cpp), and
    the fixed-size maps between layers and pipes that rely on them. */
module PipeAccounting {
  import opened Layers
  import opened Frames
  import opened Batching
  import opened ZOrder

  const MAX_SEC_LAYERS := 1

  /** Dropped layers that are marked for MDP all the same. */
  function StrayCount(fb: seq<bool>, drop: seq<bool>, lo: nat, hi: nat): nat
    requires hi <= |fb| == |drop|
  {
    if hi <= lo then 0 else StrayCount(fb, drop, lo, hi - 1) + (if !fb[hi - 1] && drop[hi - 1] then 1 else 0)
  }

  lemma {:induction false} CountsPartition(fb: seq<bool>, drop: seq<bool>, n: nat)
    requires n <= |fb| == |drop|
    ensures FbCount(fb, drop, 0, n) + MdpCount(fb, 0, n) + DropCount(fb, drop, 0, n) == n
    ensures Count(drop[..n]) == DropCount(fb, drop, 0, n) + StrayCount(fb, drop, 0, n)
  {
    if n > 0 {
      CountsPartition(fb, drop, n - 1);
      assert drop[..n][..n - 1] == drop[..n - 1];
    }
  }

  lemma {:induction false} StrayNone(fb: seq<bool>, drop: seq<bool>, n: nat)
    requires n <= |fb| == |drop|
    ensures StrayCount(fb, drop, 0, n) == 0 <==> forall i :: 0 <= i < n && drop[i] ==> fb[i]
  {
    if n > 0 {
      StrayNone(fb, drop, n - 1);
    }
  }

  /** By how much fbCount differs from the layers in the FB, counting strays against it. */
  ghost function Drift(f: FrameInfo): int
    requires f.Valid()
    reads f, f.isFBComposed, f.drop
  {
    f.fbCount - FbCount(f.Fb(), f.Drops(), 0, f.layerCount) + StrayCount(f.Fb(), f.Drops(), 0, f.layerCount)
  }

  ghost predicate Recounted(f: FrameInfo)
    requires f.Valid()
    reads f
  {
    f.mdpCount == f.layerCount - f.fbCount - f.dropCount
  }

  /** mdpCount misses the number of marked layers by exactly the drift. */
  lemma DriftIsMiscount(f: FrameInfo)
    requires f.Valid() && Recounted(f) && f.dropCount == Count(f.Drops())
    ensures f.mdpCount == MdpCount(f.Fb(), 0, f.layerCount) - Drift(f)
  {
    CountsPartition(f.Fb(), f.Drops(), f.layerCount);
    assert f.Drops()[..f.layerCount] == f.Drops();
  }

  // ------------------------------------------------------------------ marking steps

  lemma {:induction false} FbCountUpdate(fb: seq<bool>, drop: seq<bool>, i: nat, v: bool, n: nat)
    requires i < n <= |fb| == |drop|
    ensures FbCount(fb[i := v], drop, 0, n) ==
            FbCount(fb, drop, 0, n) + (if drop[i] then 0 else (if v then 1 else 0) - (if fb[i] then 1 else 0))
    ensures StrayCount(fb[i := v], drop, 0, n) ==
            StrayCount(fb, drop, 0, n) + (if drop[i] then (if v then 0 else 1) - (if fb[i] then 0 else 1) else 0)
  {
    if i < n - 1 {
      FbCountUpdate(fb, drop, i, v, n - 1);
    } else {
      SamePrefixCounts(fb, fb[i := v], drop, n - 1);
    }
  }

  lemma {:induction false} SamePrefixCounts(fb: seq<bool>, fb': seq<bool>, drop: seq<bool>, n: nat)
    requires n <= |fb| == |fb'| == |drop| && forall k :: 0 <= k < n ==> fb[k] == fb'[k]
    ensures FbCount(fb, drop, 0, n) == FbCount(fb', drop, 0, n)
    ensures StrayCount(fb, drop, 0, n) == StrayCount(fb', drop, 0, n)
  {
    if n > 0 {
      SamePrefixCounts(fb, fb', drop, n - 1);
    }
  }

  /** updateLayerCache: layers that do not update stay in the FB, dropped or not. */
  method UpdateLayerCache(f: FrameInfo, updating: seq<bool>)
    requires f.Valid() && |updating| == f.layerCount
    modifies f`fbCount, f`mdpCount, f.isFBComposed
    ensures f.Valid() && Recounted(f)
    ensures f.Fb() == seq(|updating|, i requires 0 <= i < |updating| => !updating[i])
    ensures Drift(f) == StrayCount(f.Fb(), f.Drops(), 0, f.layerCount)
  {
    ghost var drop := f.Drops();
    ghost var fb := seq(|updating|, i requires 0 <= i < |updating| => !updating[i]);
    var fbCount := 0;
    for i := 0 to f.layerCount
      modifies f.isFBComposed
      invariant forall k :: 0 <= k < i ==> f.isFBComposed[k] == fb[k]
      invariant f.Drops() == drop
      invariant fbCount == FbCount(fb, drop, 0, i)
    {
      assert drop[i] == f.drop[i];
      if !updating[i] {
        if !f.drop[i] {
          fbCount := fbCount + 1;
        }
        f.isFBComposed[i] := true;
      } else {
        f.isFBComposed[i] := false;
      }
    }
    assert f.Fb() == fb;
    f.fbCount := fbCount;
    f.mdpCount := f.layerCount - f.fbCount - f.dropCount;
  }

  /** The marks after the first k video layers have been looked at. */
  function MarkYuv(fb: seq<bool>, drop: seq<bool>, yuv: seq<nat>, doable: seq<bool>, wanted: seq<bool>, k: nat): (r: seq<bool>)
    requires |fb| == |drop| == |doable| == |wanted| && k <= |yuv|
    requires forall i :: 0 <= i < |yuv| ==> yuv[i] < |fb|
    ensures |r| == |fb|
  {
    if k == 0 then
      fb
    else
      var r, i := MarkYuv(fb, drop, yuv, doable, wanted, k - 1), yuv[k - 1];
      if drop[i] then r
      else if !doable[i] then r[i := true]
      else if wanted[i] then r[i := false]
      else r
  }

  /** The mark of one layer, whatever it was: one of the first k video layers that is not dropped goes
      to the FB when MDP cannot show it, and to MDP when it can and is wanted there. */
  lemma {:induction false} YuvMark(fb: seq<bool>, drop: seq<bool>, yuv: seq<nat>, doable: seq<bool>, wanted: seq<bool>, k: nat, i: nat)
    requires |fb| == |drop| == |doable| == |wanted| && k <= |yuv| && i < |fb|
    requires forall j :: 0 <= j < |yuv| ==> yuv[j] < |fb|
    ensures MarkYuv(fb, drop, yuv, doable, wanted, k)[i] ==
      if i !in yuv[..k] || drop[i] then fb[i] else !doable[i] || (fb[i] && !wanted[i])
  {
    if k > 0 {
      YuvMark(fb, drop, yuv, doable, wanted, k - 1, i);
      assert yuv[..k] == yuv[..k - 1] + [yuv[k - 1]];
    }
  }

  /** updateYUV: at most as many video layers as there are VG pipes; `wanted` holds for all of
      them, or for the secure ones when only those are to be handled. */
  method UpdateYUV(f: FrameInfo, yuv: seq<nat>, vgPipes: nat, doable: seq<bool>, wanted: seq<bool>)
    requires f.Valid() && |doable| == |wanted| == f.layerCount
    requires forall i :: 0 <= i < |yuv| ==> yuv[i] < f.layerCount
    modifies f`fbCount, f`mdpCount, f.isFBComposed
    ensures f.Valid() && Recounted(f)
    ensures f.Fb() == MarkYuv(old(f.Fb()), f.Drops(), yuv, doable, wanted, if |yuv| > vgPipes then vgPipes else |yuv|)
    ensures Drift(f) == old(Drift(f))
  {
    ghost var fb, drop := f.Fb(), f.Drops();
    var yuvCount := |yuv|;
    yuvCount := if yuvCount > vgPipes then vgPipes else yuvCount;
    for index := 0 to yuvCount
      modifies f`fbCount, f.isFBComposed
      invariant f.Fb() == MarkYuv(fb, drop, yuv, doable, wanted, index)
      invariant f.Drops() == drop && Drift(f) == old(Drift(f))
    {
      ghost var before := f.Fb();
      var i := yuv[index];
      assert drop[i] == f.drop[i] && before[i] == f.isFBComposed[i];
      if !f.drop[i] {
        if !doable[i] {
          if !f.isFBComposed[i] {
            f.isFBComposed[i] := true;
            f.fbCount := f.fbCount + 1;
          }
        } else if f.isFBComposed[i] {
          if wanted[i] {
            f.isFBComposed[i] := false;
            f.fbCount := f.fbCount - 1;
          }
        }
        FbCountUpdate(before, drop, i, f.isFBComposed[i], f.layerCount);
        assert f.Fb() == before[i := f.isFBComposed[i]];
      }
    }
    f.mdpCount := f.layerCount - f.fbCount - f.dropCount;
  }

  function MarkSecure(fb: seq<bool>, secure: seq<nat>, doable: seq<bool>, k: nat): (r: seq<bool>)
    requires |fb| == |doable| && k <= |secure|
    requires forall i :: 0 <= i < |secure| ==> secure[i] < |fb|
    ensures |r| == |fb|
  {
    if k == 0 then fb
    else MarkSecure(fb, secure, doable, k - 1)[secure[k - 1] := !doable[secure[k - 1]]]
  }

  /** updateSecureRGB does not look at the drop flags; it still keeps the drift. */
  method UpdateSecureRGB(f: FrameInfo, secure: seq<nat>, doable: seq<bool>)
    requires f.Valid() && |doable| == f.layerCount
    requires forall i :: 0 <= i < |secure| ==> secure[i] < f.layerCount
    modifies f`fbCount, f`mdpCount, f.isFBComposed
    ensures f.Valid() && Recounted(f)
    ensures f.Fb() == MarkSecure(old(f.Fb()), secure, doable, |secure|)
    ensures Drift(f) == old(Drift(f))
  {
    ghost var fb, drop := f.Fb(), f.Drops();
    for index := 0 to |secure|
      modifies f`fbCount, f.isFBComposed
      invariant f.Fb() == MarkSecure(fb, secure, doable, index)
      invariant f.Drops() == drop && Drift(f) == old(Drift(f))
    {
      ghost var before := f.Fb();
      var i := secure[index];
      assert before[i] == f.isFBComposed[i];
      if !doable[i] {
        if !f.isFBComposed[i] {
          f.isFBComposed[i] := true;
          f.fbCount := f.fbCount + 1;
        }
      } else {
        if f.isFBComposed[i] {
          f.isFBComposed[i] := false;
          f.fbCount := f.fbCount - 1;
        }
      }
      FbCountUpdate(before, drop, i, f.isFBComposed[i], f.layerCount);
      assert f.Fb() == before[i := f.isFBComposed[i]];
    }
    f.mdpCount := f.layerCount - f.fbCount - f.dropCount;
  }

  // ------------------------------------------------------------------ the strategies

  /** mdpCount is the number of layers marked for MDP. */
  ghost predicate Accounted(f: FrameInfo)
    requires f.Valid()
    reads f, f.isFBComposed
  {
    f.mdpCount == MdpCount(f.Fb(), 0, f.layerCount)
  }

  ghost predicate DropsCounted(f: FrameInfo)
    requires f.Valid()
    reads f, f.drop
  {
    f.dropCount == Count(f.Drops())
  }

  /** MDPComp::reset: everything to the FB, nothing dropped. */
  method ResetFrame(f: FrameInfo)
    requires f.Valid()
    modifies f, f.isFBComposed, f.layerToMDP, f.listIndex, f.zOrder, f.drop
    ensures f.Valid() && f.layerCount == old(f.layerCount) && DropsCounted(f)
    ensures f.Fb() == AllTrue(f.layerCount) && f.dropCount == 0
    ensures forall i :: 0 <= i < f.drop.Length ==> !f.drop[i]
    ensures f.mdpCount == 0 && f.fbCount == f.layerCount && f.fbZ == -1 && f.needsRedraw
  {
    f.Reset(f.layerCount);
    f.ClearDrops();
    CountNone(f.Drops());
  }

  lemma {:induction false} AllInFb(fb: seq<bool>, drop: seq<bool>, n: nat)
    requires n <= |fb| == |drop| && forall i :: 0 <= i < n ==> fb[i]
    ensures MdpCount(fb, 0, n) == 0 && StrayCount(fb, drop, 0, n) == 0
  {
    if n > 0 {
      AllInFb(fb, drop, n - 1);
    }
  }

  /** FrameInfo::reset followed by the correction for dropped layers leaves no drift. */
  method StartFromFb(f: FrameInfo, countDrops: bool)
    requires f.Valid() && DropsCounted(f)
    modifies f, f.isFBComposed, f.layerToMDP, f.listIndex, f.zOrder
    ensures f.Valid() && f.layerCount == old(f.layerCount) && f.dropCount == old(f.dropCount) && f.fbZ == -1
    ensures f.Fb() == AllTrue(f.layerCount) && f.mdpCount == 0
    ensures countDrops ==> Drift(f) == 0
  {
    f.Reset(f.layerCount);
    if countDrops {
      f.fbCount := f.fbCount - f.dropCount;
    }
    AllInFb(f.Fb(), f.Drops(), f.layerCount);
    CountsPartition(f.Fb(), f.Drops(), f.layerCount);
    assert f.Drops()[..f.layerCount] == f.Drops();
  }

  /** fullMDPComp: all layers that are not dropped go to MDP. */
  method FullMdpMarks(f: FrameInfo)
    requires f.Valid() && DropsCounted(f)
    modifies f`fbCount, f`mdpCount, f.isFBComposed
    ensures f.Valid() && f.Fb() == f.Drops() && f.fbCount == 0 && Accounted(f)
  {
    ghost var drop := f.Drops();
    f.fbCount := 0;
    forall i | 0 <= i < f.drop.Length {
      f.isFBComposed[i] := f.drop[i];
    }
    assert f.Drops() == drop;
    f.mdpCount := f.layerCount - f.fbCount - f.dropCount;
    assert f.Fb() == f.Drops();
    FullCounts(f.Fb(), f.Drops(), f.layerCount);
    DriftIsMiscount(f);
  }

  lemma {:induction false} FullCounts(fb: seq<bool>, drop: seq<bool>, n: nat)
    requires n <= |fb| && fb == drop
    ensures FbCount(fb, drop, 0, n) == 0 && StrayCount(fb, drop, 0, n) == 0
  {
    if n > 0 {
      FullCounts(fb, drop, n - 1);
    }
  }

  /** What the platform says about each layer. */
  datatype Caps = Caps(updating: seq<bool>, supported: seq<bool>, yuvDoable: seq<bool>, secureBuffer: seq<bool>,
                       secureDoable: seq<bool>, split: seq<bool>)
  {
    ghost predicate Valid(n: nat) {
      |updating| == |supported| == |yuvDoable| == |secureBuffer| == |secureDoable| == |split| == n
    }
  }

  /** Where markLayersForCaching has run, mdpCount falls short by the dropped layers that are
      marked for MDP, so it covers all marked layers if and only if there are none. */
  lemma MarkingMiscount(f: FrameInfo)
    requires f.Valid() && Recounted(f) && DropsCounted(f)
    requires f.fbCount == FbCount(f.Fb(), f.Drops(), 0, f.layerCount)
    ensures f.mdpCount >= MdpCount(f.Fb(), 0, f.layerCount) <==> (forall i :: 0 <= i < f.layerCount && f.Drops()[i] ==> f.Fb()[i])
    ensures f.mdpCount >= MdpCount(f.Fb(), 0, f.layerCount) ==> Accounted(f)
  {
    DriftIsMiscount(f);
    StrayNone(f.Fb(), f.Drops(), f.layerCount);
  }

  lemma {:induction false} YuvKeepsDropped(fb: seq<bool>, drop: seq<bool>, yuv: seq<nat>, doable: seq<bool>, wanted: seq<bool>, k: nat, i: nat)
    requires |fb| == |drop| == |doable| == |wanted| && k <= |yuv|
    requires forall j :: 0 <= j < |yuv| ==> yuv[j] < |fb|
    requires i < |fb| && drop[i]
    ensures MarkYuv(fb, drop, yuv, doable, wanted, k)[i] == fb[i]
  {
    if k > 0 {
      YuvKeepsDropped(fb, drop, yuv, doable, wanted, k - 1, i);
    }
  }

  // ------------------------------------------------------------------ what batching is fed

  /** Marks, drop flags and fbCount as they go into markLayersForCaching. */
  datatype Feed = Feed(fb: seq<bool>, drop: seq<bool>, fbCount: int) {
    ghost predicate Valid() {
      |fb| == |drop|
    }

    function MdpCount(): int {
      |fb| - fbCount - Count(drop)
    }

    /** Dropped layers that are marked for MDP all the same. */
    function Strays(): nat
      requires Valid()
    {
      StrayCount(fb, drop, 0, |fb|)
    }

    /** The marks that come out: nothing is cached when fbCount is 0. */
    function Final(list: seq<Layer>): (r: seq<bool>)
      requires Valid() && |list| == |fb|
      ensures |r| == |fb|
    {
      if fbCount != 0 then Marked(fb, drop, Search(fb, drop, list, 0, 0, NO_BATCH)) else fb
    }

    /** By how much the mdpCount that comes out falls short of the layers marked for MDP. */
    function Missing(): int
      requires Valid()
    {
      if fbCount != 0 then Strays() else fbCount - FbCount(fb, drop, 0, |fb|) + Strays()
    }

    ghost predicate Succeeds(list: seq<Layer>, supported: seq<bool>)
      requires Valid() && |list| == |supported| == |fb|
    {
      fbCount != 0 ==>
        MdpCount() != 0 && RestSupported(fb, drop, Search(fb, drop, list, 0, 0, NO_BATCH), supported, |fb|)
    }

    /** fbZ as batching leaves it. */
    function FbZ(list: seq<Layer>): int
      requires Valid() && |list| == |fb|
    {
      if fbCount != 0 then Search(fb, drop, list, 0, 0, NO_BATCH).fbZ else -1
    }

    /** The FB has its place in the list, or nothing to show. */
    ghost predicate Placed(list: seq<Layer>)
      requires Valid() && |list| == |fb|
    {
      FbInPlace(Final(list), drop, list, FbZ(list))
    }
  }

  ghost function FeedOf(f: FrameInfo): Feed
    requires f.Valid()
    reads f, f.isFBComposed, f.drop
  {
    Feed(f.Fb(), f.Drops(), f.fbCount)
  }

  lemma {:induction false} NoneInFb(fb: seq<bool>, drop: seq<bool>, n: nat)
    requires n <= |fb| == |drop| && FbCount(fb, drop, 0, n) == 0
    ensures forall i :: 0 <= i < n && fb[i] ==> drop[i]
  {
    if n > 0 {
      NoneInFb(fb, drop, n - 1);
    }
  }

  lemma {:induction false} AllDropped(fb: seq<bool>, drop: seq<bool>, lo: nat, n: nat)
    requires n <= |fb| == |drop| && forall i :: 0 <= i < n && fb[i] ==> drop[i]
    ensures FbCount(fb, drop, lo, n) == 0
  {
    if lo < n {
      AllDropped(fb, drop, lo, n - 1);
    }
  }

  /** With nothing for the FB to show no batch is found. */
  lemma NothingToCache(fb: seq<bool>, drop: seq<bool>, list: seq<Layer>)
    requires |fb| == |drop| == |list| && FbCount(fb, drop, 0, |fb|) == 0
    ensures
      var b := Search(fb, drop, list, 0, 0, NO_BATCH);
      b == NO_BATCH && FbCount(Marked(fb, drop, b), drop, 0, |fb|) == 0
  {
    NoneInFb(fb, drop, |fb|);
    EmptySearch(fb, drop, list, 0, 0);
    AllDropped(Marked(fb, drop, NO_BATCH), drop, 0, |fb|);
  }

  lemma {:induction false} EmptyGrowth(fb: seq<bool>, drop: seq<bool>, list: seq<Layer>, g: Growth)
    requires |fb| == |drop| == |list| && Growing(g, |fb|) && g.b.count == 0
    requires forall i :: 0 <= i < |fb| && fb[i] ==> drop[i]
    ensures Grow(fb, drop, list, g).b.count == 0
    decreases |fb| - g.i
  {
    if g.i < |fb| && Advance(fb, drop, list, g).Continue? {
      EmptyGrowth(fb, drop, list, Advance(fb, drop, list, g).g);
    }
  }

  lemma {:induction false} EmptySearch(fb: seq<bool>, drop: seq<bool>, list: seq<Layer>, i: nat, dropped: nat)
    requires |fb| == |drop| == |list| && i <= |fb|
    requires forall k :: 0 <= k < |fb| && fb[k] ==> drop[k]
    ensures Search(fb, drop, list, i, dropped, NO_BATCH) == NO_BATCH
    decreases |fb| - i
  {
    if i < |fb| {
      EmptyGrowth(fb, drop, list, NewBatch(i, dropped));
      var g := Grow(fb, drop, list, NewBatch(i, dropped));
      EmptySearch(fb, drop, list, g.i, g.dropped);
    }
  }

  /** Whatever is searched, the size of the batch is the number of layers left in the FB. */
  lemma BatchSizeExact(fb: seq<bool>, drop: seq<bool>, list: seq<Layer>)
    requires |fb| == |drop| == |list|
    ensures
      var b := Search(fb, drop, list, 0, 0, NO_BATCH);
      b.count == FbCount(Marked(fb, drop, b), drop, 0, |fb|)
  {
    if FbCount(fb, drop, 0, |fb|) == 0 {
      NothingToCache(fb, drop, list);
    } else {
      var cut := MarkedPlacement(fb, drop, list);
    }
  }

  /** Strays are a matter of the dropped layers' marks only. */
  lemma {:induction false} StraysAgree(fb: seq<bool>, fb': seq<bool>, drop: seq<bool>, n: nat)
    requires n <= |fb| == |fb'| == |drop| && forall i :: 0 <= i < n && drop[i] ==> fb[i] == fb'[i]
    ensures StrayCount(fb, drop, 0, n) == StrayCount(fb', drop, 0, n)
  {
    if n > 0 {
      StraysAgree(fb, fb', drop, n - 1);
    }
  }

  /** The end of cacheBasedComp and mdpOnlyLayersComp: what batching makes of what it is fed. */
  method MarkAccounted(f: FrameInfo, list: seq<Layer>, supported: seq<bool>) returns (ok: bool)
    requires f.Valid() && |list| == |supported| == f.layerCount && DropsCounted(f) && Recounted(f)
    modifies f, f.isFBComposed
    ensures f.Valid() && f.layerCount == old(f.layerCount) && f.dropCount == old(f.dropCount)
    ensures ok <==> old(FeedOf(f)).Succeeds(list, supported)
    ensures ok ==> f.Fb() == old(FeedOf(f)).Final(list)
    ensures ok ==> f.mdpCount == MdpCount(f.Fb(), 0, f.layerCount) - old(FeedOf(f)).Missing()
    ensures ok ==> if old(f.fbCount) != 0 then f.fbCount == FbCount(f.Fb(), f.Drops(), 0, f.layerCount) else f.fbCount == 0
    ensures ok ==> f.fbZ == if old(f.fbCount) != 0 then Search(old(f.Fb()), old(f.Drops()), list, 0, 0, NO_BATCH).fbZ else old(f.fbZ)
  {
    ghost var fb, drop := f.Fb(), f.Drops();
    DriftIsMiscount(f);
    BatchSizeExact(fb, drop, list);
    ghost var b := Search(fb, drop, list, 0, 0, NO_BATCH);
    StraysAgree(fb, Marked(fb, drop, b), drop, f.layerCount);
    ok := MarkLayersForCaching(f, list, supported);
    assert f.Drops() == drop;
    if ok {
      DriftIsMiscount(f);
    }
  }

  ghost function SetupOf(f: FrameInfo, list: seq<Layer>, split: seq<bool>): Setup
    requires f.Valid()
    reads f, f.isFBComposed, f.drop
  {
    Setup(f.Fb(), f.Drops(), list, split, f.fbZ)
  }

  /** What cacheBasedComp and mdpOnlyLayersComp hand over: the marks, mdpCount up to what is missing,
      and a mixer that shows the list if and only if the FB has its place. */
  ghost predicate Composable(f: FrameInfo, list: seq<Layer>, split: seq<bool>, fed: Feed)
    requires f.Valid() && |list| == |split| == f.layerCount == |fed.fb| && fed.Valid()
    reads f, f.isFBComposed, f.drop
  {
    && f.Drops() == fed.drop && f.Fb() == fed.Final(list)
    && f.mdpCount + fed.Missing() ==
       MdpCount(f.Fb(), 0, f.layerCount) + (if f.fbZ >= 0 then SplitCount(f.Fb(), split, 0, f.layerCount) else 0)
    && f.fbCount == (if fed.fbCount != 0 then FbCount(f.Fb(), f.Drops(), 0, f.layerCount) else 0)
    && (PictureKept(SetupOf(f, list, split)) <==> fed.Placed(list))
  }

  /** Batching never puts the FB over more MDP layers than there are. */
  lemma FbZBound(fed: Feed, list: seq<Layer>)
    requires fed.Valid() && |fed.fb| == |list|
    ensures fed.FbZ(list) <= MdpCount(fed.Final(list), 0, |fed.fb|)
  {
    if FbCount(fed.fb, fed.drop, 0, |fed.fb|) == 0 {
      NothingToCache(fed.fb, fed.drop, list);
    } else {
      var cut := MarkedPlacement(fed.fb, fed.drop, list);
      CountsGrow(Marked(fed.fb, fed.drop, Search(fed.fb, fed.drop, list, 0, 0, NO_BATCH)), fed.fb, cut, |fed.fb|);
    }
  }

  /** With nothing counted twice the FB has its place. */
  lemma NothingRecounted(fed: Feed, list: seq<Layer>)
    requires fed.Valid() && |fed.fb| == |list|
    requires FbCount(fed.fb, fed.drop, 0, |fed.fb|) == 0 || (fed.fbCount != 0 && Rewound(fed.fb, fed.drop, list) == 0)
    ensures fed.Placed(list)
  {
    if FbCount(fed.fb, fed.drop, 0, |fed.fb|) == 0 {
      NothingToCache(fed.fb, fed.drop, list);
      NoneInFb(fed.fb, fed.drop, |fed.fb|);
      NoneInFb(fed.Final(list), fed.drop, |fed.fb|);
    } else {
      CachingShowsList(fed.fb, fed.drop, list, fed.fb, 0);
    }
  }

  /** The adjustment for split layers of what batching has marked. */
  method AdjustMarked(f: FrameInfo, list: seq<Layer>, split: seq<bool>, ghost fed: Feed)
    requires f.Valid() && fed.Valid() && |list| == |split| == f.layerCount == |fed.fb|
    requires f.Drops() == fed.drop && f.Fb() == fed.Final(list)
    requires f.mdpCount == MdpCount(f.Fb(), 0, f.layerCount) - fed.Missing()
    requires f.fbCount == if fed.fbCount != 0 then FbCount(f.Fb(), f.Drops(), 0, f.layerCount) else 0
    requires f.fbZ == fed.FbZ(list)
    modifies f`fbZ, f`mdpCount
    ensures f.Valid() && Composable(f, list, split, fed)
  {
    ghost var fbZ, mdpCount := f.fbZ, f.mdpCount;
    AdjustForSourceSplit(f, split);
    if fbZ >= 0 {
      AdjustMdpCount(f.Fb(), split, f.layerCount, fbZ, mdpCount);
    }
    FbZBound(fed, list);
    KeptIffInPlace(fed.Final(list), fed.drop, list, split, fbZ, mdpCount);
  }

  /** Batching, then the adjustment for split layers; `split` is all false when that feature
      is off. */
  method BatchAndAdjust(f: FrameInfo, list: seq<Layer>, supported: seq<bool>, split: seq<bool>)
    returns (ok: bool, mdpCount: int)
    requires f.Valid() && |list| == |supported| == |split| == f.layerCount && DropsCounted(f) && Recounted(f) && f.fbZ == -1
    modifies f, f.isFBComposed
    ensures f.Valid() && f.layerCount == old(f.layerCount) && f.dropCount == old(f.dropCount)
    ensures ok <==> old(FeedOf(f)).Succeeds(list, supported)
    ensures ok ==> Composable(f, list, split, old(FeedOf(f)))
    ensures ok ==> mdpCount == MdpCount(f.Fb(), 0, f.layerCount) - old(FeedOf(f)).Missing()
  {
    ghost var fed := FeedOf(f);
    ok := MarkAccounted(f, list, supported);
    assert f.Drops() == fed.drop;
    mdpCount := f.mdpCount;
    if ok {
      AdjustMarked(f, list, split, fed);
    }
  }

  /** Whatever fbZ is, mdpCount grows by one for each split layer, and fbZ never falls. */
  lemma {:induction false} AdjustMdpCount(fb: seq<bool>, split: seq<bool>, i: nat, fbZ: int, mdpCount: int)
    requires i <= |fb| == |split|
    ensures Adjust(fb, split, i, fbZ, mdpCount).mdpCount == mdpCount + SplitCount(fb, split, 0, i)
    ensures Adjust(fb, split, i, fbZ, mdpCount).fbZ >= fbZ
  {
    if i > 0 {
      AdjustMdpCount(fb, split, i - 1, fbZ, mdpCount);
    }
  }

  // ------------------------------------------------------------------ cacheBasedComp

  /** Layers that do not update go to the FB. */
  function Idle(updating: seq<bool>): (fb: seq<bool>)
    ensures |fb| == |updating|
  {
    seq(|updating|, i requires 0 <= i < |updating| => !updating[i])
  }

  /** The layers of the frame that are handled first. */
  datatype Special = Special(yuv: seq<nat>, secure: seq<nat>, vgPipes: nat) {
    ghost predicate Valid(n: nat) {
      && (forall j :: 0 <= j < |yuv| ==> yuv[j] < n)
      && (forall j :: 0 <= j < |secure| ==> secure[j] < n)
    }

    function YuvCount(): nat {
      if |yuv| > vgPipes then vgPipes else |yuv|
    }
  }

  /** What cacheBasedComp feeds to batching.  Its fbCount is that of the idle layers, corrected for
      each mark that changed, of a dropped layer or not. */
  function CacheFeed(drop: seq<bool>, caps: Caps, sp: Special): Feed
    requires caps.Valid(|drop|) && sp.Valid(|drop|)
  {
    var n := |drop|;
    var yuv := MarkYuv(Idle(caps.updating), drop, sp.yuv, caps.yuvDoable, AllTrue(n), sp.YuvCount());
    var fb := MarkSecure(yuv, sp.secure, caps.secureDoable, |sp.secure|);
    Feed(fb, drop, FbCount(fb, drop, 0, n) - StrayCount(fb, drop, 0, n) + StrayCount(Idle(caps.updating), drop, 0, n))
  }

  /** The mark of a dropped layer, in the caller's terms. */
  lemma {:induction false} SecureMark(fb: seq<bool>, secure: seq<nat>, doable: seq<bool>, k: nat, i: nat)
    requires |fb| == |doable| && k <= |secure| && i < |fb|
    requires forall j :: 0 <= j < |secure| ==> secure[j] < |fb|
    ensures MarkSecure(fb, secure, doable, k)[i] == if i in secure[..k] then !doable[i] else fb[i]
  {
    if k > 0 {
      SecureMark(fb, secure, doable, k - 1, i);
      assert secure[..k] == secure[..k - 1] + [secure[k - 1]];
    }
  }

  /** A dropped layer ends up in MDP exactly when it is secure RGB and can be shown there, or is not
      secure RGB and updates. */
  lemma DroppedMark(drop: seq<bool>, caps: Caps, sp: Special, i: nat)
    requires caps.Valid(|drop|) && sp.Valid(|drop|) && i < |drop| && drop[i]
    ensures !CacheFeed(drop, caps, sp).fb[i] <==> if i in sp.secure then caps.secureDoable[i] else caps.updating[i]
  {
    var yuv := MarkYuv(Idle(caps.updating), drop, sp.yuv, caps.yuvDoable, AllTrue(|drop|), sp.YuvCount());
    YuvKeepsDropped(Idle(caps.updating), drop, sp.yuv, caps.yuvDoable, AllTrue(|drop|), sp.YuvCount(), i);
    SecureMark(yuv, sp.secure, caps.secureDoable, |sp.secure|, i);
    assert sp.secure[..|sp.secure|] == sp.secure;
  }

  /** The mark of any layer before batching: secure RGB goes by secureDoable, video that the pipes can
      take by yuvDoable, and everything else by whether it updates. */
  lemma CacheMark(drop: seq<bool>, caps: Caps, sp: Special, i: nat)
    requires caps.Valid(|drop|) && sp.Valid(|drop|) && i < |drop|
    ensures CacheFeed(drop, caps, sp).fb[i] <==>
      if i in sp.secure then !caps.secureDoable[i]
      else if i in sp.yuv[..sp.YuvCount()] && !drop[i] then !caps.yuvDoable[i]
      else !caps.updating[i]
  {
    var yuv := MarkYuv(Idle(caps.updating), drop, sp.yuv, caps.yuvDoable, AllTrue(|drop|), sp.YuvCount());
    YuvMark(Idle(caps.updating), drop, sp.yuv, caps.yuvDoable, AllTrue(|drop|), sp.YuvCount(), i);
    SecureMark(yuv, sp.secure, caps.secureDoable, |sp.secure|, i);
    assert sp.secure[..|sp.secure|] == sp.secure;
  }

  /** What becomes of a mark in batching: an FB layer that is not dropped stays one exactly when it is
      in the batch, or when nothing was to be cached. */
  lemma FinalMark(fed: Feed, list: seq<Layer>, i: nat)
    requires fed.Valid() && |list| == |fed.fb| && i < |fed.fb|
    ensures
      var b := Search(fed.fb, fed.drop, list, 0, 0, NO_BATCH);
      fed.Final(list)[i] <==> fed.fb[i] && (fed.fbCount == 0 || fed.drop[i] || b.start <= i <= b.end)
  {
  }

  /** Such layers. */
  function Misfits(drop: seq<bool>, caps: Caps, sp: Special, n: nat): nat
    requires caps.Valid(|drop|) && n <= |drop|
  {
    if n == 0 then 0
    else
      var i := n - 1;
      Misfits(drop, caps, sp, i) +
      (if drop[i] && (if i in sp.secure then caps.secureDoable[i] else caps.updating[i]) then 1 else 0)
  }

  lemma {:induction false} StraysAreMisfits(drop: seq<bool>, caps: Caps, sp: Special, n: nat)
    requires caps.Valid(|drop|) && sp.Valid(|drop|) && n <= |drop|
    ensures StrayCount(CacheFeed(drop, caps, sp).fb, drop, 0, n) == Misfits(drop, caps, sp, n)
  {
    if n > 0 {
      StraysAreMisfits(drop, caps, sp, n - 1);
      if drop[n - 1] {
        DroppedMark(drop, caps, sp, n - 1);
      }
    }
  }

  /** What mdpCount is short of, in the caller's terms: the dropped layers that end up in MDP, or,
      when nothing is left to be cached, the dropped layers that update. */
  lemma CacheMissing(drop: seq<bool>, caps: Caps, sp: Special)
    requires caps.Valid(|drop|) && sp.Valid(|drop|)
    ensures
      var fed := CacheFeed(drop, caps, sp);
      && fed.Missing() == (if fed.fbCount != 0 then Misfits(drop, caps, sp, |drop|) else StrayCount(Idle(caps.updating), drop, 0, |drop|))
      && (fed.Missing() == 0 <==>
            forall i :: 0 <= i < |drop| && drop[i] ==>
              if fed.fbCount != 0 && i in sp.secure then !caps.secureDoable[i] else !caps.updating[i])
  {
    var fed := CacheFeed(drop, caps, sp);
    StraysAreMisfits(drop, caps, sp, |drop|);
    if fed.fbCount != 0 {
      StrayNone(fed.fb, drop, |drop|);
      forall i | 0 <= i < |drop| && drop[i]
        ensures fed.fb[i] <==> if i in sp.secure then !caps.secureDoable[i] else !caps.updating[i]
      {
        DroppedMark(drop, caps, sp, i);
      }
    } else {
      StrayNone(Idle(caps.updating), drop, |drop|);
    }
  }

  /** No updating layer is unsupported. */
  predicate UpdatesSupported(caps: Caps, n: nat)
    requires caps.Valid(n)
  {
    forall i :: 0 <= i < n && caps.updating[i] ==> caps.supported[i]
  }

  /** When cacheBasedComp gets as far as postHeuristicsHandling. */
  ghost predicate CacheReaches(drop: seq<bool>, list: seq<Layer>, caps: Caps, sp: Special, secondary: bool)
    requires |list| == |drop| && caps.Valid(|drop|) && sp.Valid(|drop|)
  {
    var fed := CacheFeed(drop, caps, sp);
    && UpdatesSupported(caps, |drop|) && fed.Succeeds(list, caps.supported)
    && (secondary ==> MdpCount(fed.Final(list), 0, |drop|) - fed.Missing() <= MAX_SEC_LAYERS)
  }

  /** The marks before batching. */
  method FeedCache(f: FrameInfo, caps: Caps, sp: Special) returns (supported: bool)
    requires f.Valid() && caps.Valid(f.layerCount) && DropsCounted(f) && sp.Valid(f.layerCount)
    modifies f, f.isFBComposed, f.layerToMDP, f.listIndex, f.zOrder
    ensures f.Valid() && f.layerCount == old(f.layerCount) && f.dropCount == old(f.dropCount)
    ensures f.Drops() == old(f.Drops()) && supported == UpdatesSupported(caps, f.layerCount)
    ensures supported ==> Recounted(f) && f.fbZ == -1 && FeedOf(f) == CacheFeed(f.Drops(), caps, sp)
  {
    ghost var drop := f.Drops();
    StartFromFb(f, false);
    UpdateLayerCache(f, caps.updating);
    assert f.Fb() == Idle(caps.updating) && f.Drops() == drop;
    supported := true;
    for i := 0 to f.layerCount
      modifies {}
      invariant supported <==> forall k :: 0 <= k < i && caps.updating[k] ==> caps.supported[k]
    {
      assert f.isFBComposed[i] == f.Fb()[i];
      supported := supported && (f.isFBComposed[i] || caps.supported[i]);
    }
    if !supported {
      return;
    }
    var all := AllTrue(f.layerCount);
    UpdateYUV(f, sp.yuv, sp.vgPipes, caps.yuvDoable, all);
    assert f.Drops() == drop;
    UpdateSecureRGB(f, sp.secure, caps.secureDoable);
    assert f.Drops() == drop;
  }

  method CacheBasedMarks(f: FrameInfo, list: seq<Layer>, caps: Caps, sp: Special, secondary: bool) returns (ok: bool)
    requires f.Valid() && |list| == f.layerCount && caps.Valid(f.layerCount) && DropsCounted(f) && sp.Valid(f.layerCount)
    modifies f, f.isFBComposed, f.layerToMDP, f.listIndex, f.zOrder, f.drop
    ensures f.Valid() && f.layerCount == old(f.layerCount)
    ensures ok <==> CacheReaches(old(f.Drops()), list, caps, sp, secondary)
    ensures ok ==> Composable(f, list, caps.split, CacheFeed(old(f.Drops()), caps, sp))
  {
    ghost var drop := f.Drops();
    ok := FeedCache(f, caps, sp);
    if !ok {
      ResetFrame(f);
      return;
    }
    var mdpCount;
    ok, mdpCount := BatchAndAdjust(f, list, caps.supported, caps.split);
    if !ok || (secondary && mdpCount > MAX_SEC_LAYERS) {
      ResetFrame(f);
      return false;
    }
  }

  // ------------------------------------------------------------------ mdpOnlyLayersComp, videoOnlyComp

  /** Which video layers are handled: all, or the secure ones. */
  function Wanted(caps: Caps, secureOnly: bool): (r: seq<bool>)
    ensures |r| == |caps.secureBuffer|
  {
    seq(|caps.secureBuffer|, i requires 0 <= i < |caps.secureBuffer| => !secureOnly || caps.secureBuffer[i])
  }

  /** How both begin: everything in the FB, then the video layers that the pipes can take. */
  method StartWithYuv(f: FrameInfo, caps: Caps, sp: Special, secureOnly: bool)
    requires f.Valid() && caps.Valid(f.layerCount) && DropsCounted(f) && sp.Valid(f.layerCount)
    modifies f, f.isFBComposed, f.layerToMDP, f.listIndex, f.zOrder
    ensures f.Valid() && f.layerCount == old(f.layerCount) && f.dropCount == old(f.dropCount)
    ensures f.Drops() == old(f.Drops()) && f.fbZ == -1
    ensures Recounted(f) && Drift(f) == 0
    ensures f.Fb() == MarkYuv(AllTrue(f.layerCount), f.Drops(), sp.yuv, caps.yuvDoable, Wanted(caps, secureOnly), sp.YuvCount())
    ensures forall i :: 0 <= i < f.layerCount && f.Drops()[i] ==> f.Fb()[i]
  {
    ghost var drop := f.Drops();
    StartFromFb(f, true);
    assert f.Drops() == drop && f.Fb() == AllTrue(f.layerCount);
    var wanted := Wanted(caps, secureOnly);
    UpdateYUV(f, sp.yuv, sp.vgPipes, caps.yuvDoable, wanted);
    assert f.Drops() == drop;
    forall i | 0 <= i < f.layerCount && drop[i] ensures f.Fb()[i] {
      YuvKeepsDropped(AllTrue(f.layerCount), drop, sp.yuv, caps.yuvDoable, wanted, sp.YuvCount(), i);
    }
  }

  /** What mdpOnlyLayersComp feeds to batching. */
  function OnlyFeed(drop: seq<bool>, caps: Caps, sp: Special, secureOnly: bool): Feed
    requires caps.Valid(|drop|) && sp.Valid(|drop|)
  {
    var n := |drop|;
    var yuv := MarkYuv(AllTrue(n), drop, sp.yuv, caps.yuvDoable, Wanted(caps, secureOnly), sp.YuvCount());
    var fb := MarkSecure(yuv, sp.secure, caps.secureDoable, |sp.secure|);
    Feed(fb, drop, FbCount(fb, drop, 0, n) - StrayCount(fb, drop, 0, n))
  }

  /** What mdpCount is short of here: the dropped secure RGB layers that MDP can show, unless nothing
      is left to be cached. */
  lemma OnlyMissing(drop: seq<bool>, caps: Caps, sp: Special, secureOnly: bool)
    requires caps.Valid(|drop|) && sp.Valid(|drop|)
    ensures
      var fed := OnlyFeed(drop, caps, sp, secureOnly);
      fed.Missing() == 0 <==> fed.fbCount == 0 || forall i :: 0 <= i < |drop| && drop[i] && i in sp.secure ==> !caps.secureDoable[i]
  {
    var fed := OnlyFeed(drop, caps, sp, secureOnly);
    var n := |drop|;
    var yuv := MarkYuv(AllTrue(n), drop, sp.yuv, caps.yuvDoable, Wanted(caps, secureOnly), sp.YuvCount());
    StrayNone(fed.fb, drop, n);
    assert sp.secure[..|sp.secure|] == sp.secure;
    forall i | 0 <= i < n && drop[i] ensures fed.fb[i] <==> (i in sp.secure ==> !caps.secureDoable[i]) {
      YuvKeepsDropped(AllTrue(n), drop, sp.yuv, caps.yuvDoable, Wanted(caps, secureOnly), sp.YuvCount(), i);
      SecureMark(yuv, sp.secure, caps.secureDoable, |sp.secure|, i);
    }
  }

  /** The mark of any layer before batching: only secure RGB that can be shown there, and wanted video
      that can be shown there and that the pipes can take, go to MDP. */
  lemma OnlyMark(drop: seq<bool>, caps: Caps, sp: Special, secureOnly: bool, i: nat)
    requires caps.Valid(|drop|) && sp.Valid(|drop|) && i < |drop|
    ensures OnlyFeed(drop, caps, sp, secureOnly).fb[i] <==>
      if i in sp.secure then !caps.secureDoable[i]
      else !(i in sp.yuv[..sp.YuvCount()] && !drop[i] && caps.yuvDoable[i] && (secureOnly ==> caps.secureBuffer[i]))
  {
    var n := |drop|;
    var yuv := MarkYuv(AllTrue(n), drop, sp.yuv, caps.yuvDoable, Wanted(caps, secureOnly), sp.YuvCount());
    YuvMark(AllTrue(n), drop, sp.yuv, caps.yuvDoable, Wanted(caps, secureOnly), sp.YuvCount(), i);
    SecureMark(yuv, sp.secure, caps.secureDoable, |sp.secure|, i);
    assert sp.secure[..|sp.secure|] == sp.secure;
  }

  method MdpOnlyLayersMarks(f: FrameInfo, list: seq<Layer>, caps: Caps, sp: Special, secureOnly: bool) returns (ok: bool)
    requires f.Valid() && |list| == f.layerCount && caps.Valid(f.layerCount) && DropsCounted(f) && sp.Valid(f.layerCount)
    modifies f, f.isFBComposed, f.layerToMDP, f.listIndex, f.zOrder, f.drop
    ensures f.Valid() && f.layerCount == old(f.layerCount)
    ensures
      var fed := OnlyFeed(old(f.Drops()), caps, sp, secureOnly);
      && (ok <==> fed.MdpCount() != 0 && fed.Succeeds(list, caps.supported))
      && (ok ==> Composable(f, list, caps.split, fed))
  {
    ghost var drop := f.Drops();
    StartWithYuv(f, caps, sp, secureOnly);
    UpdateSecureRGB(f, sp.secure, caps.secureDoable);
    assert f.Drops() == drop;
    assert FeedOf(f) == OnlyFeed(drop, caps, sp, secureOnly);
    if f.mdpCount == 0 {
      ResetFrame(f);
      return false;
    }
    var mdpCount;
    ok, mdpCount := BatchAndAdjust(f, list, caps.supported, caps.split);
    if !ok {
      ResetFrame(f);
    }
  }

  /** The video layers that videoOnlyComp marks for MDP: among those that the pipes can take, the
      wanted ones that MDP can show and that are not dropped. */
  function VideoMarks(drop: seq<bool>, caps: Caps, sp: Special, secureOnly: bool): (fb: seq<bool>)
    requires caps.Valid(|drop|) && sp.Valid(|drop|)
    ensures |fb| == |drop|
  {
    MarkYuv(AllTrue(|drop|), drop, sp.yuv, caps.yuvDoable, Wanted(caps, secureOnly), sp.YuvCount())
  }

  /** Layer i is such a layer. */
  ghost predicate MarkedVideo(drop: seq<bool>, caps: Caps, sp: Special, secureOnly: bool, i: nat)
    requires caps.Valid(|drop|) && sp.Valid(|drop|) && i < |drop|
  {
    i in sp.yuv[..sp.YuvCount()] && !drop[i] && Wanted(caps, secureOnly)[i] && caps.yuvDoable[i]
  }

  lemma {:induction false} SomeMdp(fb: seq<bool>, n: nat)
    requires n <= |fb|
    ensures MdpCount(fb, 0, n) != 0 <==> exists i :: 0 <= i < n && !fb[i]
  {
    if n > 0 {
      SomeMdp(fb, n - 1);
    }
  }

  /** There is something for videoOnlyComp to do. */
  ghost predicate VideoReaches(drop: seq<bool>, caps: Caps, sp: Special, secureOnly: bool, securePresent: bool)
    requires caps.Valid(|drop|) && sp.Valid(|drop|)
  {
    (securePresent || !secureOnly) && exists i :: 0 <= i < |drop| && MarkedVideo(drop, caps, sp, secureOnly, i)
  }

  lemma SomeVideoMarked(drop: seq<bool>, caps: Caps, sp: Special, secureOnly: bool)
    requires caps.Valid(|drop|) && sp.Valid(|drop|)
    ensures MdpCount(VideoMarks(drop, caps, sp, secureOnly), 0, |drop|) != 0 <==>
      exists i :: 0 <= i < |drop| && MarkedVideo(drop, caps, sp, secureOnly, i)
  {
    var fb := VideoMarks(drop, caps, sp, secureOnly);
    SomeMdp(fb, |drop|);
    forall i | 0 <= i < |drop| ensures fb[i] <==> !MarkedVideo(drop, caps, sp, secureOnly, i) {
      YuvMark(AllTrue(|drop|), drop, sp.yuv, caps.yuvDoable, Wanted(caps, secureOnly), sp.YuvCount(), i);
    }
  }

  /** videoOnlyComp: the FB goes on top of the video layers. */
  method VideoOnlyMarks(f: FrameInfo, caps: Caps, sp: Special, secureOnly: bool, securePresent: bool)
    returns (ok: bool)
    requires f.Valid() && caps.Valid(f.layerCount) && DropsCounted(f) && sp.Valid(f.layerCount)
    modifies f, f.isFBComposed, f.layerToMDP, f.listIndex, f.zOrder, f.drop
    ensures f.Valid() && f.layerCount == old(f.layerCount)
    ensures ok <==> VideoReaches(old(f.Drops()), caps, sp, secureOnly, securePresent)
    ensures ok ==>
      && f.Drops() == old(f.Drops()) && f.Fb() == VideoMarks(f.Drops(), caps, sp, secureOnly)
      && f.fbCount == FbCount(f.Fb(), f.Drops(), 0, f.layerCount)
      && (if f.fbCount == 0 then
            f.fbZ == -1 && Accounted(f)
          else
            var splits := SplitCount(f.Fb(), caps.split, 0, f.layerCount);
            f.fbZ == f.mdpCount == MdpCount(f.Fb(), 0, f.layerCount) + splits)
  {
    ghost var drop, n := f.Drops(), f.layerCount;
    StartWithYuv(f, caps, sp, secureOnly);
    VideoCounted(f, drop, caps, sp, secureOnly);
    if |sp.yuv| == 0 || f.mdpCount == 0 || (!securePresent && secureOnly) {
      ResetFrame(f);
      return false;
    }
    FbOnTop(f, caps.split);
    assert f.Drops() == drop;
    return true;
  }

  lemma VideoCounted(f: FrameInfo, drop: seq<bool>, caps: Caps, sp: Special, secureOnly: bool)
    requires f.Valid() && caps.Valid(f.layerCount) && sp.Valid(f.layerCount) && DropsCounted(f) && Recounted(f) && Drift(f) == 0
    requires f.Drops() == drop && f.Fb() == VideoMarks(drop, caps, sp, secureOnly)
    requires forall i :: 0 <= i < f.layerCount && drop[i] ==> f.Fb()[i]
    ensures f.mdpCount != 0 <==> exists i :: 0 <= i < |drop| && MarkedVideo(drop, caps, sp, secureOnly, i)
    ensures f.mdpCount != 0 ==> |sp.yuv| != 0
  {
    StrayNone(f.Fb(), f.Drops(), f.layerCount);
    DriftIsMiscount(f);
    SomeVideoMarked(drop, caps, sp, secureOnly);
  }

  /** The FB above all marked layers, with the adjustment for split ones. */
  method FbOnTop(f: FrameInfo, split: seq<bool>)
    requires f.Valid() && |split| == f.layerCount && DropsCounted(f) && Recounted(f) && Drift(f) == 0 && f.fbZ == -1
    requires forall i :: 0 <= i < f.layerCount && f.Drops()[i] ==> f.Fb()[i]
    modifies f`fbZ, f`mdpCount
    ensures f.Valid() && f.fbCount == FbCount(f.Fb(), f.Drops(), 0, f.layerCount)
    ensures
      if f.fbCount == 0 then
        f.fbZ == -1 && Accounted(f)
      else
        f.fbZ == f.mdpCount == MdpCount(f.Fb(), 0, f.layerCount) + SplitCount(f.Fb(), split, 0, f.layerCount)
  {
    StrayNone(f.Fb(), f.Drops(), f.layerCount);
    DriftIsMiscount(f);
    if f.fbCount != 0 {
      f.fbZ := f.mdpCount;
    }
    AdjustCounts(f.Fb(), split, f.layerCount, f.layerCount, f.mdpCount);
    AdjustForSourceSplit(f, split);
  }

  // ------------------------------------------------------------------ load balancing

  function KeptCount(drop: seq<bool>, lo: nat, hi: nat): nat
    requires hi <= |drop|
  {
    if hi <= lo then 0 else KeptCount(drop, lo, hi - 1) + (if !drop[hi - 1] then 1 else 0)
  }

  lemma {:induction false} KeptIsRest(drop: seq<bool>, hi: nat)
    requires hi <= |drop|
    ensures KeptCount(drop, 0, hi) + Count(drop[..hi]) == hi
  {
    if hi > 0 {
      KeptIsRest(drop, hi - 1);
      assert drop[..hi][..hi - 1] == drop[..hi - 1];
    }
  }

  /** The first layer, dropped ones apart, that MDP cannot show. */
  function FirstUnsupported(drop: seq<bool>, supported: seq<bool>, i: nat): (r: nat)
    requires i <= |drop| == |supported|
    ensures i <= r <= |drop|
    ensures forall k :: i <= k < r && !drop[k] ==> supported[k]
    ensures r < |drop| ==> !drop[r] && !supported[r]
    decreases |drop| - i
  {
    if i == |drop| || (!drop[i] && !supported[i]) then i else FirstUnsupported(drop, supported, i + 1)
  }

  /** The MDP batch that is tried first: it fits the stages, holds supported layers only and
      leaves at least two layers to the FB. */
  function LoadBatchSize(drop: seq<bool>, supported: seq<bool>, stages: int): int
    requires |drop| == |supported|
  {
    var last := FirstUnsupported(drop, supported, 0);
    var kept := KeptCount(drop, 0, |drop|);
    var size := if last < |drop| && KeptCount(drop, 0, last) < stages - 1 then KeptCount(drop, 0, last) else stages - 1;
    if kept - size < 2 then kept - 2 else size
  }

  /** It is the largest size that leaves a stage to the FB, holds no more layers than lie below the
      first unsupported one, and leaves two to the FB. */
  lemma LoadBatchLargest(drop: seq<bool>, supported: seq<bool>, stages: int, size: int)
    requires |drop| == |supported|
    ensures size <= LoadBatchSize(drop, supported, stages) <==>
      size < stages && size <= KeptCount(drop, 0, FirstUnsupported(drop, supported, 0)) && size + 2 <= KeptCount(drop, 0, |drop|)
  {
    KeptGrows(drop, FirstUnsupported(drop, supported, 0), |drop|);
  }

  lemma {:induction false} KeptGrows(drop: seq<bool>, lo: nat, hi: nat)
    requires lo <= hi <= |drop|
    ensures KeptCount(drop, 0, lo) <= KeptCount(drop, 0, hi) <= KeptCount(drop, 0, lo) + hi - lo
  {
    if lo < hi {
      KeptGrows(drop, lo, hi - 1);
    }
  }

  lemma {:induction false} KeptAll(drop: seq<bool>, hi: nat)
    requires hi <= |drop| && forall i :: 0 <= i < hi ==> !drop[i]
    ensures KeptCount(drop, 0, hi) == hi
  {
    if hi > 0 {
      KeptAll(drop, hi - 1);
    }
  }

  /** The kept layers below `stop` go to MDP, all others to the FB. */
  ghost predicate LowerPart(fb: seq<bool>, drop: seq<bool>, stop: nat) {
    |fb| == |drop| && stop <= |fb| && forall k :: 0 <= k < |fb| ==> fb[k] == !(k < stop && !drop[k])
  }

  lemma {:induction false} LowerPartCounts(fb: seq<bool>, drop: seq<bool>, stop: nat, n: nat)
    requires LowerPart(fb, drop, stop) && n <= |fb|
    ensures MdpCount(fb, 0, n) == KeptCount(drop, 0, if stop < n then stop else n)
  {
    if n > 0 {
      LowerPartCounts(fb, drop, stop, n - 1);
    }
  }

  /** One marking attempt of loadBasedComp. */
  method MarkLowerPart(f: FrameInfo, last: nat, size: nat) returns (ghost stop: nat)
    requires f.Valid() && last <= f.layerCount && f.Fb() == AllTrue(f.layerCount)
    requires size <= KeptCount(f.Drops(), 0, last)
    modifies f.isFBComposed
    ensures f.Valid() && stop <= last && LowerPart(f.Fb(), f.Drops(), stop) && KeptCount(f.Drops(), 0, stop) == size
  {
    ghost var drop := f.Drops();
    var mdpBatchLeft := size;
    var i := 0;
    while i < last && mdpBatchLeft != 0
      invariant i <= last && 0 <= mdpBatchLeft <= size && f.Drops() == drop
      invariant LowerPart(f.Fb(), drop, i)
      invariant KeptCount(drop, 0, i) == size - mdpBatchLeft
    {
      assert f.drop[i] == drop[i];
      if !f.drop[i] {
        f.isFBComposed[i] := false;
        mdpBatchLeft := mdpBatchLeft - 1;
      }
      i := i + 1;
    }
    stop := i;
  }

  /** The first half of loadBasedComp: how large a batch to try first. */
  method ChooseLoadBatch(f: FrameInfo, supported: seq<bool>, stages: int) returns (mdpBatchSize: int, fbBatchSize: int, last: nat)
    requires f.Valid() && |supported| == f.layerCount && DropsCounted(f)
    ensures mdpBatchSize == LoadBatchSize(f.Drops(), supported, stages) <= stages - 1
    ensures mdpBatchSize + fbBatchSize == f.layerCount - f.dropCount && fbBatchSize >= 2
    ensures last == FirstUnsupported(f.Drops(), supported, 0)
    ensures mdpBatchSize <= KeptCount(f.Drops(), 0, last)
  {
    ghost var drop := f.Drops();
    var n, dropCount := f.layerCount, 0;
    mdpBatchSize := stages - 1;
    last := 0;
    while last < n
      invariant last <= n && dropCount + KeptCount(drop, 0, last) == last
      invariant FirstUnsupported(drop, supported, 0) == FirstUnsupported(drop, supported, last)
      invariant mdpBatchSize == stages - 1
    {
      assert drop[last] == f.drop[last];
      if f.drop[last] {
        dropCount := dropCount + 1;
      } else if !supported[last] {
        mdpBatchSize := if last - dropCount < stages - 1 then last - dropCount else stages - 1;
        break;
      }
      last := last + 1;
    }
    KeptIsRest(drop, n);
    KeptGrows(drop, last, n);
    assert drop[..n] == drop;
    fbBatchSize := n - f.dropCount - mdpBatchSize;
    while fbBatchSize < 2
      invariant mdpBatchSize + fbBatchSize == n - f.dropCount
      invariant mdpBatchSize <= stages - 1
      invariant LoadBatchSize(drop, supported, stages) == if fbBatchSize < 2 then n - f.dropCount - 2 else mdpBatchSize
      invariant mdpBatchSize <= KeptCount(drop, 0, last) || last == n
    {
      fbBatchSize := fbBatchSize + 1;
      mdpBatchSize := mdpBatchSize - 1;
    }
  }

  /** What a successful attempt hands over. */
  lemma LowerPartWellPlaced(m: Setup, stop: nat)
    requires m.Valid() && LowerPart(m.fb, m.drop, stop)
    requires m.split == AllFalse(|m.fb|) && m.fbZ == KeptCount(m.drop, 0, stop)
    ensures MdpCount(m.fb, 0, |m.fb|) == m.fbZ && FbWellPlaced(m, |m.fb|)
  {
    LowerPartCounts(m.fb, m.drop, stop, |m.fb|);
    NoSplits(m.fb, |m.fb|);
  }

  /** Layers marked for MDP are supported, or had been dropped when the sizes were chosen. */
  ghost predicate MdpSupported(fb: seq<bool>, supported: seq<bool>, drop: seq<bool>) {
    |fb| == |supported| == |drop| && forall i :: 0 <= i < |fb| && !fb[i] ==> supported[i] || drop[i]
  }

  /** One attempt: marks, FB stage and counters for one batch size. */
  method TryLoadBatch(f: FrameInfo, list: seq<Layer>, last: nat, mdpBatchSize: nat, fbBatchSize: int)
    requires f.Valid() && |list| == f.layerCount && f.Fb() == AllTrue(f.layerCount)
    requires last <= f.layerCount && mdpBatchSize <= KeptCount(f.Drops(), 0, last)
    modifies f`fbZ, f`fbCount, f`mdpCount, f.isFBComposed
    ensures f.Valid() && Accounted(f) && f.fbZ == f.mdpCount == mdpBatchSize && f.fbCount == fbBatchSize
    ensures FbWellPlaced(SetupOf(f, list, AllFalse(f.layerCount)), f.layerCount)
    ensures forall i :: last <= i < f.layerCount ==> f.Fb()[i]
  {
    ghost var drop := f.Drops();
    ghost var stop := MarkLowerPart(f, last, mdpBatchSize);
    f.fbZ := mdpBatchSize;
    f.fbCount := fbBatchSize;
    f.mdpCount := mdpBatchSize;
    LowerPartWellPlaced(SetupOf(f, list, AllFalse(f.layerCount)), stop);
  }

  /** loadBasedComp: the lower layers to MDP, the rest flattened on top of them; `accepts`
      says which batch sizes pass postHeuristicsHandling.  (It comes after cacheBasedComp has reset
      the frame, or in a frame that cannot be updated partly, so that nothing is dropped.) */
  method LoadBasedMarks(f: FrameInfo, list: seq<Layer>, supported: seq<bool>, stages: int, accepts: int -> bool)
    returns (ok: bool)
    requires f.Valid() && |list| == |supported| == f.layerCount && DropsCounted(f)
    modifies f, f.isFBComposed, f.layerToMDP, f.listIndex, f.zOrder, f.drop
    ensures f.Valid() && f.layerCount == old(f.layerCount)
    ensures ok ==> Accounted(f) && f.fbZ == f.mdpCount && 1 <= f.mdpCount <= stages - 1
    ensures ok ==> FbWellPlaced(SetupOf(f, list, AllFalse(f.layerCount)), f.layerCount)
    ensures ok ==> MdpSupported(f.Fb(), supported, old(f.Drops()))
    ensures ok ==> f.fbCount == f.layerCount - old(f.dropCount) - f.mdpCount
    ensures ok && old(f.dropCount) == 0 ==>
      && f.fbCount == FbCount(f.Fb(), f.Drops(), 0, f.layerCount)
      && forall i :: 0 <= i < f.layerCount && !f.Fb()[i] ==> supported[i]
    ensures Refused(accepts, if ok then f.mdpCount else 0, LoadBatchSize(old(f.Drops()), supported, stages))
    ensures ok ==> accepts(f.mdpCount) && f.mdpCount <= LoadBatchSize(old(f.Drops()), supported, stages)
  {
    ghost var drop := f.Drops();
    var n := f.layerCount;
    var mdpBatchSize, fbBatchSize, last := ChooseLoadBatch(f, supported, stages);
    CountNone(drop);
    if mdpBatchSize < 1 {
      return false;
    }
    f.Reset(n);
    assert f.Drops() == drop;
    ok := TryLoadBatches(f, list, last, mdpBatchSize, fbBatchSize, accepts);
  }

  /** The second half: ever smaller batches, until one is accepted. */
  method TryLoadBatches(f: FrameInfo, list: seq<Layer>, last: nat, firstSize: nat, firstRest: int, accepts: int -> bool)
    returns (ok: bool)
    requires f.Valid() && |list| == f.layerCount && f.Fb() == AllTrue(f.layerCount)
    requires last <= f.layerCount && firstSize <= KeptCount(f.Drops(), 0, last)
    modifies f, f.isFBComposed, f.layerToMDP, f.listIndex, f.zOrder, f.drop
    ensures f.Valid() && f.layerCount == old(f.layerCount)
    ensures ok ==> Accounted(f) && f.fbZ == f.mdpCount && 1 <= f.mdpCount <= firstSize && f.fbCount == firstRest + firstSize - f.mdpCount
    ensures ok ==> FbWellPlaced(SetupOf(f, list, AllFalse(f.layerCount)), f.layerCount)
    ensures ok ==> forall i :: last <= i < f.layerCount ==> f.Fb()[i]
    ensures ok && (forall i :: 0 <= i < f.layerCount ==> !old(f.Drops())[i]) ==>
      FbCount(f.Fb(), f.Drops(), 0, f.layerCount) == f.layerCount - f.mdpCount
    ensures Refused(accepts, if ok then f.mdpCount else 0, firstSize) && (ok ==> accepts(f.mdpCount))
  {
    ghost var n, drop := f.layerCount, f.Drops();
    var mdpBatchSize, fbBatchSize := firstSize, firstRest;
    while mdpBatchSize > 0
      invariant f.Valid() && f.layerCount == n && f.Fb() == AllTrue(n)
      invariant 0 <= mdpBatchSize <= firstSize && Refused(accepts, mdpBatchSize, firstSize)
      invariant mdpBatchSize <= KeptCount(f.Drops(), 0, last) && mdpBatchSize + fbBatchSize == firstSize + firstRest
      invariant (forall i :: 0 <= i < n ==> !drop[i]) ==> forall i :: 0 <= i < n ==> !f.Drops()[i]
    {
      ok := OneLoadBatch(f, list, last, mdpBatchSize, fbBatchSize, accepts);
      if ok {
        KeptByNone(f.Fb(), f.Drops(), n);
        return;
      }
      mdpBatchSize := mdpBatchSize - 1;
      fbBatchSize := fbBatchSize + 1;
    }
    return false;
  }

  /** Without drops every layer is in one of the two counts. */
  lemma {:induction false} KeptByNone(fb: seq<bool>, drop: seq<bool>, n: nat)
    requires n <= |fb| == |drop|
    ensures (forall i :: 0 <= i < n ==> !drop[i]) ==> FbCount(fb, drop, 0, n) == n - MdpCount(fb, 0, n)
  {
    if n > 0 {
      KeptByNone(fb, drop, n - 1);
    }
  }

  /** One turn of loadBasedComp; after a refusal the frame is reset, its drop flags with it. */
  method OneLoadBatch(f: FrameInfo, list: seq<Layer>, last: nat, mdpBatchSize: nat, fbBatchSize: int, accepts: int -> bool)
    returns (ok: bool)
    requires f.Valid() && |list| == f.layerCount && f.Fb() == AllTrue(f.layerCount)
    requires last <= f.layerCount && mdpBatchSize <= KeptCount(f.Drops(), 0, last)
    modifies f, f.isFBComposed, f.layerToMDP, f.listIndex, f.zOrder, f.drop
    ensures f.Valid() && f.layerCount == old(f.layerCount) && ok == accepts(mdpBatchSize)
    ensures ok ==> Accounted(f) && f.fbZ == f.mdpCount == mdpBatchSize && f.fbCount == fbBatchSize && f.Drops() == old(f.Drops())
    ensures ok ==> FbWellPlaced(SetupOf(f, list, AllFalse(f.layerCount)), f.layerCount)
    ensures ok ==> forall i :: last <= i < f.layerCount ==> f.Fb()[i]
    ensures !ok ==> f.Fb() == AllTrue(f.layerCount) && KeptCount(f.Drops(), 0, last) >= mdpBatchSize
    ensures !ok ==> forall i :: 0 <= i < f.layerCount ==> !f.Drops()[i]
  {
    ghost var drop := f.Drops();
    KeptGrows(drop, 0, last);
    TryLoadBatch(f, list, last, mdpBatchSize, fbBatchSize);
    assert f.Drops() == drop;
    ok := accepts(mdpBatchSize);
    if !ok {
      ResetFrame(f);
      KeptAll(f.Drops(), last);
    }
  }

  /** Every size above `size`, from the first one tried on, was refused. */
  ghost predicate Refused(accepts: int -> bool, size: int, first: int) {
    forall s :: size < s <= first ==> !accepts(s)
  }

  lemma {:induction false} NoSplits(fb: seq<bool>, n: nat)
    requires n <= |fb|
    ensures SplitCount(fb, AllFalse(|fb|), 0, n) == 0
  {
    if n > 0 {
      NoSplits(fb, n - 1);
    }
  }
}

/** From marked layers to mixer stages (hwc_mdpcomp.cpp): pipe accounting, the layer maps, and
    the z-orders of the MDP layers and of the framebuffer, with 4k video layers that take two
    stages.  The main result reads the mixer bottom to top and finds the original list. */
module ZOrder {
  import opened Rects
  import opened Layers
  import opened Frames
  import opened Batching

  /** Layers of [lo, hi) that go to MDP through two pipes. */
  function SplitCount(fb: seq<bool>, split: seq<bool>, lo: nat, hi: nat): nat
    requires hi <= |fb| == |split|
  {
    if hi <= lo then 0 else SplitCount(fb, split, lo, hi - 1) + (if !fb[hi - 1] && split[hi - 1] then 1 else 0)
  }

  // ------------------------------------------------------------------ source split

  datatype Adjusted = Adjusted(pos: int, fbZ: int, mdpCount: int)

  /** adjustForSourceSplit after the first i layers. */
  function Adjust(fb: seq<bool>, split: seq<bool>, i: nat, fbZ: int, mdpCount: int): Adjusted
    requires i <= |fb| == |split|
  {
    if i == 0 then
      Adjusted(0, fbZ, mdpCount)
    else
      var a := Adjust(fb, split, i - 1, fbZ, mdpCount);
      if fb[i - 1] then
        a
      else
        var pos := (if a.pos == a.fbZ then a.pos + 1 else a.pos) + 1;
        if split[i - 1] then
          Adjusted(pos + 1, if pos <= a.fbZ then a.fbZ + 1 else a.fbZ, a.mdpCount + 1)
        else
          a.(pos := pos)
  }

  method AdjustForSourceSplit(f: FrameInfo, split: seq<bool>)
    requires f.Valid() && |split| == f.layerCount
    modifies f`fbZ, f`mdpCount
    ensures f.Valid()
    ensures old(f.fbZ) < 0 ==> f.fbZ == old(f.fbZ) && f.mdpCount == old(f.mdpCount)
    ensures old(f.fbZ) >= 0 ==>
      var a := Adjust(f.Fb(), split, f.layerCount, old(f.fbZ), old(f.mdpCount));
      f.fbZ == a.fbZ && f.mdpCount == a.mdpCount
  {
    if f.fbZ >= 0 {
      var mdpNextZOrder := 0;
      for index := 0 to f.layerCount
        invariant Adjust(f.Fb(), split, index, old(f.fbZ), old(f.mdpCount)) == Adjusted(mdpNextZOrder, f.fbZ, f.mdpCount)
      {
        if !f.isFBComposed[index] {
          if mdpNextZOrder == f.fbZ {
            mdpNextZOrder := mdpNextZOrder + 1;
          }
          mdpNextZOrder := mdpNextZOrder + 1;
          if split[index] {
            if mdpNextZOrder <= f.fbZ {
              f.fbZ := f.fbZ + 1;
            }
            mdpNextZOrder := mdpNextZOrder + 1;
            f.mdpCount := f.mdpCount + 1;
          }
        }
      }
    }
  }

  /** The FB moves up by one for each split layer below it, and no further. */
  lemma {:induction false} AdjustCounts(fb: seq<bool>, split: seq<bool>, i: nat, cut: nat, mdpCount: int)
    requires i <= |fb| == |split| && cut <= |fb|
    ensures
      var a := Adjust(fb, split, i, MdpCount(fb, 0, cut), mdpCount);
      && a.mdpCount == mdpCount + SplitCount(fb, split, 0, i)
      && a.fbZ == MdpCount(fb, 0, cut) + SplitCount(fb, split, 0, Min(i, cut))
      && a.pos == MdpCount(fb, 0, i) + SplitCount(fb, split, 0, i) +
                  (if MdpCount(fb, 0, i) > MdpCount(fb, 0, cut) then 1 else 0)
  {
    if i > 0 {
      AdjustCounts(fb, split, i - 1, cut, mdpCount);
      if !fb[i - 1] {
        RankOrder(fb, split, i - 1, cut);
      }
    }
  }

  /** An MDP layer is below the cut exactly when its rank is, and layers between the cut and
      the next MDP layer add nothing to the counts. */
  lemma {:induction false} RankOrder(fb: seq<bool>, split: seq<bool>, i: nat, cut: nat)
    requires i < |fb| == |split| && cut <= |fb| && !fb[i]
    ensures i < cut ==> MdpCount(fb, 0, i) < MdpCount(fb, 0, cut) &&
                        SplitCount(fb, split, 0, i) + (if split[i] then 1 else 0) <= SplitCount(fb, split, 0, cut)
    ensures cut <= i ==> MdpCount(fb, 0, cut) <= MdpCount(fb, 0, i) &&
                         SplitCount(fb, split, 0, cut) <= SplitCount(fb, split, 0, i)
    ensures cut <= i && MdpCount(fb, 0, cut) == MdpCount(fb, 0, i) ==>
              SplitCount(fb, split, 0, cut) == SplitCount(fb, split, 0, i)
  {
    if i < cut {
      CountsGrow(fb, split, i + 1, cut);
    } else {
      CountsGrow(fb, split, cut, i);
    }
  }

  lemma {:induction false} CountsGrow(fb: seq<bool>, split: seq<bool>, lo: nat, hi: nat)
    requires lo <= hi <= |fb| == |split|
    ensures MdpCount(fb, 0, lo) <= MdpCount(fb, 0, hi)
    ensures SplitCount(fb, split, 0, lo) <= SplitCount(fb, split, 0, hi)
    ensures MdpCount(fb, 0, lo) == MdpCount(fb, 0, hi) ==> SplitCount(fb, split, 0, lo) == SplitCount(fb, split, 0, hi)
  {
    if lo < hi {
      CountsGrow(fb, split, lo, hi - 1);
    }
  }

  // ------------------------------------------------------------------ z-orders

  /** mdpNextZOrder before layer i. */
  function NextZ(fb: seq<bool>, split: seq<bool>, fbZ: int, i: nat): nat
    requires i <= |fb| == |split|
    decreases i, 0
  {
    if i == 0 then 0
    else if fb[i - 1] then NextZ(fb, split, fbZ, i - 1)
    else ZOf(fb, split, fbZ, i - 1) + 1 + (if split[i - 1] then 1 else 0)
  }

  /** The z-order of MDP layer i: the next free one, leaving fbZ to the framebuffer. */
  function ZOf(fb: seq<bool>, split: seq<bool>, fbZ: int, i: nat): nat
    requires i < |fb| == |split|
    decreases i, 1
  {
    var z := NextZ(fb, split, fbZ, i);
    if z == fbZ then z + 1 else z
  }

  lemma {:induction false} NextZCounts(fb: seq<bool>, split: seq<bool>, cut: nat, i: nat)
    requires i <= |fb| == |split| && cut <= |fb|
    ensures
      var fbZ := MdpCount(fb, 0, cut) + SplitCount(fb, split, 0, cut);
      NextZ(fb, split, fbZ, i) == MdpCount(fb, 0, i) + SplitCount(fb, split, 0, i) +
        (if MdpCount(fb, 0, i) > MdpCount(fb, 0, cut) then 1 else 0)
  {
    if i > 0 {
      NextZCounts(fb, split, cut, i - 1);
      if !fb[i - 1] {
        RankOrder(fb, split, i - 1, cut);
      }
    }
  }

  /** Slots respect the cut: all stages of a layer below it lie below the FB, all of a layer
      above it lie above the FB. */
  lemma SlotsAroundFb(fb: seq<bool>, split: seq<bool>, cut: nat, i: nat)
    requires i < |fb| == |split| && cut <= |fb| && !fb[i]
    ensures
      var fbZ := MdpCount(fb, 0, cut) + SplitCount(fb, split, 0, cut);
      var z := ZOf(fb, split, fbZ, i);
      && (i < cut ==> z + (if split[i] then 1 else 0) < fbZ)
      && (cut <= i ==> z > fbZ)
  {
    NextZCounts(fb, split, cut, i);
    RankOrder(fb, split, i, cut);
  }

  /** Slots increase in list order and two layers never share one. */
  lemma {:induction false} SlotsIncrease(fb: seq<bool>, split: seq<bool>, fbZ: int, i: nat, j: nat)
    requires i < j < |fb| == |split| && !fb[i]
    ensures ZOf(fb, split, fbZ, i) + (if split[i] then 1 else 0) < NextZ(fb, split, fbZ, j) <= ZOf(fb, split, fbZ, j)
  {
    if i < j - 1 {
      SlotsIncrease(fb, split, fbZ, i, j - 1);
    }
  }

  // ------------------------------------------------------------------ reading the mixer

  /** The halves that configureSourceSplit gives to the two pipes of a split layer. */
  function LeftPipe(r: Rect): Rect {
    r.(right := r.left + (r.right - r.left) / 2)
  }

  function RightPipe(r: Rect): Rect {
    r.(left := r.left + (r.right - r.left) / 2)
  }

  /** A frame as the mixer is set up for it: marks, list, split flags and the FB stage. */
  datatype Setup = Setup(fb: seq<bool>, drop: seq<bool>, ls: seq<Layer>, split: seq<bool>, fbZ: int) {
    ghost predicate Valid() {
      |fb| == |drop| == |ls| == |split|
    }
  }

  /** Layer i puts a pixel at p into stage s: on its own, as one half, or as part of the FB. */
  predicate Shows(m: Setup, i: nat, s: int, p: Point)
    requires m.Valid() && i < |m.fb|
  {
    if m.fb[i] then
      !m.drop[i] && s == m.fbZ && m.ls[i].frame.Has(p)
    else
      var z := ZOf(m.fb, m.split, m.fbZ, i);
      if m.split[i] then
        (s == z && LeftPipe(m.ls[i].frame).Has(p)) || (s == z + 1 && RightPipe(m.ls[i].frame).Has(p))
      else
        s == z && m.ls[i].frame.Has(p)
  }

  /** The layers that stage s shows at p; the FB stage flattens its layers in list order. */
  function Stage(m: Setup, n: nat, s: int, p: Point): seq<nat>
    requires m.Valid() && n <= |m.fb|
  {
    if n == 0 then [] else Stage(m, n - 1, s, p) + (if Shows(m, n - 1, s, p) then [n - 1] else [])
  }

  /** Stages 0 .. s-1, bottom to top. */
  function Mixer(m: Setup, s: nat, p: Point): seq<nat>
    requires m.Valid()
  {
    if s == 0 then [] else Mixer(m, s - 1, p) + Stage(m, |m.fb|, s - 1, p)
  }

  /** The layer is not dropped and covers p. */
  predicate Visible(m: Setup, i: nat, p: Point)
    requires m.Valid() && i < |m.fb|
  {
    !(m.fb[i] && m.drop[i]) && m.ls[i].frame.Has(p)
  }

  /** What the original list shows at p, bottom to top. */
  function Listed(m: Setup, n: nat, p: Point): seq<nat>
    requires m.Valid() && n <= |m.fb|
  {
    if n == 0 then [] else Listed(m, n - 1, p) + (if Visible(m, n - 1, p) then [n - 1] else [])
  }

  /** The one stage in which a visible layer shows at p. */
  function Key(m: Setup, i: nat, p: Point): int
    requires m.Valid() && i < |m.fb|
  {
    if m.fb[i] then
      m.fbZ
    else
      ZOf(m.fb, m.split, m.fbZ, i) + (if m.split[i] && RightPipe(m.ls[i].frame).Has(p) then 1 else 0)
  }

  lemma ShowsAtKey(m: Setup, i: nat, s: int, p: Point)
    requires m.Valid() && i < |m.fb|
    ensures Shows(m, i, s, p) <==> Visible(m, i, p) && s == Key(m, i, p)
  {
  }

  /** The visible layers whose stage is below s, in list order. */
  function Below(m: Setup, n: nat, s: int, p: Point): seq<nat>
    requires m.Valid() && n <= |m.fb|
  {
    if n == 0 then [] else Below(m, n - 1, s, p) + (if Visible(m, n - 1, p) && Key(m, n - 1, p) < s then [n - 1] else [])
  }

  /** At p, a visible layer is never in a lower stage than a visible layer under it. */
  ghost predicate InOrder(m: Setup, p: Point)
    requires m.Valid()
  {
    forall i, j :: 0 <= i < j < |m.fb| && Visible(m, i, p) && Visible(m, j, p) ==> Key(m, i, p) <= Key(m, j, p)
  }

  lemma {:induction false} StageEmptyAbove(m: Setup, n: nat, j: nat, s: int, p: Point)
    requires m.Valid() && InOrder(m, p) && n <= j < |m.fb| && Visible(m, j, p) && s > Key(m, j, p)
    ensures Stage(m, n, s, p) == []
  {
    if n > 0 {
      StageEmptyAbove(m, n - 1, j, s, p);
      ShowsAtKey(m, n - 1, s, p);
    }
  }

  lemma {:induction false} BelowStep(m: Setup, n: nat, s: int, p: Point)
    requires m.Valid() && InOrder(m, p) && n <= |m.fb|
    ensures Below(m, n, s + 1, p) == Below(m, n, s, p) + Stage(m, n, s, p)
  {
    if n > 0 {
      BelowStep(m, n - 1, s, p);
      ShowsAtKey(m, n - 1, s, p);
      var below, stage := Below(m, n - 1, s, p), Stage(m, n - 1, s, p);
      if Visible(m, n - 1, p) {
        if Key(m, n - 1, p) < s {
          StageEmptyAbove(m, n - 1, n - 1, s, p);
          assert stage == [] && below + stage == below;
        } else if Key(m, n - 1, p) == s {
          assert (below + stage) + [n - 1] == below + (stage + [n - 1]);
        }
      }
    }
  }

  /** No layer that shows at p is left to the FB. */
  ghost predicate NothingInFb(m: Setup, p: Point)
    requires m.Valid()
  {
    forall i :: 0 <= i < |m.fb| && Visible(m, i, p) ==> !m.fb[i]
  }

  lemma {:induction false} MixerIsBelow(m: Setup, s: nat, p: Point)
    requires m.Valid() && InOrder(m, p)
    requires m.fbZ >= 0 || NothingInFb(m, p)
    ensures Mixer(m, s, p) == Below(m, |m.fb|, s, p)
  {
    if s == 0 {
      BelowZero(m, |m.fb|, p);
    } else {
      MixerIsBelow(m, s - 1, p);
      BelowStep(m, |m.fb|, s - 1, p);
    }
  }

  lemma {:induction false} BelowZero(m: Setup, n: nat, p: Point)
    requires m.Valid() && n <= |m.fb|
    requires m.fbZ >= 0 || NothingInFb(m, p)
    ensures Below(m, n, 0, p) == []
  {
    if n > 0 {
      BelowZero(m, n - 1, p);
    }
  }

  lemma {:induction false} BelowAll(m: Setup, n: nat, s: int, p: Point)
    requires m.Valid() && n <= |m.fb|
    requires forall i :: 0 <= i < n && Visible(m, i, p) ==> Key(m, i, p) < s
    ensures Below(m, n, s, p) == Listed(m, n, p)
  {
    if n > 0 {
      BelowAll(m, n - 1, s, p);
    }
  }

  /** The stage count that always suffices: two per layer and one for the FB. */
  function Stages(m: Setup): nat
    requires m.Valid()
  {
    2 * |m.fb| + (if m.fbZ >= 0 then m.fbZ else 0) + 2
  }

  lemma {:induction false} NextZBound(fb: seq<bool>, split: seq<bool>, fbZ: int, i: nat)
    requires i <= |fb| == |split|
    ensures NextZ(fb, split, fbZ, i) <= 2 * i + (if 0 <= fbZ < NextZ(fb, split, fbZ, i) then 1 else 0)
  {
    if i > 0 {
      NextZBound(fb, split, fbZ, i - 1);
    }
  }

  /** If the FB stage leaves exactly the MDP layers up to `cut` (two stages for each split
      one) below it, and no batched layer changes sides with a layer it intersects, then the
      mixer shows at every pixel the layers of the list in the order of the list. */
  lemma MixerShowsList(m: Setup, cut: nat, p: Point)
    requires m.Valid() && cut <= |m.fb|
    requires m.fbZ == MdpCount(m.fb, 0, cut) + SplitCount(m.fb, m.split, 0, cut)
    requires OrderKept(m.fb, m.drop, m.ls, 0, |m.fb|, cut)
    ensures Mixer(m, Stages(m), p) == Listed(m, |m.fb|, p)
  {
    var n := |m.fb|;
    forall i, j | 0 <= i < j < n && Visible(m, i, p) && Visible(m, j, p) ensures Key(m, i, p) <= Key(m, j, p) {
      assert GetIntersection(m.ls[i].frame, m.ls[j].frame).Has(p) && GetIntersection(m.ls[j].frame, m.ls[i].frame).Has(p);
      if !m.fb[i] && !m.fb[j] {
        SlotsIncrease(m.fb, m.split, m.fbZ, i, j);
      } else if !m.fb[i] {
        assert Batched(m.fb, m.drop, j) && AreLayersIntersecting(m.ls[i], m.ls[j]);
        SlotsAroundFb(m.fb, m.split, cut, i);
      } else if !m.fb[j] {
        assert Batched(m.fb, m.drop, i) && AreLayersIntersecting(m.ls[j], m.ls[i]);
        SlotsAroundFb(m.fb, m.split, cut, j);
      }
    }
    forall i | 0 <= i < n && Visible(m, i, p) ensures Key(m, i, p) < Stages(m) {
      NextZBound(m.fb, m.split, m.fbZ, i);
    }
    MixerIsBelow(m, Stages(m), p);
    BelowAll(m, n, Stages(m), p);
  }

  /** Without any layer in the FB the MDP layers alone are in order. */
  lemma MixerWithoutFb(m: Setup, p: Point)
    requires m.Valid() && m.fbZ < 0 && NothingInFb(m, p)
    ensures Mixer(m, Stages(m), p) == Listed(m, |m.fb|, p)
  {
    var n := |m.fb|;
    forall i, j | 0 <= i < j < n && Visible(m, i, p) && Visible(m, j, p) ensures Key(m, i, p) <= Key(m, j, p) {
      SlotsIncrease(m.fb, m.split, m.fbZ, i, j);
    }
    forall i | 0 <= i < n && Visible(m, i, p) ensures Key(m, i, p) < Stages(m) {
      NextZBound(m.fb, m.split, m.fbZ, i);
    }
    MixerIsBelow(m, Stages(m), p);
    BelowAll(m, n, Stages(m), p);
  }

  // ------------------------------------------------------------------ when the picture is kept

  lemma {:induction false} StageHolds(m: Setup, n: nat, s: int, p: Point, x: nat)
    requires m.Valid() && n <= |m.fb|
    ensures x in Stage(m, n, s, p) <==> x < n && Visible(m, x, p) && s == Key(m, x, p)
  {
    if n > 0 {
      StageHolds(m, n - 1, s, p, x);
      ShowsAtKey(m, n - 1, s, p);
    }
  }

  lemma {:induction false} MixerHolds(m: Setup, s: nat, p: Point, x: nat)
    requires m.Valid()
    ensures x in Mixer(m, s, p) <==> x < |m.fb| && Visible(m, x, p) && 0 <= Key(m, x, p) < s
  {
    if s > 0 {
      MixerHolds(m, s - 1, p, x);
      StageHolds(m, |m.fb|, s - 1, p, x);
    }
  }

  lemma {:induction false} MixerGrows(m: Setup, s: nat, s': nat, p: Point)
    requires m.Valid() && s <= s'
    ensures Mixer(m, s, p) <= Mixer(m, s', p)
  {
    if s < s' {
      MixerGrows(m, s, s' - 1, p);
    }
  }

  lemma {:induction false} ListedHolds(m: Setup, n: nat, p: Point, x: nat)
    requires m.Valid() && n <= |m.fb|
    ensures x in Listed(m, n, p) <==> x < n && Visible(m, x, p)
  {
    if n > 0 {
      ListedHolds(m, n - 1, p, x);
    }
  }

  lemma {:induction false} ListedInOrder(m: Setup, n: nat, p: Point, a: nat, b: nat)
    requires m.Valid() && n <= |m.fb| && a < b < |Listed(m, n, p)|
    ensures Listed(m, n, p)[a] < Listed(m, n, p)[b]
  {
    var rest := Listed(m, n - 1, p);
    if b < |rest| {
      ListedInOrder(m, n - 1, p, a, b);
    } else {
      ListedHolds(m, n - 1, p, rest[a]);
    }
  }

  /** Where the mixer shows the list, it is set up in order, and everything visible is in it. */
  lemma KeptInOrder(m: Setup, p: Point, i: nat, j: nat)
    requires m.Valid() && Mixer(m, Stages(m), p) == Listed(m, |m.fb|, p)
    requires i <= j < |m.fb| && Visible(m, i, p) && Visible(m, j, p)
    ensures 0 <= Key(m, i, p) <= Key(m, j, p)
  {
    var listed := Listed(m, |m.fb|, p);
    ListedHolds(m, |m.fb|, p, i);
    ListedHolds(m, |m.fb|, p, j);
    MixerHolds(m, Stages(m), p, i);
    MixerHolds(m, Stages(m), p, j);
    var below := Mixer(m, Key(m, j, p) + 1, p);
    MixerHolds(m, Key(m, j, p) + 1, p, j);
    MixerHolds(m, Key(m, j, p) + 1, p, i);
    MixerGrows(m, Key(m, j, p) + 1, Stages(m), p);
    var a: nat :| a < |below| && below[a] == j;
    var b: nat :| b < |listed| && listed[b] == i;
    assert listed[a] == j;
    if a < b {
      ListedInOrder(m, |m.fb|, p, a, b);
    }
    assert below[b] == i;
  }

  /** At every pixel the mixer shows the layers of the list, dropped ones apart, in order. */
  ghost predicate PictureKept(m: Setup)
    requires m.Valid()
  {
    forall p: Point :: Mixer(m, Stages(m), p) == Listed(m, |m.fb|, p)
  }

  /** There is a place for the FB that keeps the order, and fbZ points at it. */
  ghost predicate FbWellPlaced(m: Setup, cut: nat)
    requires m.Valid()
  {
    && cut <= |m.fb|
    && OrderKept(m.fb, m.drop, m.ls, 0, |m.fb|, cut)
    && m.fbZ == MdpCount(m.fb, 0, cut) + SplitCount(m.fb, m.split, 0, cut)
  }

  lemma WellPlacedKeepsPicture(m: Setup, cut: nat)
    requires m.Valid() && FbWellPlaced(m, cut)
    ensures PictureKept(m)
  {
    forall p: Point ensures Mixer(m, Stages(m), p) == Listed(m, |m.fb|, p) {
      MixerShowsList(m, cut, p);
    }
  }

  /** fbZ, as batching leaves it, is right for a list: wherever an FB layer and an MDP layer share a
      pixel, the MDP layer has a rank below fbZ when it lies under the FB layer, and no lower one
      when it lies over it.  A negative fbZ, with which the FB is not shown, is right when the FB
      layers have no pixels. */
  ghost predicate FbInPlace(fb: seq<bool>, drop: seq<bool>, ls: seq<Layer>, fbZ: int)
    requires |fb| == |drop| == |ls|
  {
    && (fbZ < 0 ==> forall k :: 0 <= k < |fb| && Batched(fb, drop, k) ==> !ls[k].frame.Valid())
    && (forall k, i :: 0 <= k < |fb| && 0 <= i < |fb| && Batched(fb, drop, k) && !fb[i] && AreLayersIntersecting(ls[i], ls[k]) ==>
          if i < k then MdpCount(fb, 0, i) < fbZ else fbZ <= MdpCount(fb, 0, i))
  }

  /** The place that fbZ stands for. */
  lemma {:induction false} CutAt(fb: seq<bool>, n: nat, z: nat) returns (cut: nat)
    requires n <= |fb| && z <= MdpCount(fb, 0, n)
    ensures cut <= n && MdpCount(fb, 0, cut) == z
  {
    cut := n;
    if MdpCount(fb, 0, n) != z {
      cut := CutAt(fb, n - 1, z);
    }
  }

  lemma InPlaceIsOrder(fb: seq<bool>, drop: seq<bool>, ls: seq<Layer>, cut: nat)
    requires |fb| == |drop| == |ls| && cut <= |fb|
    ensures FbInPlace(fb, drop, ls, MdpCount(fb, 0, cut)) <==> OrderKept(fb, drop, ls, 0, |fb|, cut)
  {
    forall i | 0 <= i < |fb| && !fb[i] ensures i < cut <==> MdpCount(fb, 0, i) < MdpCount(fb, 0, cut) {
      RankOrder(fb, fb, i, cut);
    }
  }

  /** Two frames that intersect share a pixel. */
  lemma SharedPixel(l1: Layer, l2: Layer) returns (p: Point)
    requires AreLayersIntersecting(l1, l2)
    ensures l1.frame.Has(p) && l2.frame.Has(p)
  {
    var r := GetIntersection(l1.frame, l2.frame);
    p := Point(r.left, r.top);
    assert r.Has(p);
  }

  /** A picture that is kept has the FB between the layers that its own layers share pixels with. */
  lemma KeptHasOrder(m: Setup, cut: nat)
    requires m.Valid() && cut <= |m.fb| && PictureKept(m)
    requires m.fbZ == MdpCount(m.fb, 0, cut) + SplitCount(m.fb, m.split, 0, cut)
    ensures OrderKept(m.fb, m.drop, m.ls, 0, |m.fb|, cut)
  {
    forall k, i | 0 <= k < |m.fb| && 0 <= i < |m.fb| && Batched(m.fb, m.drop, k) && !m.fb[i] && AreLayersIntersecting(m.ls[i], m.ls[k])
      ensures (i < k ==> i < cut) && (k < i ==> cut <= i)
    {
      var p := SharedPixel(m.ls[i], m.ls[k]);
      assert Mixer(m, Stages(m), p) == Listed(m, |m.fb|, p);
      SlotsAroundFb(m.fb, m.split, cut, i);
      if i < k {
        KeptInOrder(m, p, i, k);
      } else {
        KeptInOrder(m, p, k, i);
      }
    }
  }

  lemma NoPixelsInFb(m: Setup, p: Point)
    requires m.Valid() && forall k :: 0 <= k < |m.fb| && Batched(m.fb, m.drop, k) ==> !m.ls[k].frame.Valid()
    ensures NothingInFb(m, p)
  {
  }

  /** A picture without the FB is kept exactly when the FB layers have no pixels. */
  lemma KeptWithoutFb(m: Setup)
    requires m.Valid() && m.fbZ < 0
    ensures PictureKept(m) <==> forall k :: 0 <= k < |m.fb| && Batched(m.fb, m.drop, k) ==> !m.ls[k].frame.Valid()
  {
    if forall k :: 0 <= k < |m.fb| && Batched(m.fb, m.drop, k) ==> !m.ls[k].frame.Valid() {
      forall p: Point ensures Mixer(m, Stages(m), p) == Listed(m, |m.fb|, p) {
        NoPixelsInFb(m, p);
        MixerWithoutFb(m, p);
      }
    } else {
      var k :| 0 <= k < |m.fb| && Batched(m.fb, m.drop, k) && m.ls[k].frame.Valid();
      var p := Point(m.ls[k].frame.left, m.ls[k].frame.top);
      if PictureKept(m) {
        assert Mixer(m, Stages(m), p) == Listed(m, |m.fb|, p);
        KeptInOrder(m, p, k, k);
      }
    }
  }

  /** fbZ once split layers are adjusted for. */
  function AdjustedFbZ(fb: seq<bool>, split: seq<bool>, fbZ: int, mdpCount: int): int
    requires |fb| == |split|
  {
    if fbZ >= 0 then Adjust(fb, split, |fb|, fbZ, mdpCount).fbZ else fbZ
  }

  /** Marks, adjustment for split layers and z-order loop together keep the picture, at every pixel,
      if and only if fbZ is right for the list. */
  lemma KeptIffInPlace(fb: seq<bool>, drop: seq<bool>, ls: seq<Layer>, split: seq<bool>, fbZ: int, mdpCount: int)
    requires |fb| == |drop| == |ls| == |split| && fbZ <= MdpCount(fb, 0, |fb|)
    ensures PictureKept(Setup(fb, drop, ls, split, AdjustedFbZ(fb, split, fbZ, mdpCount))) <==> FbInPlace(fb, drop, ls, fbZ)
  {
    var m := Setup(fb, drop, ls, split, AdjustedFbZ(fb, split, fbZ, mdpCount));
    if fbZ < 0 {
      KeptWithoutFb(m);
      NoPixelsNoOverlap(fb, drop, ls);
    } else {
      var cut := CutAt(fb, |fb|, fbZ);
      AdjustCounts(fb, split, |fb|, cut, mdpCount);
      InPlaceIsOrder(fb, drop, ls, cut);
      if PictureKept(m) {
        KeptHasOrder(m, cut);
      }
      if OrderKept(fb, drop, ls, 0, |fb|, cut) {
        WellPlacedKeepsPicture(m, cut);
      }
    }
  }

  lemma NoPixelsNoOverlap(fb: seq<bool>, drop: seq<bool>, ls: seq<Layer>)
    requires |fb| == |drop| == |ls|
    ensures forall k, i :: 0 <= k < |fb| && 0 <= i < |fb| && Batched(fb, drop, k) && AreLayersIntersecting(ls[i], ls[k]) ==>
      ls[k].frame.Valid()
  {
  }

  /** What getBatch makes of the frame: the picture is kept if and only if the fbZ that it finds is in
      its place, and that is so whenever no dropped layer is counted twice. */
  lemma CachingShowsList(fb: seq<bool>, drop: seq<bool>, ls: seq<Layer>, split: seq<bool>, mdpCount: int)
    requires |fb| == |drop| == |ls| == |split| && FbCount(fb, drop, 0, |fb|) > 0
    ensures
      var b := Search(fb, drop, ls, 0, 0, NO_BATCH);
      var fb' := Marked(fb, drop, b);
      && (PictureKept(Setup(fb', drop, ls, split, AdjustedFbZ(fb', split, b.fbZ, mdpCount))) <==> FbInPlace(fb', drop, ls, b.fbZ))
      && (Rewound(fb, drop, ls) == 0 ==> FbInPlace(fb', drop, ls, b.fbZ))
  {
    var b := Search(fb, drop, ls, 0, 0, NO_BATCH);
    var fb' := Marked(fb, drop, b);
    var cut := MarkedPlacement(fb, drop, ls);
    CountsGrow(fb', split, cut, |fb|);
    KeptIffInPlace(fb', drop, ls, split, b.fbZ, mdpCount);
    InPlaceIsOrder(fb', drop, ls, cut);
  }

  /** In the terms of the list: only MDP layers under an FB layer matter, and only those that the
      recount moves over the FB. */
  lemma InPlaceByRecount(fb: seq<bool>, drop: seq<bool>, ls: seq<Layer>)
    requires |fb| == |drop| == |ls| && FbCount(fb, drop, 0, |fb|) > 0
    ensures
      var b := Search(fb, drop, ls, 0, 0, NO_BATCH);
      var fb' := Marked(fb, drop, b);
      b.fbZ >= 0 ==>
        (FbInPlace(fb', drop, ls, b.fbZ) <==>
           forall k, i :: 0 <= i < k < |fb| && Batched(fb', drop, k) && !fb'[i] && AreLayersIntersecting(ls[i], ls[k]) ==>
             !(b.fbZ <= MdpCount(fb', 0, i) < b.fbZ + Rewound(fb, drop, ls)))
  {
    var b := Search(fb, drop, ls, 0, 0, NO_BATCH);
    var fb' := Marked(fb, drop, b);
    var cut := MarkedPlacement(fb, drop, ls);
    InPlaceIsOrder(fb', drop, ls, cut);
  }

  // ------------------------------------------------------------------ flattening

  /** Layers blended bottom to top; `over(top, below)`. */
  function Blend<C>(over: (C, C) -> C, clear: C, look: nat -> C, s: seq<nat>): C {
    if s == [] then clear else over(look(s[|s| - 1]), Blend(over, clear, look, s[..|s| - 1]))
  }

  /** The mixer blends whole stages; the FB stage arrives as one flattened image. */
  function MixerColor<C>(m: Setup, s: nat, p: Point, over: (C, C) -> C, clear: C, look: nat -> C): C
    requires m.Valid()
  {
    if s == 0 then
      clear
    else
      over(Blend(over, clear, look, Stage(m, |m.fb|, s - 1, p)), MixerColor(m, s - 1, p, over, clear, look))
  }

  /** One instance each of the laws of an associative blend, so that they are used where named. */
  predicate Associates<C(==)>(over: (C, C) -> C, a: C, b: C, c: C) {
    over(a, over(b, c)) == over(over(a, b), c)
  }

  predicate Neutral<C(==)>(over: (C, C) -> C, clear: C, a: C) {
    over(a, clear) == a && over(clear, a) == a
  }

  ghost predicate Associative<C(!new)>(over: (C, C) -> C, clear: C) {
    (forall a, b, c :: Associates(over, a, b, c)) && (forall a :: Neutral(over, clear, a))
  }

  lemma {:induction false} BlendConcat<C(!new)>(over: (C, C) -> C, clear: C, look: nat -> C, s: seq<nat>, t: seq<nat>)
    requires Associative(over, clear)
    ensures Blend(over, clear, look, s + t) == over(Blend(over, clear, look, t), Blend(over, clear, look, s))
  {
    if t == [] {
      assert s + t == s;
      assert Neutral(over, clear, Blend(over, clear, look, s));
    } else {
      var n := |t| - 1;
      assert (s + t)[..|s + t| - 1] == s + t[..n];
      BlendConcat(over, clear, look, s, t[..n]);
      assert Associates(over, look(t[n]), Blend(over, clear, look, t[..n]), Blend(over, clear, look, s));
    }
  }

  lemma {:induction false} MixerColorIsBlend<C(!new)>(m: Setup, s: nat, p: Point, over: (C, C) -> C, clear: C, look: nat -> C)
    requires m.Valid() && Associative(over, clear)
    ensures MixerColor(m, s, p, over, clear, look) == Blend(over, clear, look, Mixer(m, s, p))
  {
    if s > 0 {
      MixerColorIsBlend(m, s - 1, p, over, clear, look);
      BlendConcat(over, clear, look, Mixer(m, s - 1, p), Stage(m, |m.fb|, s - 1, p));
    }
  }

  /** For every associative blend, caching layers in the FB changes no pixel's colour. */
  lemma CachingKeepsColor<C(!new)>(fb: seq<bool>, drop: seq<bool>, ls: seq<Layer>, split: seq<bool>, mdpCount: int, p: Point,
                                   over: (C, C) -> C, clear: C, look: nat -> C)
    requires |fb| == |drop| == |ls| == |split| && FbCount(fb, drop, 0, |fb|) > 0
    requires
      var b := Search(fb, drop, ls, 0, 0, NO_BATCH);
      FbInPlace(Marked(fb, drop, b), drop, ls, b.fbZ)
    requires Associative(over, clear)
    ensures
      var b := Search(fb, drop, ls, 0, 0, NO_BATCH);
      var fb' := Marked(fb, drop, b);
      var m := Setup(fb', drop, ls, split, AdjustedFbZ(fb', split, b.fbZ, mdpCount));
      MixerColor(m, Stages(m), p, over, clear, look) == Blend(over, clear, look, Listed(m, |fb|, p))
  {
    CachingShowsList(fb, drop, ls, split, mdpCount);
    var b := Search(fb, drop, ls, 0, 0, NO_BATCH);
    var fb' := Marked(fb, drop, b);
    var m := Setup(fb', drop, ls, split, AdjustedFbZ(fb', split, b.fbZ, mdpCount));
    assert Mixer(m, Stages(m), p) == Listed(m, |fb|, p);
    MixerColorIsBlend(m, Stages(m), p, over, clear, look);
  }
}

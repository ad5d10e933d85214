/** When the framebuffer of an earlier frame may be shown again: LayerCache, setRedraw and the
    control flow of MDPComp::prepare (hwc_mdpcomp.cpp). */
module Redraw {
  import opened Frames

  /** A layer as far as redrawing goes: what it shows, and whether it reports damage. */
  datatype Item = Item(content: int, updating: bool)

  /** One frame.  `marks` is what the composition strategies settle on, if any does. */
  datatype Display = Display(
    items: seq<Item>, geometryChanged: bool, skipPresent: bool, secondaryConnected: bool, primary: bool,
    frameDoable: bool, marks: Marks)

  datatype Marks = NoStrategy | Marks(fb: seq<bool>, drop: seq<bool>)

  ghost predicate WellFormed(d: Display) {
    d.marks.Marks? ==> |d.marks.fb| == |d.marks.drop| == |d.items|
  }

  /** The contents that the framebuffer has to hold, bottom to top. */
  function Flattened(items: seq<Item>, fb: seq<bool>, drop: seq<bool>): seq<int>
    requires |items| == |fb| == |drop|
  {
    if items == [] then
      []
    else
      var n := |items| - 1;
      Flattened(items[..n], fb[..n], drop[..n]) + (if fb[n] && !drop[n] then [items[n].content] else [])
  }

  function Whole(items: seq<Item>): seq<int> {
    Flattened(items, AllTrue(|items|), AllFalse(|items|))
  }

  lemma {:induction false} FlattenedSame(a: seq<Item>, b: seq<Item>, fb: seq<bool>, drop: seq<bool>)
    requires |a| == |b| == |fb| == |drop|
    requires forall i :: 0 <= i < |a| && fb[i] ==> a[i].content == b[i].content
    ensures Flattened(a, fb, drop) == Flattened(b, fb, drop)
  {
    if a != [] {
      var n := |a| - 1;
      FlattenedSame(a[..n], b[..n], fb[..n], drop[..n]);
    }
  }

  /** MDPComp::LayerCache. */
  class LayerCache {
    var layerCount: nat
    const isFBComposed: array<bool>
    const drop: array<bool>

    ghost predicate Valid()
      reads this
    {
      isFBComposed.Length == drop.Length == MAX_NUM_APP_LAYERS && layerCount <= MAX_NUM_APP_LAYERS && isFBComposed != drop
    }

    ghost function Fb(): seq<bool>
      requires Valid()
      reads this, isFBComposed
    {
      isFBComposed[..layerCount]
    }

    ghost function Drops(): seq<bool>
      requires Valid()
      reads this, drop
    {
      drop[..layerCount]
    }

    constructor ()
      ensures Valid() && layerCount == 0 && fresh(isFBComposed) && fresh(drop)
    {
      isFBComposed := new bool[MAX_NUM_APP_LAYERS](_ => true);
      drop := new bool[MAX_NUM_APP_LAYERS](_ => false);
      layerCount := 0;
    }

    method Reset()
      requires Valid()
      modifies this, isFBComposed, drop
      ensures Valid() && layerCount == 0
    {
      forall i | 0 <= i < isFBComposed.Length { isFBComposed[i] := true; }
      forall i | 0 <= i < drop.Length { drop[i] := false; }
      layerCount := 0;
    }

    method UpdateCounts(f: FrameInfo)
      requires Valid() && f.Valid() && {isFBComposed, drop} !! {f.isFBComposed, f.drop}
      modifies this, isFBComposed, drop
      ensures Valid() && layerCount == f.layerCount && Fb() == f.Fb() && Drops() == f.Drops()
    {
      layerCount := f.layerCount;
      forall i | 0 <= i < isFBComposed.Length { isFBComposed[i] := f.isFBComposed[i]; }
      forall i | 0 <= i < drop.Length { drop[i] := f.drop[i]; }
    }

    /** The same layers go to the framebuffer as in the frame before, and none of them updates. */
    method IsSameFrame(f: FrameInfo, items: seq<Item>) returns (same: bool)
      requires Valid() && f.Valid() && |items| == f.layerCount
      ensures same <==>
        && layerCount == f.layerCount && Fb() == f.Fb() && Drops() == f.Drops()
        && forall i :: 0 <= i < |items| && f.Fb()[i] ==> !items[i].updating
    {
      if layerCount != f.layerCount {
        return false;
      }
      for i := 0 to f.layerCount
        invariant forall k :: 0 <= k < i ==> isFBComposed[k] == f.isFBComposed[k] && drop[k] == f.drop[k]
        invariant forall k :: 0 <= k < i && f.isFBComposed[k] ==> !items[k].updating
      {
        if f.isFBComposed[i] != isFBComposed[i] || f.drop[i] != drop[i] {
          assert f.Fb()[i] != Fb()[i] || f.Drops()[i] != Drops()[i];
          return false;
        }
        if f.isFBComposed[i] && items[i].updating {
          assert f.Fb()[i];
          return false;
        }
      }
      return true;
    }

    /** Nothing at all has changed since the frame before. */
    method IsSameList(d: Display) returns (same: bool)
      requires Valid()
      ensures same <==> layerCount == |d.items| && !d.geometryChanged && !d.skipPresent &&
                        forall i :: 0 <= i < |d.items| ==> !d.items[i].updating
    {
      if layerCount != |d.items| || d.geometryChanged || d.skipPresent {
        return false;
      }
      for i := 0 to layerCount
        invariant forall k :: 0 <= k < i ==> !d.items[k].updating
      {
        if d.items[i].updating {
          return false;
        }
      }
      return true;
    }
  }

  /** What SurfaceFlinger guarantees about consecutive frames: unless the geometry changes, the
      list keeps its layers, and a layer that does not update shows what it showed. */
  ghost predicate Continues(was: seq<Item>, d: Display) {
    !d.geometryChanged && |was| == |d.items| ==>
      forall i :: 0 <= i < |was| && !d.items[i].updating ==> was[i].content == d.items[i].content
  }

  /** Consecutive frames, the first of them after the list `was`. */
  ghost predicate IsDisplayRun(was: seq<Item>, ds: seq<Display>) {
    && (forall i :: 0 <= i < |ds| ==> WellFormed(ds[i]))
    && (ds != [] ==> Continues(was, ds[0]))
    && (forall i :: 0 < i < |ds| ==> Continues(ds[i - 1].items, ds[i]))
  }

  /** What became of a frame: whether the framebuffer was drawn for it, whether MDP composes it,
      and what the framebuffer holds. */
  datatype DisplayLog = DisplayLog(redrawn: bool, mdp: bool, framebuffer: seq<int>)

  ghost predicate RightlyShown(d: Display, o: DisplayLog) {
    && (o.mdp ==>
          && d.marks.Marks? && |d.marks.fb| == |d.marks.drop| == |d.items|
          && Shows(o.framebuffer, Flattened(d.items, d.marks.fb, d.marks.drop)))
    && (!o.mdp ==> Shows(o.framebuffer, Whole(d.items)))
  }

  /** MDP composes the frame and the framebuffer is drawn exactly when they should. */
  ghost predicate Decided(c: Carried, d: Display, o: DisplayLog) {
    WellFormed(d) && o.mdp == ByMdp(c, d) && o.redrawn == Redraws(c, d)
  }

  // ------------------------------------------------------------------ what is decided

  /** What prepare carries over to the next frame: whether MDP composed the last one, and the cached
      marks. */
  datatype Carried = Carried(modeOn: bool, count: nat, fb: seq<bool>, drop: seq<bool>)

  predicate Composable(d: Display) {
    1 <= |d.items| <= MAX_NUM_APP_LAYERS
  }

  predicate Still(d: Display) {
    !d.geometryChanged && !d.skipPresent && forall i :: 0 <= i < |d.items| ==> !d.items[i].updating
  }

  /** The GPU has composed this very list already. */
  predicate Unchanged(c: Carried, d: Display) {
    d.primary && !d.secondaryConnected && !c.modeOn && c.count == |d.items| && Still(d)
  }

  /** MDP composes the frame. */
  predicate ByMdp(c: Carried, d: Display) {
    Composable(d) && !Unchanged(c, d) && d.frameDoable && d.marks.Marks?
  }

  /** The framebuffer is drawn for the frame. */
  predicate Redraws(c: Carried, d: Display)
    requires d.marks.Marks? ==> |d.marks.fb| == |d.marks.drop| == |d.items|
  {
    if ByMdp(c, d) then
      || d.geometryChanged || d.skipPresent || c.count != |d.items| || c.fb != d.marks.fb || c.drop != d.marks.drop
      || exists i :: 0 <= i < |d.items| && d.marks.fb[i] && d.items[i].updating
    else
      !Composable(d) || !Unchanged(c, d)
  }

  function CarriedOn(c: Carried, d: Display): Carried {
    if !Composable(d) then Carried(false, 0, [], [])
    else if ByMdp(c, d) then Carried(true, |d.items|, d.marks.fb, d.marks.drop)
    else Carried(false, |d.items|, AllTrue(|d.items|), AllFalse(|d.items|))
  }

  function CarriedTo(c: Carried, ds: seq<Display>, t: nat): Carried
    requires t <= |ds|
  {
    if t == 0 then c else CarriedOn(CarriedTo(c, ds, t - 1), ds[t - 1])
  }

  /** A frame that stands still is drawn at most once, when MDP composes it or nothing else needs the
      display. */
  lemma StillFrameIsKept(c: Carried, d: Display)
    requires WellFormed(d) && Composable(d) && Still(d)
    requires (d.frameDoable && d.marks.Marks?) || (d.primary && !d.secondaryConnected)
    ensures !Redraws(CarriedOn(c, d), d)
  {
    assert !ByMdp(c, d) ==> CarriedOn(c, d) == Carried(false, |d.items|, AllTrue(|d.items|), AllFalse(|d.items|));
  }

  /** And a frame whose contents in the framebuffer change is always drawn. */
  lemma ChangedFrameIsDrawn(c: Carried, d: Display, i: nat)
    requires WellFormed(d) && Composable(d) && i < |d.items| && d.items[i].updating
    requires ByMdp(c, d) ==> d.marks.fb[i]
    ensures Redraws(c, d)
  {
  }

  class MdpComp {
    const current: FrameInfo
    const cached: LayerCache
    var modeOn: bool
    var prevModeOn: bool
    /** The contents the framebuffer was last drawn with. */
    ghost var framebuffer: seq<int>
    /** The list of the frame before. */
    ghost var previous: seq<Item>

    ghost predicate Separate()
      reads this
    {
      && {cached.isFBComposed, cached.drop} !! {current.isFBComposed, current.drop}
    }

    /** The cache describes the previous frame, and the framebuffer holds what that frame
        had in it; a frame composed without MDP had everything in it. */
    ghost predicate Valid()
      reads this, current, cached, current.isFBComposed, current.drop, cached.isFBComposed, cached.drop
    {
      Separate() && current.Valid() && cached.Valid() && Remembers(previous, modeOn)
    }

    constructor ()
      ensures Valid() && fresh(current) && fresh(cached) && previous == []
      ensures fresh(current.isFBComposed) && fresh(current.drop) && fresh(current.layerToMDP)
      ensures fresh(current.listIndex) && fresh(current.zOrder) && fresh(cached.isFBComposed) && fresh(cached.drop)
    {
      current := new FrameInfo();
      cached := new LayerCache();
      modeOn, prevModeOn := false, false;
      framebuffer, previous := [], [];
    }

    /** The marks that the strategies settled on. */
    method CopyMarks(fb: seq<bool>, drop: seq<bool>)
      requires current.Valid() && |fb| == |drop| == current.layerCount
      modifies current.isFBComposed, current.drop
      ensures current.Valid() && current.Fb() == fb && current.Drops() == drop
    {
      forall i | 0 <= i < |fb| { current.isFBComposed[i] := fb[i]; }
      forall i | 0 <= i < |drop| { current.drop[i] := drop[i]; }
    }

    method SetRedraw(d: Display)
      requires Separate() && current.Valid() && cached.Valid() && |d.items| == current.layerCount
      modifies current`needsRedraw
      ensures current.needsRedraw <==>
        || d.geometryChanged || d.skipPresent
        || cached.layerCount != current.layerCount || cached.Fb() != current.Fb() || cached.Drops() != current.Drops()
        || exists i :: 0 <= i < |d.items| && current.Fb()[i] && d.items[i].updating
    {
      var same := cached.IsSameFrame(current, d.items);
      current.needsRedraw := !same || d.geometryChanged || d.skipPresent;
    }

    /** The GPU composes `contents` into the framebuffer; an empty list is not drawn. */
    ghost method Draw(contents: seq<int>)
      modifies this`framebuffer
      ensures framebuffer == if contents == [] then old(framebuffer) else contents
    {
      if contents != [] {
        framebuffer := contents;
      }
    }

    /** No layers, or too many to record: nothing is cached for the next draw cycle.  (The list
        does not get into the frame record here.) */
    method Discard(d: Display)
      requires Separate() && current.Valid() && cached.Valid() && !modeOn
      modifies this`framebuffer, current, cached, current.isFBComposed, current.drop, current.layerToMDP,
               current.listIndex, current.zOrder, cached.isFBComposed, cached.drop
      ensures Separate() && current.Valid() && cached.Valid() && cached.layerCount == 0
      ensures current.needsRedraw && Shows(framebuffer, Whole(d.items))
    {
      current.Reset(0);
      current.ClearDrops();
      cached.Reset();
      Draw(Whole(d.items));
    }

    /** Everything goes to the framebuffer, and it is drawn anew unless `keep`. */
    method ComposeOnGpu(d: Display, keep: bool)
      requires Separate() && current.Valid() && cached.Valid()
      requires |d.items| == current.layerCount && current.needsRedraw
      requires current.Fb() == AllTrue(|d.items|) && current.Drops() == AllFalse(|d.items|)
      requires keep ==> Shows(framebuffer, Whole(d.items))
      modifies this`framebuffer, current`needsRedraw, cached, cached.isFBComposed, cached.drop
      ensures current.Valid() && cached.Valid() && cached.layerCount == |d.items|
      ensures cached.Fb() == current.Fb() == AllTrue(|d.items|)
      ensures cached.Drops() == current.Drops() == AllFalse(|d.items|)
      ensures Shows(framebuffer, Whole(d.items))
      ensures current.needsRedraw == !keep && (keep ==> framebuffer == old(framebuffer))
    {
      if keep {
        current.needsRedraw := false;
      } else {
        Draw(Whole(d.items));
      }
      cached.UpdateCounts(current);
    }

    /** A strategy has settled on `fb` and `drop`. */
    method ComposeWithMdp(d: Display, fb: seq<bool>, drop: seq<bool>, ghost before: seq<Item>)
      requires Separate() && current.Valid() && cached.Valid()
      requires |d.items| == |fb| == |drop| == current.layerCount > 0 && Continues(before, d)
      requires cached.layerCount > 0 ==>
        cached.layerCount == |before| && Shows(framebuffer, Flattened(before, cached.Fb(), cached.Drops()))
      modifies this`framebuffer, current`needsRedraw, current.isFBComposed, current.drop, cached, cached.isFBComposed, cached.drop
      ensures current.Valid() && cached.Valid() && cached.layerCount == |d.items|
      ensures cached.Fb() == current.Fb() == fb && cached.Drops() == current.Drops() == drop
      ensures Shows(framebuffer, Flattened(d.items, fb, drop))
      ensures !current.needsRedraw ==> framebuffer == old(framebuffer)
      ensures current.needsRedraw <==>
        || d.geometryChanged || d.skipPresent
        || old(cached.layerCount) != |d.items| || old(cached.Fb()) != fb || old(cached.Drops()) != drop
        || exists i :: 0 <= i < |d.items| && fb[i] && d.items[i].updating
    {
      CopyMarks(fb, drop);
      SetRedraw(d);
      if current.needsRedraw {
        Draw(Flattened(d.items, fb, drop));
      } else {
        FlattenedSame(before, d.items, fb, drop);
      }
      cached.UpdateCounts(current);
    }

    /** The cache and the framebuffer belong to the frame `before`. */
    ghost predicate Remembers(before: seq<Item>, hadMode: bool)
      requires cached.Valid()
      reads this, cached, cached.isFBComposed, cached.drop
    {
      cached.layerCount > 0 ==>
        && cached.layerCount == |before|
        && Shows(framebuffer, Flattened(before, cached.Fb(), cached.Drops()))
        && (!hadMode ==> cached.Fb() == AllTrue(|before|) && cached.Drops() == AllFalse(|before|))
    }

    ghost function CarriedNow(): Carried
      requires cached.Valid()
      reads this, cached, cached.isFBComposed, cached.drop
    {
      CarriedWith(modeOn)
    }

    ghost function CarriedWith(mode: bool): Carried
      requires cached.Valid()
      reads this, cached, cached.isFBComposed, cached.drop
    {
      Carried(mode, cached.layerCount, cached.Fb(), cached.Drops())
    }

    /** A fresh record, with everything in the framebuffer. */
    method BeginFrame(n: nat)
      requires Separate() && current.Valid() && n <= MAX_NUM_APP_LAYERS
      modifies current, current.isFBComposed, current.drop, current.layerToMDP, current.listIndex, current.zOrder
      ensures current.Valid() && current.layerCount == n && current.needsRedraw
      ensures current.Fb() == AllTrue(n) && current.Drops() == AllFalse(n)
    {
      current.Reset(n);
      current.ClearDrops();
    }

    /** Where the frame is composed. */
    method ComposeFrame(d: Display, ghost before: seq<Item>)
      requires Separate() && current.Valid() && cached.Valid() && !modeOn && Remembers(before, prevModeOn)
      requires WellFormed(d) && Continues(before, d) && |d.items| == current.layerCount > 0 && current.needsRedraw
      requires current.Fb() == AllTrue(|d.items|) && current.Drops() == AllFalse(|d.items|)
      modifies this`framebuffer, this`modeOn, current`needsRedraw, current.isFBComposed, current.drop,
               cached, cached.isFBComposed, cached.drop
      ensures current.Valid() && cached.Valid() && cached.layerCount == |d.items|
      ensures cached.Fb() == current.Fb() && cached.Drops() == current.Drops()
      ensures modeOn ==>
        && Shows(framebuffer, Flattened(d.items, current.Fb(), current.Drops()))
        && d.frameDoable && d.marks.Marks? && current.Fb() == d.marks.fb && current.Drops() == d.marks.drop
      ensures !modeOn ==>
        && Shows(framebuffer, Whole(d.items)) && current.Fb() == AllTrue(|d.items|) && current.Drops() == AllFalse(|d.items|)
      ensures !current.needsRedraw ==> framebuffer == old(framebuffer)
      ensures modeOn == ByMdp(old(CarriedWith(prevModeOn)), d) && current.needsRedraw == Redraws(old(CarriedWith(prevModeOn)), d)
      ensures CarriedNow() == CarriedOn(old(CarriedWith(prevModeOn)), d)
    {
      var n := |d.items|;
      var same := false;
      if d.primary && !d.secondaryConnected && !prevModeOn {
        same := cached.IsSameList(d);
      }
      if same {
        FlattenedSame(before, d.items, AllTrue(n), AllFalse(n));
        ComposeOnGpu(d, true);
      } else if d.frameDoable && d.marks.Marks? {
        modeOn := true;
        ComposeWithMdp(d, d.marks.fb, d.marks.drop, before);
      } else {
        ComposeOnGpu(d, false);
      }
    }

    /** prepare(), and the GPU pass that follows it for the layers left to it. */
    method Prepare(d: Display)
      requires Valid() && WellFormed(d) && Continues(previous, d)
      modifies this, current, cached, current.isFBComposed, current.drop, current.layerToMDP, current.listIndex, current.zOrder,
               cached.isFBComposed, cached.drop
      ensures Valid() && previous == d.items
      // the framebuffer is right, however the frame is composed
      ensures modeOn ==>
        current.layerCount == |d.items| && Shows(framebuffer, Flattened(d.items, current.Fb(), current.Drops()))
      ensures !modeOn ==> Shows(framebuffer, Whole(d.items))
      // and it is left alone whenever needsRedraw is false
      ensures !current.needsRedraw ==> framebuffer == old(framebuffer)
      // which of the three ways it goes, and when the framebuffer is drawn
      ensures modeOn == ByMdp(old(CarriedNow()), d) && current.needsRedraw == Redraws(old(CarriedNow()), d)
      ensures CarriedNow() == CarriedOn(old(CarriedNow()), d)
      ensures modeOn ==> current.Fb() == d.marks.fb && current.Drops() == d.marks.drop
    {
      ghost var c, before := CarriedNow(), previous;
      prevModeOn, modeOn := modeOn, false;
      previous := d.items;
      var n := |d.items|;
      if n == 0 || n > MAX_NUM_APP_LAYERS {
        Discard(d);
        return;
      }
      BeginFrame(n);
      assert CarriedWith(prevModeOn) == c;
      ComposeFrame(d, before);
    }

    method PrepareLogged(d: Display) returns (ghost entry: DisplayLog)
      requires Valid() && WellFormed(d) && Continues(previous, d)
      modifies this, current, cached, current.isFBComposed, current.drop, current.layerToMDP, current.listIndex, current.zOrder,
               cached.isFBComposed, cached.drop
      ensures Valid() && previous == d.items && RightlyShown(d, entry) && entry.framebuffer == framebuffer
      ensures !entry.redrawn ==> framebuffer == old(framebuffer)
      ensures entry.mdp == ByMdp(old(CarriedNow()), d) && entry.redrawn == Redraws(old(CarriedNow()), d)
      ensures CarriedNow() == CarriedOn(old(CarriedNow()), d)
    {
      Prepare(d);
      entry := DisplayLog(current.needsRedraw, modeOn, framebuffer);
    }

    /** A whole run of frames: each of them has in the framebuffer exactly what it needs there, is
        composed and drawn where and when it should be, and a frame that is not redrawn relies on
        what an earlier one left behind. */
    method PrepareRun(ds: seq<Display>) returns (ghost log: seq<DisplayLog>)
      requires Valid() && IsDisplayRun(previous, ds)
      modifies this, current, cached, current.isFBComposed, current.drop, current.layerToMDP, current.listIndex, current.zOrder,
               cached.isFBComposed, cached.drop
      ensures Valid() && |log| == |ds|
      ensures forall i :: 0 <= i < |ds| ==> Told(old(CarriedNow()), ds, log, i)
    {
      log := [];
      ghost var start := CarriedNow();
      for i := 0 to |ds|
        invariant Valid() && |log| == i && CarriedNow() == CarriedTo(start, ds, i)
        invariant i < |ds| ==> Continues(previous, ds[i])
        invariant i > 0 ==> log[i - 1].framebuffer == framebuffer
        invariant AllTold(start, ds, log)
      {
        ghost var entry := PrepareLogged(ds[i]);
        OneMoreTold(start, ds, log, entry);
        log := log + [entry];
      }
    }
  }

  /** Frame i of a run: shown rightly, decided rightly, and left alone when it is not redrawn. */
  ghost predicate Told(start: Carried, ds: seq<Display>, log: seq<DisplayLog>, i: nat)
    requires i < |log| <= |ds|
  {
    && RightlyShown(ds[i], log[i]) && Decided(CarriedTo(start, ds, i), ds[i], log[i])
    && (i > 0 && !log[i].redrawn ==> log[i].framebuffer == log[i - 1].framebuffer)
  }

  ghost predicate AllTold(start: Carried, ds: seq<Display>, log: seq<DisplayLog>)
    requires |log| <= |ds|
  {
    forall i :: 0 <= i < |log| ==> Told(start, ds, log, i)
  }

  lemma OneMoreTold(start: Carried, ds: seq<Display>, log: seq<DisplayLog>, entry: DisplayLog)
    requires |log| < |ds| && AllTold(start, ds, log)
    requires RightlyShown(ds[|log|], entry) && Decided(CarriedTo(start, ds, |log|), ds[|log|], entry)
    requires log != [] && !entry.redrawn ==> entry.framebuffer == log[|log| - 1].framebuffer
    ensures AllTold(start, ds, log + [entry])
  {
    forall i | 0 <= i < |log| ensures Told(start, ds, log + [entry], i) {
      assert Told(start, ds, log, i);
    }
  }

  /** The framebuffer holds what is needed; when nothing is needed it is not drawn at all. */
  ghost predicate Shows(framebuffer: seq<int>, needed: seq<int>) {
    needed != [] ==> framebuffer == needed
  }
}

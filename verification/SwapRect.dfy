/** Swap rectangles of the copybit composer (hwc_copybit.cpp): once the same change has been
    seen for as many frames as there are render buffers, only the changed part is redrawn. */
module SwapRect {
  import opened Rects
  import opened Layers
  import opened RoiGeneration

  const NUM_RENDER_BUFFERS := 3
  const INVALID_DIMENSION := -1

  /** One frame as SurfaceFlinger hands it over; tex is the buffer content at that time. */
  datatype Frame = Frame(layers: seq<Update>, tex: Sample -> int, geometryChanged: bool, screen: Rect)

  /** What CopyBit::LayerCache keeps of a layer. */
  datatype Entry = Entry(hnd: int, displayFrame: Rect)

  function Entries(f: Frame): (c: seq<Entry>)
    ensures |c| == |f.layers| && forall k :: 0 <= k < |c| ==> c[k] == Entry(f.layers[k].layer.handle, f.layers[k].layer.frame)
  {
    seq(|f.layers|, k requires 0 <= k < |f.layers| => Entry(f.layers[k].layer.handle, f.layers[k].layer.frame))
  }

  predicate IsLayerChanging(cache: seq<Entry>, f: Frame, k: nat)
    requires k < |cache| == |f.layers|
  {
    cache[k] != Entry(f.layers[k].layer.handle, f.layers[k].layer.frame)
  }

  // ------------------------------------------------------------------ the change of a frame

  /** Dirty and display rectangle of a change. */
  datatype Change = Change(dirty: Rect, display: Rect) {
    function Area(): Rect {
      if dirty.Valid() then dirty else display
    }
  }

  const NOTHING_CACHED := Change(ZERO_RECT, ZERO_RECT)
  const NO_LAYER_CHANGED := Change(Rect(INVALID_DIMENSION, INVALID_DIMENSION, INVALID_DIMENSION, INVALID_DIMENSION), ZERO_RECT)

  /** The union over the changing layers from the top down to layer k. */
  function ChangeFrom(cache: seq<Entry>, f: Frame, k: nat): Change
    requires k <= |cache| == |f.layers|
    decreases |cache| - k
  {
    if k == |cache| then
      NOTHING_CACHED
    else
      var c := ChangeFrom(cache, f, k + 1);
      if IsLayerChanging(cache, f, k) then
        Change(GetUnion(c.dirty, DirtyRect(f.layers[k], f.screen)), GetUnion(c.display, f.layers[k].layer.frame))
      else
        c
  }

  predicate AnyChange(cache: seq<Entry>, f: Frame)
    requires |cache| == |f.layers|
  {
    exists k :: 0 <= k < |cache| && IsLayerChanging(cache, f, k)
  }

  function ChangeOf(cache: seq<Entry>, f: Frame): Change
    requires |cache| == |f.layers|
  {
    if AnyChange(cache, f) then ChangeFrom(cache, f, 0) else NO_LAYER_CHANGED
  }

  /** Scaled, video and turned layers rule swap rectangles out. */
  predicate Unsuited(u: Update) {
    u.layer.NeedsScaling() || u.yuv || u.layer.transform.rot90
  }

  predicate SwapRectSuits(f: Frame) {
    forall k :: 0 <= k < |f.layers| ==> !Unsuited(f.layers[k])
  }

  /** All layers are one to one, upright or flipped, and none is video. */
  lemma SuitsIff(f: Frame)
    ensures SwapRectSuits(f) <==> forall k :: 0 <= k < |f.layers| ==>
      var l := f.layers[k].layer;
      !f.layers[k].yuv && !l.transform.rot90 && Exact(l.Crop(), l.frame, l.transform)
  {
    assert forall k :: 0 <= k < |f.layers| ==>
      (Unsuited(f.layers[k]) <==> f.layers[k].yuv || f.layers[k].layer.transform.rot90 ||
                                  !Exact(f.layers[k].layer.Crop(), f.layers[k].layer.frame, f.layers[k].layer.transform));
  }

  /** The layers for which any clipping is exact. */
  predicate Clippable(f: Frame) {
    forall k :: 0 <= k < |f.layers| ==> f.layers[k].layer.transform == NO_TRANSFORM && !f.layers[k].layer.colorFill
  }

  /** What a frame shows; the reference for every redraw. */
  function Picture(f: Frame, p: Point): Color {
    Composite(LayersOf(f.layers), f.tex, p)
  }

  /** Without HWC_GEOMETRY_CHANGED a frame differs from the one before in the content of
      layers only: nothing changes in a layer that keeps its buffer, and otherwise only
      what the layer reports as damage. */
  ghost predicate Continues(was: Frame, now: Frame) {
    && was.screen == now.screen && |was.layers| == |now.layers|
    && forall k, p: Point :: 0 <= k < |was.layers| ==> LayerContinues(was.layers[k], was.tex, now.layers[k], now.tex, p)
  }

  ghost predicate LayerContinues(was: Update, wasTex: Sample -> int, now: Update, nowTex: Sample -> int, p: Point) {
    && was.layer.frame == now.layer.frame
    && was.layer.blending == now.layer.blending && was.layer.planeAlpha == now.layer.planeAlpha
    && (was.layer.handle == now.layer.handle || !now.Damaged(p) ==>
          wasTex(SampleAt(was.layer, p)) == nowTex(SampleAt(now.layer, p)))
  }

  lemma {:induction false} ChangeFromCovers(cache: seq<Entry>, f: Frame, k: nat, i: nat, p: Point)
    requires k <= i < |cache| == |f.layers| && IsLayerChanging(cache, f, i)
    requires DirtyRect(f.layers[i], f.screen).Has(p)
    ensures ChangeFrom(cache, f, k).dirty.Has(p)
    decreases |cache| - k
  {
    if k < i {
      ChangeFromCovers(cache, f, k + 1, i, p);
    }
  }

  /** What CopyBit::prepare asks of each layer of a frame that copybit is to draw; the limits on
      scaling are left to the caller. */
  predicate BlitFits(l: Layer) {
    l.planeAlpha == 0xFF && l.Crop().Width() > 0 && l.Crop().Height() > 0 && l.frame.Width() > 0 && l.frame.Height() > 0
  }

  predicate LayersFit(f: Frame) {
    forall k :: 0 <= k < |f.layers| ==> BlitFits(f.layers[k].layer)
  }

  lemma {:induction false} ChangeFromShown(cache: seq<Entry>, f: Frame, k: nat, t: nat)
    requires |cache| == |f.layers| && LayersFit(f) && k <= t < |cache| && IsLayerChanging(cache, f, t)
    ensures ChangeFrom(cache, f, k).display.Valid()
    decreases t - k
  {
    assert BlitFits(f.layers[k].layer);
    if k < t {
      ChangeFromShown(cache, f, k + 1, t);
    }
  }

  /** The change of a frame that copybit can draw is never taken for an entry that was reset. */
  lemma ChangeIsNew(cache: seq<Entry>, f: Frame)
    requires |cache| == |f.layers| && LayersFit(f)
    ensures ChangeOf(cache, f) != NOTHING_CACHED
  {
    if AnyChange(cache, f) {
      var t :| 0 <= t < |cache| && IsLayerChanging(cache, f, t);
      ChangeFromShown(cache, f, 0, t);
    }
  }

  /** Outside the area of its change a frame shows what the frame before it showed. */
  lemma OutsideChangeSame(was: Frame, now: Frame, p: Point)
    requires Continues(was, now) && now.screen.Has(p) && SwapRectSuits(now) && Clippable(now)
    requires !ChangeOf(Entries(was), now).Area().Has(p)
    ensures Picture(was, p) == Picture(now, p)
  {
    var cache := Entries(was);
    var a, b := LayersOf(was.layers), LayersOf(now.layers);
    forall k | 0 <= k < |a| ensures SameLook(a[k], was.tex, b[k], now.tex, p) {
      assert LayerContinues(was.layers[k], was.tex, now.layers[k], now.tex, p);
      if now.layers[k].Damaged(p) && was.layers[k].layer.handle != now.layers[k].layer.handle {
        assert IsLayerChanging(cache, now, k);
        DirtyRectCovers(now.layers[k], now.screen, p);
        ChangeFromCovers(cache, now, 0, k, p);
      }
    }
    CompositeSame(a, was.tex, b, now.tex, p);
  }

  /** A layer has another buffer or another frame than the frame before had for it. */
  predicate Differs(was: Frame, now: Frame, k: nat)
    requires k < |was.layers| == |now.layers|
  {
    was.layers[k].layer.handle != now.layers[k].layer.handle || was.layers[k].layer.frame != now.layers[k].layer.frame
  }

  lemma {:induction false} ChangeFromLeast(was: Frame, now: Frame, k: nat, dirty: Rect, display: Rect)
    requires k <= |was.layers| == |now.layers|
    requires forall i :: 0 <= i < |now.layers| && Differs(was, now, i) ==> FitsInto(now, i, dirty, display)
    ensures
      var c := ChangeFrom(Entries(was), now, k);
      (c.dirty.Valid() ==> c.dirty.Within(dirty)) && (c.display.Valid() ==> c.display.Within(display))
    decreases |was.layers| - k
  {
    if k < |was.layers| {
      ChangeFromLeast(was, now, k + 1, dirty, display);
      assert IsLayerChanging(Entries(was), now, k) <==> Differs(was, now, k);
    }
  }

  predicate FitsInto(f: Frame, i: nat, dirty: Rect, display: Rect)
    requires i < |f.layers|
  {
    && (DirtyRect(f.layers[i], f.screen).Valid() ==> DirtyRect(f.layers[i], f.screen).Within(dirty))
    && (f.layers[i].layer.frame.Valid() ==> f.layers[i].layer.frame.Within(display))
  }

  /** The change is the least there is: whatever holds the dirty rectangles, or the frames, of the
      layers that differ holds that of the change. */
  lemma ChangeLeast(was: Frame, now: Frame, dirty: Rect, display: Rect)
    requires |was.layers| == |now.layers|
    requires forall i :: 0 <= i < |now.layers| && Differs(was, now, i) ==> FitsInto(now, i, dirty, display)
    ensures
      var c := ChangeOf(Entries(was), now);
      (c.dirty.Valid() ==> c.dirty.Within(dirty)) && (c.display.Valid() ==> c.display.Within(display))
  {
    ChangeFromLeast(was, now, 0, dirty, display);
  }

  /** It is the marker for no change exactly when no layer differs. */
  lemma NoChangeIff(was: Frame, now: Frame)
    requires |was.layers| == |now.layers|
    ensures ChangeOf(Entries(was), now) == NO_LAYER_CHANGED <==> forall k :: 0 <= k < |was.layers| ==> !Differs(was, now, k)
  {
    ChangeFromNatural(Entries(was), now, 0);
    assert forall k :: 0 <= k < |was.layers| ==> (IsLayerChanging(Entries(was), now, k) <==> Differs(was, now, k));
  }

  lemma {:induction false} ChangeFromNatural(cache: seq<Entry>, f: Frame, k: nat)
    requires k <= |cache| == |f.layers|
    ensures ChangeFrom(cache, f, k).dirty == ZERO_RECT || ChangeFrom(cache, f, k).dirty.Valid()
    decreases |cache| - k
  {
    if k < |cache| {
      ChangeFromNatural(cache, f, k + 1);
      DirtyRectWithin(f.layers[k], f.screen);
    }
  }

  // ------------------------------------------------------------------ clipped blits

  /** The crop that the blit of a layer uses when it is clipped to `part` of its frame. */
  function ClippedSource(l: Layer, part: Rect): Rect {
    var c := l.Crop();
    Rect(c.left + (part.left - l.frame.left), c.top + (part.top - l.frame.top),
         c.right - (l.frame.right - part.right), c.bottom - (l.frame.bottom - part.bottom))
  }

  /** A clipped blit of an unscaled, unturned layer reads the right source pixels if and only
      if, along each axis that is flipped, as much is clipped on one side as on the other. */
  lemma ClipExactIff(l: Layer, part: Rect, p: Point)
    requires !l.NeedsScaling() && !l.transform.rot90 && !l.colorFill
    requires part.Within(l.frame) && part.Has(p)
    ensures SampleOf(l.handle, ClippedSource(l, part), part, l.transform, p) == SampleAt(l, p) <==>
      && (l.transform.flipH ==> part.left - l.frame.left == l.frame.right - part.right)
      && (l.transform.flipV ==> part.top - l.frame.top == l.frame.bottom - part.bottom)
  {
  }

  // ------------------------------------------------------------------ the composer

  ghost predicate BufferShows(b: Canvas, f: Frame) {
    forall p: Point :: f.screen.Has(p) ==> b(p) == Picture(f, p)
  }

  ghost predicate RedrawnInside(b: Canvas, was: Canvas, f: Frame, area: Rect) {
    forall p: Point :: b(p) == if area.Has(p) then Picture(f, p) else was(p)
  }

  ghost predicate SameOutside(was: Frame, now: Frame, area: Rect) {
    was.screen == now.screen && forall p: Point :: now.screen.Has(p) && !area.Has(p) ==> Picture(was, p) == Picture(now, p)
  }

  /** The entry of the framebuffer cache that was written `age` insertions before the last. */
  function EntryAt(entries: seq<Change>, fbIndex: nat, age: nat): Change
    requires |entries| == NUM_RENDER_BUFFERS && fbIndex <= NUM_RENDER_BUFFERS && age < NUM_RENDER_BUFFERS
  {
    entries[(fbIndex + 2 * NUM_RENDER_BUFFERS - 1 - age) % NUM_RENDER_BUFFERS]
  }

  /** The render buffer that was drawn `age` frames ago. */
  function BufferIndex(cur: nat, age: nat): nat
    requires age < NUM_RENDER_BUFFERS
  {
    (cur + NUM_RENDER_BUFFERS - age) % NUM_RENDER_BUFFERS
  }

  /** The render buffers show the frames drawn, latest first. */
  ghost predicate BuffersShow(buffers: seq<Canvas>, cur: nat, past: seq<Frame>) {
    && |buffers| == NUM_RENDER_BUFFERS && cur < NUM_RENDER_BUFFERS && |past| <= NUM_RENDER_BUFFERS
    && forall a :: 0 <= a < |past| ==> BufferShows(buffers[BufferIndex(cur, a)], past[a])
  }

  /** The entries are those of these frames, and equal ones tell where the frames may differ. */
  ghost predicate EntriesTell(entries: seq<Change>, fbIndex: nat, past: seq<Frame>) {
    && |entries| == NUM_RENDER_BUFFERS && fbIndex <= NUM_RENDER_BUFFERS && |past| <= NUM_RENDER_BUFFERS
    && (forall a :: 0 <= a < NUM_RENDER_BUFFERS ==> (EntryAt(entries, fbIndex, a) == NOTHING_CACHED <==> a >= |past|))
    && (|past| >= 2 && EntryAt(entries, fbIndex, 1) == EntryAt(entries, fbIndex, 0) ==>
          SameOutside(past[1], past[0], EntryAt(entries, fbIndex, 0).Area()))
    && (|past| == 3 && EntryAt(entries, fbIndex, 1) == EntryAt(entries, fbIndex, 0) == EntryAt(entries, fbIndex, 2) ==>
          SameOutside(past[2], past[1], EntryAt(entries, fbIndex, 0).Area()))
  }

  /** What the caches know about the frames drawn since they were last reset, latest first. */
  ghost predicate Remembers(entries: seq<Change>, fbIndex: nat, buffers: seq<Canvas>, cur: nat, cache: seq<Entry>, past: seq<Frame>) {
    BuffersShow(buffers, cur, past) && EntriesTell(entries, fbIndex, past) && (past != [] ==> cache == Entries(past[0]))
  }

  // ------------------------------------------------------------------ one frame, on values

  predicate AllEntries(entries: seq<Change>, c: Change) {
    forall i :: 0 <= i < |entries| ==> entries[i] == c
  }

  /** Writing an entry makes it the latest and ages the others. */
  lemma InsertAges(entries: seq<Change>, fbIndex: nat, c: Change)
    requires |entries| == NUM_RENDER_BUFFERS && fbIndex <= NUM_RENDER_BUFFERS
    ensures
      var i := fbIndex % NUM_RENDER_BUFFERS;
      var next := entries[i := c];
      && EntryAt(next, i + 1, 0) == c
      && EntryAt(next, i + 1, 1) == EntryAt(entries, fbIndex, 0)
      && EntryAt(next, i + 1, 2) == EntryAt(entries, fbIndex, 1)
  {
  }

  lemma AllEntriesByAge(entries: seq<Change>, fbIndex: nat, c: Change)
    requires |entries| == NUM_RENDER_BUFFERS && fbIndex <= NUM_RENDER_BUFFERS
    ensures AllEntries(entries, c) <==> forall a :: 0 <= a < NUM_RENDER_BUFFERS ==> EntryAt(entries, fbIndex, a) == c
  {
    assert EntryAt(entries, fbIndex, 0) in entries && EntryAt(entries, fbIndex, 1) in entries && EntryAt(entries, fbIndex, 2) in entries;
    if forall a :: 0 <= a < NUM_RENDER_BUFFERS ==> EntryAt(entries, fbIndex, a) == c {
      assert EntryAt(entries, fbIndex, 0) == EntryAt(entries, fbIndex, 1) == EntryAt(entries, fbIndex, 2) == c;
    }
  }

  /** The same change written for as many frames as there are buffers: all entries agree on it, and a
      frame with that change again is redrawn partly. */
  lemma RepeatedChangeAgreed(entries: seq<Change>, fbIndex: nat, c: Change)
    requires |entries| == NUM_RENDER_BUFFERS && fbIndex <= NUM_RENDER_BUFFERS
    ensures
      var i := fbIndex % NUM_RENDER_BUFFERS;
      var j := (i + 1) % NUM_RENDER_BUFFERS;
      var k := (j + 1) % NUM_RENDER_BUFFERS;
      AllEntries(entries[i := c][j := c][k := c], c)
  {
  }

  /** Moving on to the next buffer ages the buffers. */
  lemma BuffersAge(cur: nat)
    requires cur < NUM_RENDER_BUFFERS
    ensures
      var next := (cur + 1) % NUM_RENDER_BUFFERS;
      && BufferIndex(next, 0) == next
      && BufferIndex(next, 1) == BufferIndex(cur, 0)
      && BufferIndex(next, 2) == BufferIndex(cur, 1)
      && next == BufferIndex(cur, 2)
  {
  }

  /** The latest frames, this one first. */
  function Remember(f: Frame, past: seq<Frame>): seq<Frame> {
    [f] + (if |past| < NUM_RENDER_BUFFERS then past else past[..NUM_RENDER_BUFFERS - 1])
  }

  /** The assumptions on the next frame. */
  ghost predicate Follows(past: seq<Frame>, f: Frame) {
    && (SwapRectSuits(f) ==> Clippable(f))
    && (past != [] && !f.geometryChanged ==> Continues(past[0], f))
  }

  lemma StepSameOutside(past: seq<Frame>, cache: seq<Entry>, f: Frame)
    requires past != [] && cache == Entries(past[0]) && Follows(past, f) && !f.geometryChanged && SwapRectSuits(f)
    ensures |cache| == |f.layers| && SameOutside(past[0], f, ChangeOf(cache, f).Area())
  {
    assert Continues(past[0], f);
    forall p: Point | f.screen.Has(p) && !ChangeOf(cache, f).Area().Has(p) ensures Picture(past[0], p) == Picture(f, p) {
      OutsideChangeSame(past[0], f, p);
    }
  }

  /** Moving on to the next buffer and drawing a frame into it. */
  lemma NextBufferShows(buffers: seq<Canvas>, cur: nat, past: seq<Frame>, f: Frame, b: Canvas)
    requires BuffersShow(buffers, cur, past) && BufferShows(b, f)
    ensures
      var next := (cur + 1) % NUM_RENDER_BUFFERS;
      BuffersShow(buffers[next := b], next, Remember(f, past))
  {
    BuffersAge(cur);
  }

  lemma InsertTells(entries: seq<Change>, fbIndex: nat, past: seq<Frame>, f: Frame, c: Change)
    requires EntriesTell(entries, fbIndex, past) && c != NOTHING_CACHED
    requires past != [] ==> SameOutside(past[0], f, c.Area())
    ensures
      var i := fbIndex % NUM_RENDER_BUFFERS;
      EntriesTell(entries[i := c], i + 1, Remember(f, past))
  {
    InsertAges(entries, fbIndex, c);
  }

  /** A full redraw with a new entry. */
  lemma InsertRemembers(entries: seq<Change>, fbIndex: nat, buffers: seq<Canvas>, cur: nat, cache: seq<Entry>, past: seq<Frame>,
                        f: Frame, b: Canvas)
    requires Remembers(entries, fbIndex, buffers, cur, cache, past)
    requires Follows(past, f) && LayersFit(f) && SwapRectSuits(f) && !f.geometryChanged && |cache| == |f.layers| && BufferShows(b, f)
    ensures
      var i, next := fbIndex % NUM_RENDER_BUFFERS, (cur + 1) % NUM_RENDER_BUFFERS;
      Remembers(entries[i := ChangeOf(cache, f)], i + 1, buffers[next := b], next, Entries(f), Remember(f, past))
  {
    ChangeIsNew(cache, f);
    if past != [] {
      StepSameOutside(past, cache, f);
    }
    NextBufferShows(buffers, cur, past, f, b);
    InsertTells(entries, fbIndex, past, f, ChangeOf(cache, f));
  }

  /** When all entries agree with the change, the buffer to be drawn differs from the frame
      inside its area only. */
  lemma OldBufferSameOutside(entries: seq<Change>, fbIndex: nat, buffers: seq<Canvas>, cur: nat, cache: seq<Entry>, past: seq<Frame>,
                             f: Frame, p: Point)
    requires Remembers(entries, fbIndex, buffers, cur, cache, past)
    requires Follows(past, f) && LayersFit(f) && SwapRectSuits(f) && !f.geometryChanged && |cache| == |f.layers|
    requires AllEntries(entries, ChangeOf(cache, f))
    ensures |past| == NUM_RENDER_BUFFERS
    ensures f.screen.Has(p) && !ChangeOf(cache, f).Area().Has(p) ==>
      buffers[(cur + 1) % NUM_RENDER_BUFFERS](p) == Picture(f, p)
  {
    var c := ChangeOf(cache, f);
    ChangeIsNew(cache, f);
    AllEntriesByAge(entries, fbIndex, c);
    assert EntryAt(entries, fbIndex, 2) == c;
    BuffersAge(cur);
    StepSameOutside(past, cache, f);
    assert BufferShows(buffers[BufferIndex(cur, 2)], past[2]);
    assert SameOutside(past[2], past[1], c.Area()) && SameOutside(past[1], past[0], c.Area());
  }

  lemma SameTells(entries: seq<Change>, fbIndex: nat, past: seq<Frame>, f: Frame, c: Change)
    requires EntriesTell(entries, fbIndex, past) && |past| == NUM_RENDER_BUFFERS
    requires AllEntries(entries, c) && SameOutside(past[0], f, c.Area())
    ensures EntriesTell(entries, fbIndex, Remember(f, past))
  {
    AllEntriesByAge(entries, fbIndex, c);
    assert EntryAt(entries, fbIndex, 0) == EntryAt(entries, fbIndex, 1) == EntryAt(entries, fbIndex, 2) == c;
  }

  /** A partial redraw leaves the entries as they are. */
  lemma SwapRemembers(entries: seq<Change>, fbIndex: nat, buffers: seq<Canvas>, cur: nat, cache: seq<Entry>, past: seq<Frame>,
                      f: Frame, b: Canvas)
    requires Remembers(entries, fbIndex, buffers, cur, cache, past)
    requires Follows(past, f) && LayersFit(f) && SwapRectSuits(f) && !f.geometryChanged && |cache| == |f.layers| && BufferShows(b, f)
    requires AllEntries(entries, ChangeOf(cache, f))
    ensures
      var next := (cur + 1) % NUM_RENDER_BUFFERS;
      Remembers(entries, fbIndex, buffers[next := b], next, Entries(f), Remember(f, past))
  {
    OldBufferSameOutside(entries, fbIndex, buffers, cur, cache, past, f, Point(0, 0));
    StepSameOutside(past, cache, f);
    NextBufferShows(buffers, cur, past, f, b);
    SameTells(entries, fbIndex, past, f, ChangeOf(cache, f));
  }

  /** Redrawing the area of a change that all entries agree on makes the old buffer show the
      frame. */
  lemma PartialShowsFrame(entries: seq<Change>, fbIndex: nat, buffers: seq<Canvas>, cur: nat, cache: seq<Entry>, past: seq<Frame>,
                          f: Frame, b: Canvas)
    requires Remembers(entries, fbIndex, buffers, cur, cache, past)
    requires Follows(past, f) && LayersFit(f) && SwapRectSuits(f) && !f.geometryChanged && |cache| == |f.layers|
    requires AllEntries(entries, ChangeOf(cache, f))
    requires RedrawnInside(b, buffers[(cur + 1) % NUM_RENDER_BUFFERS], f, ChangeOf(cache, f).Area())
    ensures BufferShows(b, f)
  {
    forall p: Point | f.screen.Has(p) ensures b(p) == Picture(f, p) {
      OldBufferSameOutside(entries, fbIndex, buffers, cur, cache, past, f, p);
    }
  }

  /** Drawing the frame in full into the next buffer makes the caches speak about `after`. */
  ghost predicate ReadyFor(entries: seq<Change>, fbIndex: nat, buffers: seq<Canvas>, cur: nat, cache: seq<Entry>, f: Frame, after: seq<Frame>) {
    && |buffers| == NUM_RENDER_BUFFERS
    && forall b: Canvas :: BufferShows(b, f) ==>
         Remembers(entries, fbIndex, buffers[(cur + 1) % NUM_RENDER_BUFFERS := b], (cur + 1) % NUM_RENDER_BUFFERS, cache, after)
  }

  lemma ForgetfulReady(entries: seq<Change>, fbIndex: nat, buffers: seq<Canvas>, cur: nat, cache: seq<Entry>, f: Frame)
    requires Remembers(entries, fbIndex, buffers, cur, cache, [])
    ensures ReadyFor(entries, fbIndex, buffers, cur, cache, f, [])
  {
  }

  lemma InsertReady(entries: seq<Change>, fbIndex: nat, buffers: seq<Canvas>, cur: nat, cache: seq<Entry>, past: seq<Frame>, f: Frame)
    requires Remembers(entries, fbIndex, buffers, cur, cache, past)
    requires Follows(past, f) && LayersFit(f) && SwapRectSuits(f) && !f.geometryChanged && |cache| == |f.layers|
    ensures
      var i := fbIndex % NUM_RENDER_BUFFERS;
      ReadyFor(entries[i := ChangeOf(cache, f)], i + 1, buffers, cur, Entries(f), f, Remember(f, past))
  {
    forall b: Canvas | BufferShows(b, f)
      ensures
        var i, next := fbIndex % NUM_RENDER_BUFFERS, (cur + 1) % NUM_RENDER_BUFFERS;
        Remembers(entries[i := ChangeOf(cache, f)], i + 1, buffers[next := b], next, Entries(f), Remember(f, past))
    {
      InsertRemembers(entries, fbIndex, buffers, cur, cache, past, f, b);
    }
  }

  // ------------------------------------------------------------------ drawing

  /** One layer blitted into a buffer, clipped to `part`. */
  function Blit(b: Canvas, l: Layer, part: Rect, tex: Sample -> int): Canvas {
    (p: Point) =>
      if part.Has(p) then
        Paint(l, Ink(tex(SampleOf(l.handle, ClippedSource(l, part), part, l.transform, p))), b(p))
      else
        b(p)
  }

  /** A whole layer blitted. */
  function BlitWhole(b: Canvas, l: Layer, tex: Sample -> int): Canvas {
    (p: Point) => if l.frame.Has(p) then Paint(l, Ink(tex(SampleAt(l, p))), b(p)) else b(p)
  }

  /** Inside `area` the first i layers, outside it what was there before. */
  ghost predicate DrawnInside(b: Canvas, was: Canvas, ls: seq<Layer>, i: nat, tex: Sample -> int, area: Rect)
    requires i <= |ls|
  {
    forall p: Point :: b(p) == if area.Has(p) then Composite(ls[..i], tex, p) else was(p)
  }

  lemma BlitStep(b: Canvas, was: Canvas, ls: seq<Layer>, i: nat, tex: Sample -> int, area: Rect)
    requires i < |ls| && DrawnInside(b, was, ls, i, tex, area)
    requires !ls[i].NeedsScaling() && ls[i].transform == NO_TRANSFORM && !ls[i].colorFill
    ensures
      var part := GetIntersection(ls[i].frame, area);
      DrawnInside(if part.Valid() then Blit(b, ls[i], part, tex) else b, was, ls, i + 1, tex, area)
  {
    var part := GetIntersection(ls[i].frame, area);
    forall p: Point
      ensures (if part.Valid() then Blit(b, ls[i], part, tex)(p) else b(p)) ==
              if area.Has(p) then Composite(ls[..i + 1], tex, p) else was(p)
    {
      CompositeStep(ls, i, tex, p);
      if part.Valid() && part.Has(p) {
        ClipExactIff(ls[i], part, p);
      }
    }
  }

  ghost predicate DrawnAll(b: Canvas, ls: seq<Layer>, i: nat, tex: Sample -> int)
    requires i <= |ls|
  {
    forall p: Point :: b(p) == Composite(ls[..i], tex, p)
  }

  lemma BlitWholeStep(b: Canvas, ls: seq<Layer>, i: nat, tex: Sample -> int)
    requires i < |ls| && DrawnAll(b, ls, i, tex)
    ensures DrawnAll(BlitWhole(b, ls[i], tex), ls, i + 1, tex)
  {
    forall p: Point ensures BlitWhole(b, ls[i], tex)(p) == Composite(ls[..i + 1], tex, p) {
      CompositeStep(ls, i, tex, p);
    }
  }

  /** The layer cache after a frame: a frame with a layer that rules swap rectangles out is not
      put into it, although it has been compared. */
  function CacheAfter(cache: seq<Entry>, f: Frame, enabled: bool): seq<Entry> {
    if enabled && !f.geometryChanged && |cache| == |f.layers| && !SwapRectSuits(f) then cache else Entries(f)
  }

  class CopyBit {
    var layerCache: seq<Entry>
    /** FbCache: dirty and display rectangle per entry. */
    const fbCache: array<Change>
    var fbIndex: nat
    var mDirtyRect: Rect
    var mSwapRect: bool
    const renderBuffer: array<Canvas>
    var curRenderBufferIndex: nat
    /** The frames the caches still speak about, latest first. */
    ghost var past: seq<Frame>

    ghost predicate Valid()
      reads this, fbCache, renderBuffer
    {
      fbCache.Length == renderBuffer.Length == NUM_RENDER_BUFFERS
      && Remembers(fbCache[..], fbIndex, renderBuffer[..], curRenderBufferIndex, layerCache, past)
    }

    constructor ()
      ensures Valid() && past == [] && fresh(fbCache) && fresh(renderBuffer)
    {
      layerCache, fbIndex, mDirtyRect, mSwapRect := [], 0, ZERO_RECT, false;
      fbCache := new Change[NUM_RENDER_BUFFERS](i => NOTHING_CACHED);
      renderBuffer := new Canvas[NUM_RENDER_BUFFERS](i => (p: Point) => Background);
      curRenderBufferIndex := 0;
      past := [];
    }

    /** FbCache::reset. */
    method ResetFbCache()
      requires fbCache.Length == renderBuffer.Length == NUM_RENDER_BUFFERS && curRenderBufferIndex < NUM_RENDER_BUFFERS
      modifies this`fbIndex, this`past, fbCache
      ensures Valid() && past == []
    {
      forall i | 0 <= i < fbCache.Length { fbCache[i] := NOTHING_CACHED; }
      fbIndex := 0;
      past := [];
    }

    /** How many entries equal the change. */
    method UnchangedCount(c: Change) returns (n: nat)
      requires fbCache.Length == NUM_RENDER_BUFFERS
      ensures n <= NUM_RENDER_BUFFERS
      ensures n == NUM_RENDER_BUFFERS <==> forall i :: 0 <= i < NUM_RENDER_BUFFERS ==> fbCache[i] == c
    {
      n := 0;
      for i := 0 to NUM_RENDER_BUFFERS
        invariant n <= i
        invariant n == i <==> forall k :: 0 <= k < i ==> fbCache[k] == c
      {
        if fbCache[i] == c {
          n := n + 1;
        }
      }
    }

    method InsertAndUpdateFbCache(c: Change)
      requires fbCache.Length == NUM_RENDER_BUFFERS
      modifies this`fbIndex, fbCache
      ensures fbIndex == old(fbIndex) % NUM_RENDER_BUFFERS + 1
      ensures fbCache[..] == old(fbCache[..])[old(fbIndex) % NUM_RENDER_BUFFERS := c]
    {
      fbIndex := fbIndex % NUM_RENDER_BUFFERS;
      fbCache[fbIndex] := c;
      fbIndex := fbIndex + 1;
    }

    /** The change of a frame against the layer cache. */
    method FrameChange(f: Frame) returns (c: Change)
      requires |layerCache| == |f.layers|
      ensures c == ChangeOf(layerCache, f)
    {
      var updatingLayerCount := 0;
      c := NOTHING_CACHED;
      var k := |f.layers|;
      while k > 0
        invariant 0 <= k <= |f.layers| && c == ChangeFrom(layerCache, f, k)
        invariant 0 <= updatingLayerCount
        invariant updatingLayerCount == 0 <==> forall i :: k <= i < |f.layers| ==> !IsLayerChanging(layerCache, f, i)
      {
        k := k - 1;
        if layerCache[k] != Entry(f.layers[k].layer.handle, f.layers[k].layer.frame) {
          assert IsLayerChanging(layerCache, f, k);
          updatingLayerCount := updatingLayerCount + 1;
          var dirty := CalculateDirtyRect(f.layers[k], f.screen);
          c := Change(GetUnion(c.dirty, dirty), GetUnion(c.display, f.layers[k].layer.frame));
        }
      }
      if updatingLayerCount == 0 {
        c := NO_LAYER_CHANGED;
      }
    }

    method Suits(f: Frame) returns (r: bool)
      ensures r == SwapRectSuits(f)
    {
      for k := 0 to |f.layers|
        invariant forall i :: 0 <= i < k ==> !Unsuited(f.layers[i])
      {
        var u := f.layers[k];
        if u.layer.NeedsScaling() || u.yuv || u.layer.transform.rot90 {
          assert Unsuited(u);
          return false;
        }
      }
      return true;
    }

    /** The test of the layers in CopyBit::prepare. */
    method CanBlit(f: Frame) returns (r: bool)
      ensures r == LayersFit(f)
    {
      var k := |f.layers|;
      while k > 0
        invariant 0 <= k <= |f.layers|
        invariant forall i :: k <= i < |f.layers| ==> BlitFits(f.layers[i].layer)
      {
        k := k - 1;
        var l := f.layers[k].layer;
        if l.planeAlpha != 0xFF {
          return false;
        }
        var crop := l.Crop();
        var srcW, srcH := crop.Width(), crop.Height();
        if l.Has90Transform() {
          srcW, srcH := crop.Height(), crop.Width();
        }
        if srcW <= 0 || srcH <= 0 || l.frame.Width() <= 0 || l.frame.Height() <= 0 {
          return false;
        }
      }
      return true;
    }

    /** Decides how the next frame is drawn. */
    method PrepareSwapRect(f: Frame, enabled: bool) returns (canUseSwapRect: bool)
      requires Valid()
      modifies this`layerCache, this`fbIndex, this`mDirtyRect, this`past, fbCache
      ensures fbCache.Length == NUM_RENDER_BUFFERS
      ensures layerCache == CacheAfter(old(layerCache), f, enabled)
      ensures
        if !enabled || f.geometryChanged || |old(layerCache)| != |f.layers| || !SwapRectSuits(f) then
          // the framebuffer cache is given up
          Valid() && past == [] && !canUseSwapRect
        else
          var c := ChangeOf(old(layerCache), f);
          && past == old(past)
          && canUseSwapRect == AllEntries(old(fbCache[..]), c)
          && (if canUseSwapRect then
                mDirtyRect == c.Area() && fbCache[..] == old(fbCache[..]) && fbIndex == old(fbIndex)
              else
                && fbCache[..] == old(fbCache[..])[old(fbIndex) % NUM_RENDER_BUFFERS := c]
                && fbIndex == old(fbIndex) % NUM_RENDER_BUFFERS + 1)
    {
      mDirtyRect := ZERO_RECT;
      if |layerCache| != |f.layers| || f.geometryChanged || !enabled {
        ResetFbCache();
        layerCache := Entries(f);
        return false;
      }
      var c := FrameChange(f);
      var suits := Suits(f);
      if !suits {
        ResetFbCache();
        return false;
      }
      var count := UnchangedCount(c);
      canUseSwapRect := true;
      assert AllEntries(fbCache[..], c) <==> count == NUM_RENDER_BUFFERS;
      if count < NUM_RENDER_BUFFERS {
        InsertAndUpdateFbCache(c);
        canUseSwapRect := false;
        c := NOTHING_CACHED;
      }
      mDirtyRect := if c.dirty.Valid() then c.dirty else c.display;
      layerCache := Entries(f);
    }

    /** Draws the layers into the current render buffer, clipped when swap rectangles are on. */
    method DrawLayers(f: Frame)
      requires renderBuffer.Length == NUM_RENDER_BUFFERS && curRenderBufferIndex < NUM_RENDER_BUFFERS
      requires mSwapRect ==> Clippable(f) && SwapRectSuits(f)
      modifies renderBuffer
      ensures
        var was, b := old(renderBuffer[curRenderBufferIndex]), renderBuffer[curRenderBufferIndex];
        if mSwapRect then RedrawnInside(b, was, f, mDirtyRect) else BufferShows(b, f)
      ensures renderBuffer[..] == old(renderBuffer[..])[curRenderBufferIndex := renderBuffer[curRenderBufferIndex]]
    {
      var ls := LayersOf(f.layers);
      var was := renderBuffer[curRenderBufferIndex];
      var area := mDirtyRect;
      var b: Canvas := was;
      if mSwapRect {
        if area.Valid() {
          b := (p: Point) => if area.Has(p) then Background else was(p);
        }
        for i := 0 to |ls|
          modifies {}
          invariant DrawnInside(b, was, ls, i, f.tex, area)
        {
          BlitStep(b, was, ls, i, f.tex, area);
          var result := GetIntersection(ls[i].frame, area);
          if result.Valid() {
            b := Blit(b, ls[i], result, f.tex);
          }
        }
      } else {
        b := (p: Point) => Background;
        for i := 0 to |ls|
          modifies {}
          invariant DrawnAll(b, ls, i, f.tex)
        {
          BlitWholeStep(b, ls, i, f.tex);
          b := BlitWhole(b, ls[i], f.tex);
        }
      }
      assert ls[..|ls|] == ls;
      ghost var buffers := renderBuffer[..];
      renderBuffer[curRenderBufferIndex] := b;
      assert renderBuffer[..] == buffers[curRenderBufferIndex := b];
    }

    /** Only the next buffer has changed. */
    ghost predicate DrawnNext(buffers: seq<Canvas>, cur: nat)
      requires renderBuffer.Length == NUM_RENDER_BUFFERS
      reads this, renderBuffer
    {
      && |buffers| == NUM_RENDER_BUFFERS
      && curRenderBufferIndex == (cur + 1) % NUM_RENDER_BUFFERS
      && renderBuffer[..] == buffers[curRenderBufferIndex := renderBuffer[curRenderBufferIndex]]
    }

    /** Moves on to the next buffer and draws the layers. */
    method DrawNextBuffer(f: Frame) returns (ghost b: Canvas)
      requires renderBuffer.Length == NUM_RENDER_BUFFERS && curRenderBufferIndex < NUM_RENDER_BUFFERS
      requires mSwapRect ==> Clippable(f) && SwapRectSuits(f)
      modifies this`curRenderBufferIndex, renderBuffer
      ensures
        var next := (old(curRenderBufferIndex) + 1) % NUM_RENDER_BUFFERS;
        && curRenderBufferIndex == next && b == renderBuffer[next]
        && renderBuffer[..] == old(renderBuffer[..])[next := b]
        && (if mSwapRect then RedrawnInside(b, old(renderBuffer[..])[next], f, mDirtyRect) else BufferShows(b, f))
    {
      curRenderBufferIndex := (curRenderBufferIndex + 1) % NUM_RENDER_BUFFERS;
      DrawLayers(f);
      b := renderBuffer[curRenderBufferIndex];
    }

    /** The next buffer is drawn in full. */
    method DrawFull(f: Frame, ghost after: seq<Frame>)
      requires fbCache.Length == renderBuffer.Length == NUM_RENDER_BUFFERS && !mSwapRect && curRenderBufferIndex < NUM_RENDER_BUFFERS
      requires ReadyFor(fbCache[..], fbIndex, renderBuffer[..], curRenderBufferIndex, layerCache, f, after)
      modifies this`curRenderBufferIndex, this`past, renderBuffer
      ensures Valid() && past == after && BufferShows(renderBuffer[curRenderBufferIndex], f)
      ensures DrawnNext(old(renderBuffer[..]), old(curRenderBufferIndex))
    {
      ghost var buffers, cached := renderBuffer[..], fbCache[..];
      ghost var b := DrawNextBuffer(f);
      assert fbCache[..] == cached && renderBuffer[..] == buffers[curRenderBufferIndex := b];
      past := after;
    }

    /** The next buffer is redrawn inside the area of the change only. */
    method DrawPartly(f: Frame, ghost cache: seq<Entry>)
      requires fbCache.Length == renderBuffer.Length == NUM_RENDER_BUFFERS && mSwapRect
      requires Remembers(fbCache[..], fbIndex, renderBuffer[..], curRenderBufferIndex, cache, past)
      requires Follows(past, f) && LayersFit(f) && SwapRectSuits(f) && !f.geometryChanged && |cache| == |f.layers| && layerCache == Entries(f)
      requires SwapRectSuits(f) && AllEntries(fbCache[..], ChangeOf(cache, f)) && mDirtyRect == ChangeOf(cache, f).Area()
      modifies this`curRenderBufferIndex, this`past, renderBuffer
      ensures Valid() && past != [] && past[0] == f && BufferShows(renderBuffer[curRenderBufferIndex], f)
      ensures DrawnNext(old(renderBuffer[..]), old(curRenderBufferIndex))
    {
      ghost var buffers, cur := renderBuffer[..], curRenderBufferIndex;
      ghost var b := DrawNextBuffer(f);
      PartialShowsFrame(fbCache[..], fbIndex, buffers, cur, cache, past, f, b);
      SwapRemembers(fbCache[..], fbIndex, buffers, cur, cache, past, f, b);
      past := Remember(f, past);
    }

    /** One frame: prepare decides, draw moves on to the next buffer and draws.  `prepared` says that
        prepare gets as far as the swap rectangle, `usable` that nothing but the layers themselves
        keeps copybit from drawing them.  Of a frame that copybit does not draw, draw only gives up
        the framebuffer cache. */
    method Compose(f: Frame, enabled: bool, prepared: bool, usable: bool) returns (drawn: bool)
      requires Valid() && (prepared && usable && LayersFit(f) ==> Follows(past, f))
      modifies this, fbCache, renderBuffer
      ensures Valid() && drawn == (prepared && usable && LayersFit(f))
      ensures layerCache == if prepared then CacheAfter(old(layerCache), f, enabled) else old(layerCache)
      ensures drawn ==> BufferShows(renderBuffer[curRenderBufferIndex], f) && DrawnNext(old(renderBuffer[..]), old(curRenderBufferIndex))
      ensures past == [] || (drawn && past[0] == f)
    {
      if !prepared {
        ResetFbCache();
        return false;
      }
      ghost var entries, index, cache := fbCache[..], fbIndex, layerCache;
      mSwapRect := PrepareSwapRect(f, enabled);
      var fits := CanBlit(f);
      drawn := fits && usable;
      if !drawn {
        ResetFbCache();
      } else if mSwapRect {
        DrawPartly(f, cache);
      } else {
        ghost var after := [];
        if !enabled || f.geometryChanged || |cache| != |f.layers| || !SwapRectSuits(f) {
          ForgetfulReady(fbCache[..], fbIndex, renderBuffer[..], curRenderBufferIndex, layerCache, f);
        } else {
          InsertReady(entries, index, renderBuffer[..], curRenderBufferIndex, cache, past, f);
          after := Remember(f, past);
        }
        DrawFull(f, after);
      }
    }
  }

  /** A frame with what happens to it. */
  datatype FrameEvent = FrameEvent(frame: Frame, enabled: bool, prepared: bool, usable: bool) {
    predicate Drawn() {
      prepared && usable && LayersFit(frame)
    }
  }

  /** The latest frame before frame t of the run, if copybit drew it. */
  function DrawnBefore(run: seq<FrameEvent>, t: nat): seq<Frame>
    requires t <= |run|
  {
    if t > 0 && run[t - 1].Drawn() then [run[t - 1].frame] else []
  }

  /** Every frame that copybit draws follows the one before it, if it drew that as well; what lies
      between may be composed by the GPU and look like anything. */
  ghost predicate IsFrameRun(run: seq<FrameEvent>) {
    forall t :: 0 <= t < |run| && run[t].Drawn() ==> Follows(DrawnBefore(run, t), run[t].frame)
  }

  /** The caches speak about nothing, or about the frame before frame t. */
  ghost predicate KnowsBefore(past: seq<Frame>, run: seq<FrameEvent>, t: nat)
    requires t <= |run|
  {
    past == [] || DrawnBefore(run, t) == past[..1]
  }

  method ComposeNext(c: CopyBit, run: seq<FrameEvent>, t: nat) returns (b: Canvas)
    requires c.Valid() && IsFrameRun(run) && t < |run| && KnowsBefore(c.past, run, t)
    modifies c, c.fbCache, c.renderBuffer
    ensures c.Valid() && KnowsBefore(c.past, run, t + 1)
    ensures run[t].Drawn() ==> BufferShows(b, run[t].frame)
  {
    var drawn := c.Compose(run[t].frame, run[t].enabled, run[t].prepared, run[t].usable);
    b := c.renderBuffer[c.curRenderBufferIndex];
  }

  /** Over every run, whatever mixture of full and partial redraws it takes, each drawn frame
      leaves its buffer as a full redraw would. */
  method ComposeRun(c: CopyBit, run: seq<FrameEvent>) returns (shown: seq<Canvas>)
    requires c.Valid() && c.past == [] && IsFrameRun(run)
    modifies c, c.fbCache, c.renderBuffer
    ensures |shown| == |run|
    ensures forall t :: 0 <= t < |run| && run[t].Drawn() ==> BufferShows(shown[t], run[t].frame)
  {
    shown := [];
    for t := 0 to |run|
      invariant c.Valid() && |shown| == t && KnowsBefore(c.past, run, t)
      invariant forall k :: 0 <= k < t && run[k].Drawn() ==> BufferShows(shown[k], run[k].frame)
    {
      var b := ComposeNext(c, run, t);
      shown := shown + [b];
    }
  }

  /** Right after a reset every frame that copybit draws is drawn in full, and so are the two after
      it: it takes NUM_RENDER_BUFFERS equal changes before the first partial redraw. */
  lemma FullUntilAllSeen(entries: seq<Change>, fbIndex: nat, buffers: seq<Canvas>, cur: nat, cache: seq<Entry>, past: seq<Frame>, f: Frame)
    requires Remembers(entries, fbIndex, buffers, cur, cache, past) && |past| < NUM_RENDER_BUFFERS
    requires |cache| == |f.layers| && LayersFit(f)
    ensures !AllEntries(entries, ChangeOf(cache, f))
  {
    ChangeIsNew(cache, f);
    AllEntriesByAge(entries, fbIndex, ChangeOf(cache, f));
    assert EntryAt(entries, fbIndex, |past|) == NOTHING_CACHED;
  }
}

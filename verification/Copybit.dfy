/** The request list of the MDP blitter (copybit.cpp): requests and acquire fences are collected
    and handed to the driver in batches.  Whether a call into the driver succeeds is left open. */
module Copybit {
  import opened Rects
  import opened Layers
  import opened BlitRects

  const MAX_REQUESTS := 10
  const MAX_DIMENSION := 4096
  /** From a kernel header that is not part of the repository. */
  const MDP_MAX_FENCE_FD := 32

  datatype Format = Rgba8888 | Bgra8888 | Yv12 | YCrCb420Sp | OtherFormat

  /** copybit_image_t. */
  class Image {
    const w: nat
    const h: nat
    var format: Format
    var handle: int

    constructor (w: nat, h: nat, format: Format, handle: int)
      ensures this.w == w && this.h == h && this.format == format && this.handle == handle
    {
      this.w, this.h, this.format, this.handle := w, h, format, handle;
    }
  }

  /** mdp_blit_req; a fill has its destination for a source, too. */
  datatype Request =
    | Blit(source: int, target: int, rects: Rectangles, flags: Transform, alpha: int)
    | Fill(source: int, target: int, area: Area, color: int)

  /** What became of requests and fences, call by call. */
  datatype Entry =
    | Kick(fences: seq<int>, requests: seq<Request>, ok: bool)
    | Refused(fences: seq<int>, requests: seq<Request>)   // failed, and the list kept as it was
    | Direct(fences: seq<int>, request: Request, ok: bool)
    | Forgotten(fences: seq<int>)

  predicate RefersTo(r: Request, buffers: set<int>) {
    r.source in buffers || r.target in buffers
  }

  // ------------------------------------------------------------------ reading the log

  /** The requests that have left the list, in order. */
  function Handed(log: seq<Entry>): seq<Request> {
    if log == [] then
      []
    else
      var e := log[|log| - 1];
      Handed(log[..|log| - 1]) + (if e.Kick? then e.requests else [])
  }

  /** The requests that the driver has accepted from the list. */
  function Executed(log: seq<Entry>): seq<Request> {
    if log == [] then
      []
    else
      var e := log[|log| - 1];
      Executed(log[..|log| - 1]) + (if e.Kick? && e.ok then e.requests else [])
  }

  /** The fences that have left the list, in order. */
  function Fences(log: seq<Entry>): seq<int> {
    if log == [] then
      []
    else
      var e := log[|log| - 1];
      Fences(log[..|log| - 1]) + (if e.Refused? then [] else e.fences)
  }

  predicate NoFailure(log: seq<Entry>) {
    forall i :: 0 <= i < |log| ==> log[i].Kick? ==> log[i].ok
  }

  /** As long as the calls succeed, nothing that has left the list is lost. */
  lemma {:induction false} HandedAreExecuted(log: seq<Entry>)
    requires NoFailure(log)
    ensures Executed(log) == Handed(log)
  {
    if log != [] {
      HandedAreExecuted(log[..|log| - 1]);
    }
  }

  lemma Logged(log: seq<Entry>, e: Entry)
    ensures Handed(log + [e]) == Handed(log) + (if e.Kick? then e.requests else [])
    ensures Fences(log + [e]) == Fences(log) + (if e.Refused? then [] else e.fences)
  {
    assert (log + [e])[..|log|] == log;
  }

  /** At every point of the log, the requests handed over by then were set behind no more fences
      (`due`, request by request) than had been handed over, too. */
  ghost predicate InTime(log: seq<Entry>, due: seq<nat>) {
    log != [] ==>
      && InTime(log[..|log| - 1], due)
      && forall k :: 0 <= k < |Handed(log)| && k < |due| ==> due[k] <= |Fences(log)|
  }

  lemma InTimeLogged(log: seq<Entry>, e: Entry, due: seq<nat>)
    requires InTime(log, due)
    requires forall k :: 0 <= k < |Handed(log + [e])| && k < |due| ==> due[k] <= |Fences(log + [e])|
    ensures InTime(log + [e], due)
  {
    assert (log + [e])[..|log|] == log;
  }

  /** Requests to come do not matter for what has been handed over. */
  lemma {:induction false} InTimeGrows(log: seq<Entry>, due: seq<nat>, d: nat)
    requires InTime(log, due) && |Handed(log)| <= |due|
    ensures InTime(log, due + [d])
  {
    if log != [] {
      InTimeGrows(log[..|log| - 1], due, d);
    }
  }

  // ------------------------------------------------------------------ requests for a region

  function RequestFor(src: int, dst: int, bounds: Rect, t: Transform, alpha: int, dstRect: Rect, srcRect: Rect, clip: Rect): seq<Request>
  {
    var b := BlitOf(t, dstRect, srcRect, Intersect(bounds, clip));
    if b.Rectangles? && b.src.w > 0 && b.src.h > 0 then [Blit(src, dst, b, t, alpha)] else []
  }

  function RequestsFor(src: int, dst: int, bounds: Rect, t: Transform, alpha: int, dstRect: Rect, srcRect: Rect, region: seq<Rect>): seq<Request>
  {
    if region == [] then
      []
    else
      var n := |region| - 1;
      RequestsFor(src, dst, bounds, t, alpha, dstRect, srcRect, region[..n]) +
      RequestFor(src, dst, bounds, t, alpha, dstRect, srcRect, region[n])
  }

  /** A request for one clip: how it blends and turns, what it writes, and that it reads inside the
      source rectangle unless that is inverted. */
  ghost predicate Inside(r: Request, src: int, dst: int, bounds: Rect, t: Transform, alpha: int, dstRect: Rect, srcRect: Rect, clip: Rect)
  {
    && r.Blit? && r.rects.Rectangles? && r.source == src && r.target == dst && r.flags == t && r.alpha == alpha
    && ToRect(r.rects.dst) == Intersect(Intersect(bounds, clip), dstRect) && ToRect(r.rects.dst).Valid()
    && (ToRect(r.rects.src).Within(srcRect) <==> Ordered32(srcRect)) && ToRect(r.rects.src).Valid()
  }

  lemma RequestInside(src: int, dst: int, bounds: Rect, t: Transform, alpha: int, dstRect: Rect, srcRect: Rect, clip: Rect)
    requires bounds.left == bounds.top == 0 && bounds.right < TWO_32 && bounds.bottom < TWO_32
    requires 0 <= srcRect.left < TWO_32 && 0 <= srcRect.right < TWO_32 && 0 <= srcRect.top < TWO_32 && 0 <= srcRect.bottom < TWO_32
    ensures forall r :: r in RequestFor(src, dst, bounds, t, alpha, dstRect, srcRect, clip) ==>
      Inside(r, src, dst, bounds, t, alpha, dstRect, srcRect, clip)
  {
    var scissor := Intersect(bounds, clip);
    BlitDestination(t, dstRect, srcRect, scissor);
    var both := Intersect(scissor, dstRect);
    if both.Valid() {
      BlitInside(t, dstRect, srcRect, both);
    }
  }

  /** Every blit of a region writes inside the destination image and the region, and reads inside
      the source rectangle exactly when that is not inverted. */
  lemma {:induction false} RequestsInside(src: int, dst: int, bounds: Rect, t: Transform, alpha: int, dstRect: Rect, srcRect: Rect,
                                          region: seq<Rect>, k: nat)
    requires bounds.left == bounds.top == 0 && bounds.right < TWO_32 && bounds.bottom < TWO_32
    requires 0 <= srcRect.left < TWO_32 && 0 <= srcRect.right < TWO_32 && 0 <= srcRect.top < TWO_32 && 0 <= srcRect.bottom < TWO_32
    requires k < |RequestsFor(src, dst, bounds, t, alpha, dstRect, srcRect, region)|
    ensures
      var r := RequestsFor(src, dst, bounds, t, alpha, dstRect, srcRect, region)[k];
      exists i :: 0 <= i < |region| && Inside(r, src, dst, bounds, t, alpha, dstRect, srcRect, region[i])
  {
    var n := |region| - 1;
    var before := RequestsFor(src, dst, bounds, t, alpha, dstRect, srcRect, region[..n]);
    if k < |before| {
      RequestsInside(src, dst, bounds, t, alpha, dstRect, srcRect, region[..n], k);
      var i :| 0 <= i < n && Inside(before[k], src, dst, bounds, t, alpha, dstRect, srcRect, region[..n][i]);
      assert region[..n][i] == region[i];
    } else {
      RequestInside(src, dst, bounds, t, alpha, dstRect, srcRect, region[n]);
    }
  }

  /** The request writes p, and puts there the source pixel that the whole blit would put there. */
  ghost predicate Draws(r: Request, t: Transform, dstRect: Rect, srcRect: Rect, p: Point) {
    && r.Blit? && r.rects.Rectangles? && ToRect(r.rects.dst).Has(p)
    && Unscaled(t, ToRect(r.rects.src), ToRect(r.rects.dst))
    && BlitPixel(t, ToRect(r.rects.src), ToRect(r.rects.dst), p) == BlitPixel(t, srcRect, dstRect, p)
  }

  lemma ClipDrawn(src: int, dst: int, bounds: Rect, t: Transform, alpha: int, dstRect: Rect, srcRect: Rect, clip: Rect, p: Point)
    requires bounds.left == bounds.top == 0 && bounds.right < TWO_32 && bounds.bottom < TWO_32
    requires Ordered32(srcRect) && Unscaled(t, srcRect, dstRect) && bounds.Has(p) && clip.Has(p) && dstRect.Has(p)
    ensures
      var rs := RequestFor(src, dst, bounds, t, alpha, dstRect, srcRect, clip);
      |rs| == 1 && Draws(rs[0], t, dstRect, srcRect, p)
  {
    var scissor := Intersect(bounds, clip);
    var both := Intersect(scissor, dstRect);
    BlitDestination(t, dstRect, srcRect, scissor);
    ClippedBlitSamePixels(t, dstRect, srcRect, both, p);
  }

  /** No pixel of the region is missed: wherever it meets the destination of an unscaled blit, on the
      image, one of the requests draws the pixel. */
  lemma {:induction false} RegionDrawn(src: int, dst: int, bounds: Rect, t: Transform, alpha: int, dstRect: Rect, srcRect: Rect,
                                       region: seq<Rect>, i: nat, p: Point) returns (k: nat)
    requires bounds.left == bounds.top == 0 && bounds.right < TWO_32 && bounds.bottom < TWO_32
    requires Ordered32(srcRect) && Unscaled(t, srcRect, dstRect)
    requires i < |region| && bounds.Has(p) && region[i].Has(p) && dstRect.Has(p)
    ensures
      var rs := RequestsFor(src, dst, bounds, t, alpha, dstRect, srcRect, region);
      k < |rs| && Draws(rs[k], t, dstRect, srcRect, p)
  {
    var n := |region| - 1;
    if i < n {
      k := RegionDrawn(src, dst, bounds, t, alpha, dstRect, srcRect, region[..n], i, p);
    } else {
      k := |RequestsFor(src, dst, bounds, t, alpha, dstRect, srcRect, region[..n])|;
      ClipDrawn(src, dst, bounds, t, alpha, dstRect, srcRect, region[n], p);
    }
  }

  // ------------------------------------------------------------------ the context

  class Context {
    const requests: array<Request>
    var count: nat
    const acqFence: array<int>
    var fenceCount: nat
    var flags: Transform
    var alpha: int

    ghost var log: seq<Entry>
    /** All requests that got onto the list, and all fences set, in order. */
    ghost var accepted: seq<Request>
    ghost var synced: seq<int>
    /** For each request, how many fences had been set before it. */
    ghost var due: seq<nat>
    /** Temporaries that have been freed again. */
    ghost var freed: set<int>

    ghost function Pending(): seq<Request>
      requires count <= requests.Length
      reads this, requests
    {
      requests[..count]
    }

    ghost function PendingFences(): seq<int>
      requires fenceCount <= acqFence.Length
      reads this, acqFence
    {
      acqFence[..fenceCount]
    }

    /** What was accepted is what has been handed over and what is pending, in that order; no
        pending request refers to a temporary that is gone; and nothing overtook its fences. */
    ghost predicate Consistent()
      requires count <= requests.Length && fenceCount <= acqFence.Length
      reads this, requests, acqFence
    {
      && accepted == Handed(log) + Pending()
      && synced == Fences(log) + PendingFences()
      && (forall k :: 0 <= k < count ==> !RefersTo(requests[k], freed))
      && |due| == |accepted| && InTime(log, due)
      && (forall k :: 0 <= k < |due| ==> due[k] <= |synced|)
    }

    /** Between calls there is room in both lists. */
    ghost predicate Valid()
      reads this, requests, acqFence
    {
      && requests.Length == MAX_REQUESTS && acqFence.Length == MDP_MAX_FENCE_FD
      && count < MAX_REQUESTS && fenceCount < MDP_MAX_FENCE_FD
      && Consistent()
    }

    constructor ()
      ensures Valid() && accepted == [] && synced == [] && log == [] && freed == {}
      ensures fresh(requests) && fresh(acqFence)
    {
      requests := new Request[MAX_REQUESTS](_ => Fill(0, 0, Area(0, 0, 0, 0), 0));
      acqFence := new int[MDP_MAX_FENCE_FD];
      count, fenceCount := 0, 0;
      flags, alpha := NO_TRANSFORM, 255;
      log, accepted, synced, due, freed := [], [], [], [], {};
    }

    /** msm_copybit for the whole list, which is then emptied whatever became of it. */
    method Kickoff() returns (ok: bool)
      requires requests.Length == MAX_REQUESTS && acqFence.Length == MDP_MAX_FENCE_FD
      requires count <= MAX_REQUESTS && fenceCount < MDP_MAX_FENCE_FD
      requires Consistent()
      modifies this`count, this`fenceCount, this`log
      ensures Valid() && count == 0 && fenceCount == 0
      ensures log == old(log) + [Kick(old(PendingFences()), old(Pending()), ok)]
    {
      ok := *;
      ghost var e := Kick(PendingFences(), Pending(), ok);
      Logged(log, e);
      InTimeLogged(log, e, due);
      log := log + [e];
      count, fenceCount := 0, 0;
    }

    /** The list goes off to make room; when the call fails it stays as it is. */
    method MakeRoom() returns (ok: bool)
      requires Valid()
      modifies this`count, this`fenceCount, this`log
      ensures Valid()
      ensures ok ==> fenceCount == 0 && log == old(log) + [Kick(old(PendingFences()), old(Pending()), true)]
      ensures !ok ==> log == old(log) + [Refused(old(PendingFences()), old(Pending()))]
    {
      ok := *;
      ghost var e := if ok then Kick(PendingFences(), Pending(), ok) else Refused(PendingFences(), Pending());
      Logged(log, e);
      InTimeLogged(log, e, due);
      log := log + [e];
      if ok {
        count, fenceCount := 0, 0;
      }
    }

    /** set_sync_copybit: the fence joins those that the next batch waits for.  When there is no
        room, the batch goes off first; if that fails the fence is refused. */
    method SetSync(fence: int) returns (ok: bool)
      requires Valid()
      modifies this`count, this`fenceCount, this`log, this`synced, acqFence
      ensures Valid()
      ensures fence == -1 ==> ok && log == old(log)
      ensures synced == old(synced) + (if ok && fence != -1 then [fence] else [])
      ensures !ok ==> log == old(log) + [Refused(old(PendingFences()), old(Pending()))]
      ensures old(fenceCount) < MDP_MAX_FENCE_FD - 1 ==> ok && log == old(log)
    {
      ok := true;
      if fence == -1 {
        return;
      }
      if fenceCount >= MDP_MAX_FENCE_FD - 1 {
        ok := MakeRoom();
        if !ok {
          return;
        }
      }
      acqFence[fenceCount] := fence;
      fenceCount := fenceCount + 1;
      synced := synced + [fence];
    }

    /** A request at the end of the list; a full list goes off at once. */
    method Enqueue(r: Request) returns (ok: bool)
      requires Valid() && !RefersTo(r, freed)
      modifies this`count, this`fenceCount, this`log, this`accepted, this`due, requests
      ensures Valid() && accepted == old(accepted) + [r]
      ensures !ok ==> count == 0
      ensures old(count) < MAX_REQUESTS - 1 ==> ok && log == old(log)
    {
      InTimeGrows(log, due, |synced|);
      requests[count] := r;
      count := count + 1;
      accepted, due := accepted + [r], due + [|synced|];
      assert Pending() == old(Pending()) + [r];
      assert Consistent();
      ok := true;
      if count == MAX_REQUESTS {
        ok := Kickoff();
      }
    }

    /** fill_color; -22 is -EINVAL. */
    method FillColor(dst: Image, rect: Rect, color: int) returns (status: int)
      requires Valid() && dst.handle !in freed
      modifies this`count, this`fenceCount, this`log, this`accepted, this`due, requests
      ensures Valid()
      ensures accepted ==
        if dst.w > MAX_DIMENSION || dst.h > MAX_DIMENSION || !FillFits(dst, rect) then old(accepted)
        else old(accepted) + [Fill(dst.handle, dst.handle, Area(rect.left, rect.top, rect.Width(), rect.Height()), color)]
    {
      if dst.w > MAX_DIMENSION || dst.h > MAX_DIMENSION {
        return -22;
      }
      if !FillFits(dst, rect) {
        return -22;
      }
      var ok := Enqueue(Fill(dst.handle, dst.handle, Area(rect.left, rect.top, rect.right - rect.left, rect.bottom - rect.top), color));
      status := if ok then 0 else -1;
    }

    /** flush_get_fence: what is pending goes off, and then every request ever accepted has been
        executed, once and in order, unless a call failed.  Fences that no request waits for are
        dropped. */
    method FlushGetFence() returns (status: int)
      requires Valid()
      modifies this`count, this`fenceCount, this`log
      ensures Valid() && count == 0 && fenceCount == 0
      ensures accepted == Handed(log) && (NoFailure(log) ==> accepted == Executed(log))
      ensures old(count) > 0 ==> exists ok :: log == old(log) + [Kick(old(PendingFences()), old(Pending()), ok)]
      ensures old(count) == 0 ==> log == old(log) + [Forgotten(old(PendingFences()))] && status == -22
    {
      status := -22;
      if count > 0 {
        var ok := Kickoff();
        status := if ok then 0 else -1;
      } else {
        ghost var e := Forgotten(PendingFences());
        Logged(log, e);
        InTimeLogged(log, e, due);
        log := log + [e];
        fenceCount := 0;
      }
      if NoFailure(log) {
        HandedAreExecuted(log);
      }
    }

    /** clear_copybit: a fill of its own, past the list; it takes the pending fences along. */
    method ClearBuffer(buf: Image, rect: Rect) returns (status: int)
      requires Valid()
      modifies this`fenceCount, this`log
      ensures Valid()
      ensures !FillFits(buf, rect) ==> status == -22 && log == old(log)
      ensures FillFits(buf, rect) ==>
        && fenceCount == 0
        && log == old(log) + [Direct(old(PendingFences()),
                                     Fill(buf.handle, buf.handle, Area(rect.left, rect.top, rect.Width(), rect.Height()), 0),
                                     status == 0)]
    {
      if !FillFits(buf, rect) {
        return -22;
      }
      var ok: bool := *;
      var area := Area(rect.left, rect.top, rect.right - rect.left, rect.bottom - rect.top);
      ghost var e := Direct(PendingFences(), Fill(buf.handle, buf.handle, area, 0), ok);
      Logged(log, e);
      InTimeLogged(log, e, due);
      log := log + [e];
      fenceCount := 0;
      status := if ok then 0 else -1;
    }

    /** One turn of the loop in stretch_copybit: a request, or none for an empty clip. */
    method BlitClip(source: int, target: int, bounds: Rect, dstRect: Rect, srcRect: Rect, region: Rect) returns (ok: bool)
      requires Valid() && source !in freed && target !in freed
      modifies this`count, this`fenceCount, this`log, this`accepted, this`due, requests
      ensures Valid() && (!ok ==> count == 0)
      ensures accepted == old(accepted) + RequestFor(source, target, bounds, flags, alpha, dstRect, srcRect, region)
    {
      var clip := Intersect(bounds, region);
      var rects := SetRects(flags, dstRect, srcRect, clip);
      if rects.Empty? || rects.src.w == 0 || rects.src.h == 0 || rects.dst.w == 0 || rects.dst.h == 0 {
        return true;
      }
      ok := Enqueue(Blit(source, target, rects, flags, alpha));
    }

    /** The loop of stretch_copybit over the region; a failure ends it. */
    method BlitRegion(source: int, target: int, bounds: Rect, dstRect: Rect, srcRect: Rect, region: seq<Rect>)
      returns (status: int, ghost n: nat)
      requires Valid() && source !in freed && target !in freed
      modifies this`count, this`fenceCount, this`log, this`accepted, this`due, requests
      ensures Valid() && n <= |region| && (status == 0 ==> n == |region|) && (status != 0 ==> count == 0)
      ensures accepted == old(accepted) + RequestsFor(source, target, bounds, flags, alpha, dstRect, srcRect, region[..n])
    {
      status, n := 0, 0;
      var i := 0;
      while status == 0 && i < |region|
        invariant i <= |region| && n == i && Valid() && (status != 0 ==> count == 0)
        invariant accepted == old(accepted) + RequestsFor(source, target, bounds, flags, alpha, dstRect, srcRect, region[..i])
      {
        assert region[..i + 1][..i] == region[..i];
        var ok := BlitClip(source, target, bounds, dstRect, srcRect, region[i]);
        status := if ok then 0 else -1;
        i, n := i + 1, n + 1;
      }
    }

    /** What stretch_copybit refuses outright. */
    predicate Stretchable(dst: Image, src: Image, srcRect: Rect)
      reads this, src
    {
      && !(alpha < 255 && src.format in {Rgba8888, Bgra8888})
      && srcRect.left >= 0 && 0 <= srcRect.right <= src.w && srcRect.top >= 0 && 0 <= srcRect.bottom <= src.h
      && src.w <= MAX_DIMENSION && src.h <= MAX_DIMENSION && dst.w <= MAX_DIMENSION && dst.h <= MAX_DIMENSION
    }

    /** The blits of a converted image: nothing is pending when the temporary is freed. */
    method BlitTemporary(temp: int, target: int, bounds: Rect, dstRect: Rect, srcRect: Rect, region: seq<Rect>)
      returns (status: int, ghost n: nat)
      requires Valid() && temp !in freed && target !in freed
      modifies this`count, this`fenceCount, this`log, this`accepted, this`due, this`freed, requests
      ensures Valid() && n <= |region| && (status == 0 ==> n == |region|)
      ensures count == 0 && freed == old(freed) + {temp}
      ensures accepted == old(accepted) + RequestsFor(temp, target, bounds, flags, alpha, dstRect, srcRect, region[..n])
    {
      status, n := BlitRegion(temp, target, bounds, dstRect, srcRect, region);
      if count != 0 {
        var ok := Kickoff();
        status := if ok then 0 else -1;
      }
      freed := freed + {temp};
    }

    /** The software conversion of a YV12 image into `temp`; without memory, or when it fails, the
        image stays as it was. */
    method ConvertImage(src: Image, temp: int, memory: bool, converts: bool) returns (ok: bool)
      requires Valid() && forall k :: 0 <= k < count ==> !RefersTo(requests[k], {temp})
      modifies this`freed, src
      ensures Valid() && ok == (memory && converts)
      ensures ok ==> src.handle == temp && src.format == YCrCb420Sp && freed == old(freed) - {temp}
      ensures !ok ==> src.handle == old(src.handle) && src.format == old(src.format) && freed <= old(freed) + {temp}
    {
      if !memory {
        return false;
      }
      freed := freed - {temp};
      if !converts {
        freed := freed + {temp};
        return false;
      }
      src.format := YCrCb420Sp;
      src.handle := temp;
      return true;
    }

    /** stretch_copybit.  A YV12 image is converted into the temporary `temp` first, if there is
        memory for one, and `temp` is freed at the end, although the image still names it. */
    method Stretch(dst: Image, src: Image, dstRect: Rect, srcRect: Rect, region: seq<Rect>, temp: int, memory: bool, converts: bool)
      returns (status: int, ghost n: nat)
      requires Valid() && dst != src && src.handle !in freed && dst.handle !in freed
      // an allocation does not return a buffer in use
      requires temp != dst.handle && forall k :: 0 <= k < count ==> !RefersTo(requests[k], {temp})
      modifies this`count, this`fenceCount, this`log, this`accepted, this`due, this`freed, requests, src
      ensures Valid()
      ensures
        if old(Stretchable(dst, src, srcRect)) && (old(src.format) == Yv12 ==> memory && converts) then
          && n <= |region| && (status == 0 ==> n == |region|)
          && accepted == old(accepted) +
             RequestsFor(src.handle, dst.handle, Rect(0, 0, dst.w, dst.h), flags, alpha, dstRect, srcRect, region[..n])
        else
          status == -22 && accepted == old(accepted) && log == old(log)
      ensures
        if old(Stretchable(dst, src, srcRect)) && old(src.format) == Yv12 && memory && converts then
          src.handle == temp && src.format == YCrCb420Sp && temp in freed && count == 0
        else
          src.handle == old(src.handle) && src.format == old(src.format)
      ensures old(src.format) != Yv12 ==> freed == old(freed)
    {
      status, n := -22, 0;
      if !Stretchable(dst, src, srcRect) {
        return;
      }
      var bounds := Rect(0, 0, dst.w, dst.h);
      if src.format == Yv12 {
        var ok := ConvertImage(src, temp, memory, converts);
        if !ok {
          return;
        }
        status, n := BlitTemporary(temp, dst.handle, bounds, dstRect, srcRect, region);
      } else {
        status, n := BlitRegion(src.handle, dst.handle, bounds, dstRect, srcRect, region);
      }
    }
  }

  /** The rectangle of a fill has non-negative corner and is no larger than the image; the
      comparison is unsigned, so that an inverted rectangle is too large. */
  predicate FillFits(dst: Image, rect: Rect) {
    rect.left >= 0 && 0 <= rect.Width() <= dst.w && rect.top >= 0 && 0 <= rect.Height() <= dst.h
  }
}

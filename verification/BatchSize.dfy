/** Which batches getBatch looks at, and how large they are (hwc_mdpcomp.cpp): told from the list
    alone, without the variables of its loops. */
module BatchSize {
  import opened Rects
  import opened Layers
  import opened Batching

  /** FB layer k fits into a batch that starts at s: it lies over no MDP layer in between, or the
      whole batch can be moved up to it. */
  predicate Joinable(fb: seq<bool>, drop: seq<bool>, ls: seq<Layer>, s: nat, k: nat)
    requires |fb| == |drop| == |ls| && s <= k < |fb|
  {
    !IntersectsUpdating(fb, ls, s, k - 1, k) || CanPush(fb, drop, ls, s, k)
  }

  /** In terms of layers that share pixels: k shares none with an MDP layer from s up to it, or no FB
      layer from s on that is not dropped shares one with an MDP layer between it and k. */
  lemma JoinableIff(fb: seq<bool>, drop: seq<bool>, ls: seq<Layer>, s: nat, k: nat)
    requires |fb| == |drop| == |ls| && s <= k < |fb|
    ensures Joinable(fb, drop, ls, s, k) <==>
      || (forall m :: s <= m < k && !fb[m] ==> !AreLayersIntersecting(ls[m], ls[k]))
      || (forall i, m :: s <= i < k && i < m <= k && fb[i] && !drop[i] && !fb[m] ==> !AreLayersIntersecting(ls[m], ls[i]))
  {
    forall i | s <= i < k
      ensures IntersectsUpdating(fb, ls, i + 1, k, i) <==> exists m :: i < m <= k && !fb[m] && AreLayersIntersecting(ls[m], ls[i])
    {
    }
  }

  /** The first FB layer from k up that does not fit. */
  function Stop(fb: seq<bool>, drop: seq<bool>, ls: seq<Layer>, s: nat, k: nat): (r: nat)
    requires |fb| == |drop| == |ls| && s <= k <= |fb|
    ensures k <= r <= |fb|
    ensures r < |fb| ==> Batched(fb, drop, r) && !Joinable(fb, drop, ls, s, r)
    ensures forall j :: k <= j < r && Batched(fb, drop, j) ==> Joinable(fb, drop, ls, s, j)
    decreases |fb| - k
  {
    if k == |fb| || (Batched(fb, drop, k) && !Joinable(fb, drop, ls, s, k)) then k else Stop(fb, drop, ls, s, k + 1)
  }

  /** FB layer k lies over an MDP layer of a batch that starts at s. */
  predicate IsOver(fb: seq<bool>, drop: seq<bool>, ls: seq<Layer>, s: nat, k: nat)
    requires |fb| == |drop| == |ls| && s <= k < |fb|
  {
    Batched(fb, drop, k) && IntersectsUpdating(fb, ls, s, k - 1, k)
  }

  /** The first FB layer from k up that lies over an MDP layer of the batch. */
  function FirstOver(fb: seq<bool>, drop: seq<bool>, ls: seq<Layer>, s: nat, k: nat): (r: nat)
    requires |fb| == |drop| == |ls| && s <= k <= |fb|
    ensures k <= r <= |fb|
    ensures r < |fb| ==> IsOver(fb, drop, ls, s, r)
    ensures forall j :: k <= j < r ==> !IsOver(fb, drop, ls, s, j)
    decreases |fb| - k
  {
    if k == |fb| || IsOver(fb, drop, ls, s, k) then k else FirstOver(fb, drop, ls, s, k + 1)
  }

  /** The first layer from s up that is not dropped. */
  function Lead(fb: seq<bool>, drop: seq<bool>, s: nat): (r: nat)
    requires |fb| == |drop| && s <= |fb|
    ensures s <= r <= |fb|
    ensures r < |fb| ==> !fb[r] || !drop[r]
    ensures forall j :: s <= j < r ==> fb[j] && drop[j]
    decreases |fb| - s
  {
    if s == |fb| || !fb[s] || !drop[s] then s else Lead(fb, drop, s + 1)
  }

  /** An MDP layer comes first, and no batch starts here. */
  predicate Fruitless(fb: seq<bool>, drop: seq<bool>, s: nat)
    requires |fb| == |drop| && s <= |fb|
  {
    Lead(fb, drop, s) < |fb| && !fb[Lead(fb, drop, s)]
  }

  /** The size of the batch that starts at s: all FB layers up to the first one that does not fit. */
  function Size(fb: seq<bool>, drop: seq<bool>, ls: seq<Layer>, s: nat): nat
    requires |fb| == |drop| == |ls| && s <= |fb|
  {
    if Fruitless(fb, drop, s) then 0 else FbCount(fb, drop, s, Stop(fb, drop, ls, s, s))
  }

  /** Where the search goes on: behind an MDP layer, or, after a batch that could not go on to the
      end, at the first layer that lies over an MDP layer of it. */
  function NextStart(fb: seq<bool>, drop: seq<bool>, ls: seq<Layer>, s: nat): (r: nat)
    requires |fb| == |drop| == |ls| && s < |fb|
    ensures s < r <= |fb|
  {
    if Fruitless(fb, drop, s) then Lead(fb, drop, s) + 1
    else if Stop(fb, drop, ls, s, s) == |fb| then |fb|
    else FirstOver(fb, drop, ls, s, s)
  }

  // ------------------------------------------------------------------ one batch

  /** What the loop variables mean. */
  ghost predicate Sized(fb: seq<bool>, drop: seq<bool>, ls: seq<Layer>, g: Growth, cut: nat)
    requires |fb| == |drop| == |ls|
  {
    && Growing(g, |fb|)
    && var s := g.b.start;
    && s <= cut <= g.i && g.above == MdpCount(fb, cut, g.i) && g.b.count == FbCount(fb, drop, s, g.i)
    && (cut == s || (cut < g.i && CanPush(fb, drop, ls, s, cut)))
    && (if g.b.count == 0 then forall k :: s <= k < g.i ==> fb[k] && drop[k] else !Fruitless(fb, drop, s))
    && (forall k :: s <= k < g.i && Batched(fb, drop, k) ==> Joinable(fb, drop, ls, s, k))
    && (if g.firstZReverse < 0 then cut == s && NoneOver(fb, drop, ls, s, g.i)
        else g.firstZReverse < g.i && IsOver(fb, drop, ls, s, g.firstZReverse) && NoneOver(fb, drop, ls, s, g.firstZReverse))
  }

  predicate NoneOver(fb: seq<bool>, drop: seq<bool>, ls: seq<Layer>, s: nat, hi: nat)
    requires |fb| == |drop| == |ls| && hi <= |fb|
  {
    forall k :: s <= k < hi ==> !IsOver(fb, drop, ls, s, k)
  }

  lemma {:induction false} MdpNone(fb: seq<bool>, lo: nat, hi: nat)
    requires hi <= |fb|
    ensures MdpCount(fb, lo, hi) == 0 <==> forall k :: lo <= k < hi ==> fb[k]
  {
    if lo < hi {
      MdpNone(fb, lo, hi - 1);
    }
  }

  /** With no MDP layer above the place of the FB the next layer fits. */
  lemma FitsFreely(fb: seq<bool>, drop: seq<bool>, ls: seq<Layer>, g: Growth, cut: nat)
    requires |fb| == |drop| == |ls| && Sized(fb, drop, ls, g, cut) && g.i < |fb| && Batched(fb, drop, g.i) && g.above == 0
    ensures Joinable(fb, drop, ls, g.b.start, g.i)
    ensures g.firstZReverse < 0 ==> !IntersectsUpdating(fb, ls, g.b.start, g.i - 1, g.i)
  {
    MdpNone(fb, cut, g.i);
    if cut != g.b.start {
      forall k | g.b.start <= k < g.i && fb[k] && !drop[k] ensures !IntersectsUpdating(fb, ls, k + 1, g.i, k) {
        if k < cut {
          assert !IntersectsUpdating(fb, ls, k + 1, cut, k);
        }
      }
    }
  }

  /** A layer joins exactly when it fits. */
  lemma JoinsWhenItFits(fb: seq<bool>, drop: seq<bool>, ls: seq<Layer>, g: Growth, cut: nat)
    requires |fb| == |drop| == |ls| && Sized(fb, drop, ls, g, cut) && g.i < |fb| && Batched(fb, drop, g.i)
    ensures Advance(fb, drop, ls, g).Continue? <==> Joinable(fb, drop, ls, g.b.start, g.i)
  {
    if g.above == 0 {
      FitsFreely(fb, drop, ls, g, cut);
    }
  }

  lemma JoinWithoutMove(fb: seq<bool>, drop: seq<bool>, ls: seq<Layer>, g: Growth, cut: nat)
    requires |fb| == |drop| == |ls| && Sized(fb, drop, ls, g, cut) && g.i < |fb| && Batched(fb, drop, g.i)
    requires g.above == 0 || !IntersectsUpdating(fb, ls, g.b.start, g.i - 1, g.i)
    ensures Sized(fb, drop, ls, g.(i := g.i + 1, b := g.b.(count := g.b.count + 1, end := g.i)), cut)
  {
    if g.above == 0 {
      FitsFreely(fb, drop, ls, g, cut);
    }
  }

  lemma JoinAtTop(fb: seq<bool>, drop: seq<bool>, ls: seq<Layer>, g: Growth, cut: nat)
    requires |fb| == |drop| == |ls| && Sized(fb, drop, ls, g, cut) && g.i < |fb| && Batched(fb, drop, g.i)
    requires g.above > 0 && IntersectsUpdating(fb, ls, g.b.start, g.i - 1, g.i) && CanPush(fb, drop, ls, g.b.start, g.i)
    ensures Sized(fb, drop, ls, Advance(fb, drop, ls, g).g, g.i)
  {
  }

  lemma PassOver(fb: seq<bool>, drop: seq<bool>, ls: seq<Layer>, g: Growth, cut: nat)
    requires |fb| == |drop| == |ls| && Sized(fb, drop, ls, g, cut) && g.i < |fb| && !Batched(fb, drop, g.i)
    requires Advance(fb, drop, ls, g).Continue?
    ensures Sized(fb, drop, ls, Advance(fb, drop, ls, g).g, cut)
  {
  }

  lemma TurnSized(fb: seq<bool>, drop: seq<bool>, ls: seq<Layer>, g: Growth, cut: nat) returns (cut': nat)
    requires |fb| == |drop| == |ls| && Sized(fb, drop, ls, g, cut) && g.i < |fb| && Advance(fb, drop, ls, g).Continue?
    ensures Sized(fb, drop, ls, Advance(fb, drop, ls, g).g, cut')
  {
    cut' := cut;
    if !Batched(fb, drop, g.i) {
      PassOver(fb, drop, ls, g, cut);
    } else if g.above == 0 || !IntersectsUpdating(fb, ls, g.b.start, g.i - 1, g.i) {
      JoinWithoutMove(fb, drop, ls, g, cut);
    } else {
      JoinAtTop(fb, drop, ls, g, cut);
      cut' := g.i;
    }
  }

  lemma {:induction false} StopFrom(fb: seq<bool>, drop: seq<bool>, ls: seq<Layer>, s: nat, k: nat)
    requires |fb| == |drop| == |ls| && s <= k <= |fb|
    requires forall j :: s <= j < k && Batched(fb, drop, j) ==> Joinable(fb, drop, ls, s, j)
    ensures Stop(fb, drop, ls, s, s) == Stop(fb, drop, ls, s, k)
  {
    if s < k {
      StopFrom(fb, drop, ls, s, k - 1);
    }
  }

  lemma LeadIs(fb: seq<bool>, drop: seq<bool>, s: nat, k: nat)
    requires |fb| == |drop| && s <= k <= |fb| && (forall j :: s <= j < k ==> fb[j] && drop[j])
    requires k < |fb| ==> !(fb[k] && drop[k])
    ensures Lead(fb, drop, s) == k
  {
  }

  lemma FirstOverIs(fb: seq<bool>, drop: seq<bool>, ls: seq<Layer>, s: nat, k: nat)
    requires |fb| == |drop| == |ls| && s <= k < |fb| && IsOver(fb, drop, ls, s, k) && NoneOver(fb, drop, ls, s, k)
    ensures FirstOver(fb, drop, ls, s, s) == k
  {
  }

  /** The turn that ends a batch. */
  lemma EndsAsTold(fb: seq<bool>, drop: seq<bool>, ls: seq<Layer>, g: Growth, cut: nat)
    requires |fb| == |drop| == |ls| && Sized(fb, drop, ls, g, cut) && g.i < |fb| && Advance(fb, drop, ls, g).Break?
    ensures
      var r, s := Advance(fb, drop, ls, g).g, g.b.start;
      r.b == g.b && r.b.count == Size(fb, drop, ls, s) && r.i == NextStart(fb, drop, ls, s)
  {
    var s := g.b.start;
    if !fb[g.i] {
      LeadIs(fb, drop, s, g.i);
    } else {
      JoinsWhenItFits(fb, drop, ls, g, cut);
      StopFrom(fb, drop, ls, s, g.i);
      FirstOverIs(fb, drop, ls, s, if g.firstZReverse >= 0 then g.firstZReverse else g.i);
    }
  }

  lemma AtTheEnd(fb: seq<bool>, drop: seq<bool>, ls: seq<Layer>, g: Growth, cut: nat)
    requires |fb| == |drop| == |ls| && Sized(fb, drop, ls, g, cut) && g.i == |fb| > g.b.start
    ensures g.b.count == Size(fb, drop, ls, g.b.start) && g.i == NextStart(fb, drop, ls, g.b.start)
  {
    StopFrom(fb, drop, ls, g.b.start, g.i);
    if g.b.count == 0 {
      LeadIs(fb, drop, g.b.start, g.i);
    }
  }

  lemma {:induction false} GrowAsTold(fb: seq<bool>, drop: seq<bool>, ls: seq<Layer>, g: Growth, cut: nat)
    requires |fb| == |drop| == |ls| && Sized(fb, drop, ls, g, cut) && g.b.start < |fb|
    ensures
      var r, s := Grow(fb, drop, ls, g), g.b.start;
      r.b.start == s && r.b.count == Size(fb, drop, ls, s) && r.i == NextStart(fb, drop, ls, s)
    decreases |fb| - g.i
  {
    if g.i == |fb| {
      AtTheEnd(fb, drop, ls, g, cut);
    } else if Advance(fb, drop, ls, g).Continue? {
      var cut' := TurnSized(fb, drop, ls, g, cut);
      GrowAsTold(fb, drop, ls, Advance(fb, drop, ls, g).g, cut');
    } else {
      EndsAsTold(fb, drop, ls, g, cut);
    }
  }

  /** The batch that grows from s: its size, and where the next one starts. */
  lemma BatchFrom(fb: seq<bool>, drop: seq<bool>, ls: seq<Layer>, s: nat, dropped: nat)
    requires |fb| == |drop| == |ls| && s < |fb|
    ensures
      var r := Grow(fb, drop, ls, NewBatch(s, dropped));
      r.b.start == s && r.b.count == Size(fb, drop, ls, s) && r.i == NextStart(fb, drop, ls, s)
  {
    GrowAsTold(fb, drop, ls, NewBatch(s, dropped), s);
  }

  // ------------------------------------------------------------------ the search

  /** A batch is tried at t when the search stands at s. */
  ghost predicate Tried(fb: seq<bool>, drop: seq<bool>, ls: seq<Layer>, s: nat, t: nat)
    requires |fb| == |drop| == |ls| && s <= |fb|
    decreases |fb| - s
  {
    s < |fb| && (s == t || Tried(fb, drop, ls, NextStart(fb, drop, ls, s), t))
  }

  lemma {:induction false} TriedFrom(fb: seq<bool>, drop: seq<bool>, ls: seq<Layer>, s: nat, t: nat)
    requires |fb| == |drop| == |ls| && s <= |fb| && Tried(fb, drop, ls, s, t)
    ensures s <= t < |fb|
    decreases |fb| - s
  {
    if s != t {
      TriedFrom(fb, drop, ls, NextStart(fb, drop, ls, s), t);
    }
  }

  /** b is the largest of the batches that are tried from s on and `best`, and the first such one. */
  ghost predicate Largest(fb: seq<bool>, drop: seq<bool>, ls: seq<Layer>, s: nat, best: Batch, b: Batch)
    requires |fb| == |drop| == |ls| && s <= |fb|
  {
    && b.count >= best.count
    && (forall t: nat :: Tried(fb, drop, ls, s, t) && t < |fb| ==> Size(fb, drop, ls, t) <= b.count)
    && (b != best ==>
          && b.count > best.count && 0 <= b.start < |fb|
          && Tried(fb, drop, ls, s, b.start) && Size(fb, drop, ls, b.start) == b.count
          && forall t: nat :: Tried(fb, drop, ls, s, t) && t < b.start ==> Size(fb, drop, ls, t) < b.count)
  }

  lemma {:induction false} SearchLargest(fb: seq<bool>, drop: seq<bool>, ls: seq<Layer>, s: nat, dropped: nat, best: Batch)
    requires |fb| == |drop| == |ls| && s <= |fb|
    ensures Largest(fb, drop, ls, s, best, Search(fb, drop, ls, s, dropped, best))
    decreases |fb| - s
  {
    if s < |fb| {
      BatchFrom(fb, drop, ls, s, dropped);
      var g := Grow(fb, drop, ls, NewBatch(s, dropped));
      var best' := if g.b.count > best.count then g.b else best;
      SearchLargest(fb, drop, ls, g.i, g.dropped, best');
      OneMoreTried(fb, drop, ls, s, best, g.b, Search(fb, drop, ls, s, dropped, best));
    }
  }

  lemma OneMoreTried(fb: seq<bool>, drop: seq<bool>, ls: seq<Layer>, s: nat, best: Batch, one: Batch, b: Batch)
    requires |fb| == |drop| == |ls| && s < |fb| && one.start == s && one.count == Size(fb, drop, ls, s)
    requires Largest(fb, drop, ls, NextStart(fb, drop, ls, s), if one.count > best.count then one else best, b)
    ensures Largest(fb, drop, ls, s, best, b)
  {
    var next := NextStart(fb, drop, ls, s);
    forall t: nat | Tried(fb, drop, ls, s, t) ensures s <= t < |fb| && (t == s || Tried(fb, drop, ls, next, t)) {
      TriedFrom(fb, drop, ls, s, t);
    }
    if b != one && b != best {
      TriedFrom(fb, drop, ls, next, b.start);
    }
  }

  /** getBatch returns the largest batch that it tries, and the first one among equals. */
  lemma BestBatch(fb: seq<bool>, drop: seq<bool>, ls: seq<Layer>)
    requires |fb| == |drop| == |ls|
    ensures Largest(fb, drop, ls, 0, NO_BATCH, Search(fb, drop, ls, 0, 0, NO_BATCH))
  {
    SearchLargest(fb, drop, ls, 0, 0, NO_BATCH);
  }

  lemma {:induction false} FbCountGrows(fb: seq<bool>, drop: seq<bool>, lo: nat, hi: nat, hi': nat)
    requires hi <= hi' <= |fb| == |drop|
    ensures FbCount(fb, drop, lo, hi) <= FbCount(fb, drop, lo, hi')
  {
    if hi < hi' {
      FbCountGrows(fb, drop, lo, hi, hi' - 1);
    }
  }

  /** So it has room for every stretch of FB layers that fit, from the first layer on or from any
      other place at which a batch is tried. */
  lemma BestBatchHolds(fb: seq<bool>, drop: seq<bool>, ls: seq<Layer>, s: nat, hi: nat)
    requires |fb| == |drop| == |ls| && s <= hi <= |fb|
    requires Tried(fb, drop, ls, 0, s) && s < |fb| && !Fruitless(fb, drop, s)
    requires forall k :: s <= k < hi && Batched(fb, drop, k) ==> Joinable(fb, drop, ls, s, k)
    ensures Search(fb, drop, ls, 0, 0, NO_BATCH).count >= FbCount(fb, drop, s, hi)
  {
    BestBatch(fb, drop, ls);
    var stop := Stop(fb, drop, ls, s, s);
    if stop < |fb| {
      assert stop >= hi;
    }
    FbCountGrows(fb, drop, s, hi, stop);
  }

  /** All FB layers go into one batch when they all fit; nothing but them is left to be cached. */
  lemma AllInOneBatch(fb: seq<bool>, drop: seq<bool>, ls: seq<Layer>)
    requires |fb| == |drop| == |ls| && fb != [] && !Fruitless(fb, drop, 0)
    ensures
      (forall k :: 0 <= k < |fb| && Batched(fb, drop, k) ==> Joinable(fb, drop, ls, 0, k)) ==>
        Search(fb, drop, ls, 0, 0, NO_BATCH).count == FbCount(fb, drop, 0, |fb|)
  {
    if forall k :: 0 <= k < |fb| && Batched(fb, drop, k) ==> Joinable(fb, drop, ls, 0, k) {
      BestBatchHolds(fb, drop, ls, 0, |fb|);
      if FbCount(fb, drop, 0, |fb|) > 0 {
        var cut := MarkedPlacement(fb, drop, ls);
        MarkedFewer(fb, drop, Search(fb, drop, ls, 0, 0, NO_BATCH), |fb|);
      } else {
        BestBatch(fb, drop, ls);
        NoneToCount(fb, drop, ls);
      }
    }
  }

  lemma {:induction false} MarkedFewer(fb: seq<bool>, drop: seq<bool>, b: Batch, n: nat)
    requires n <= |fb| == |drop|
    ensures FbCount(Marked(fb, drop, b), drop, 0, n) <= FbCount(fb, drop, 0, n)
  {
    if n > 0 {
      MarkedFewer(fb, drop, b, n - 1);
    }
  }

  lemma NoneToCount(fb: seq<bool>, drop: seq<bool>, ls: seq<Layer>)
    requires |fb| == |drop| == |ls| && FbCount(fb, drop, 0, |fb|) == 0
    requires Largest(fb, drop, ls, 0, NO_BATCH, Search(fb, drop, ls, 0, 0, NO_BATCH))
    ensures Search(fb, drop, ls, 0, 0, NO_BATCH).count == 0
  {
    var b := Search(fb, drop, ls, 0, 0, NO_BATCH);
    if b != NO_BATCH {
      var stop := Stop(fb, drop, ls, b.start, b.start);
      FbCountSplit(fb, drop, 0, b.start, stop);
      FbCountGrows(fb, drop, 0, stop, |fb|);
    }
  }
}

/** Frames on a screen of one row, for the concrete frames of DroppedRewind and UncountedLayers. */
module Strips {
  import opened Rects
  import opened Layers
  import opened Frames
  import opened RoiDrop
  import opened RoiGeneration

  /** A stretch of the row, with an unscaled buffer. */
  function Strip(left: int, right: int, blending: Blending): Layer {
    Layer(0, Rect(left, 0, right, 1), ToFRect(Rect(0, 0, right - left, 1)), NO_TRANSFORM, blending, 0xFF, false)
  }

  const NO_RESTRICTION := PanelAlign(Axis(0, 0, 0), Axis(0, 0, 0))

  /** A layer without reported damage updates as a whole, one with an empty damage rectangle does
      not update. */
  function Updates(list: seq<Layer>, updating: seq<bool>): (us: seq<Update>)
    requires |list| == |updating|
    ensures |us| == |list| && LayersOf(us) == list
    ensures forall i :: 0 <= i < |us| ==> us[i].layer == list[i] && us[i].Updating() == updating[i] && !us[i].yuv
    ensures forall i :: 0 <= i < |us| && us[i].Updating() ==> us[i].damage == []
  {
    var us := seq(|list|, i requires 0 <= i < |list| => Update(list[i], if updating[i] then [] else [ZERO_RECT], false));
    assert LayersOf(us) == list;
    us
  }

  lemma StripFits(left: int, right: int, blending: Blending)
    ensures
      var l := Strip(left, right, blending);
      l.frame == Rect(left, 0, right, 1) && !l.NeedsScaling() && (l.Opaque() <==> blending == None)
  {
  }

  // ------------------------------------------------------------------ one layer at a time

  lemma DirtyNext(us: seq<Update>, n: nat, screen: Rect)
    requires n < |us| && !us[n].yuv && (us[n].Updating() ==> us[n].damage == [])
    ensures DirtyUnion(us, n + 1, false, screen) ==
      if us[n].Updating() then GetUnion(DirtyUnion(us, n, false, screen), GetIntersection(us[n].layer.frame, screen))
      else DirtyUnion(us, n, false, screen)
  {
  }

  lemma ScanNext(ls: seq<Layer>, n: nat, vis: Rect)
    requires n < |ls| && vis.Valid() && !(ls[n].NeedsScaling() && GetIntersection(vis, ls[n].frame).Valid())
    ensures
      var res := GetIntersection(vis, ls[n].frame);
      Scan(ls[..n + 1], vis) ==
        if !res.Valid() then Extend(Scan(ls[..n], vis), true)
        else Extend(Scan(ls[..n], if ls[n].Opaque() then DeductRect(vis, res) else vis), false)
  {
    assert ls[..n + 1][..n] == ls[..n];
  }

  /** An unscaled layer in view that hides nothing. */
  ghost predicate Kept(l: Layer, vis: Rect) {
    vis.Valid() && GetIntersection(vis, l.frame).Valid() && !l.NeedsScaling() && !l.Opaque()
  }

  ghost predicate KeepsNext(ls: seq<Layer>, n: nat, vis: Rect)
    requires n < |ls|
  {
    Scan(ls[..n + 1], vis) == Extend(Scan(ls[..n], vis), false)
  }

  lemma ScanKept(ls: seq<Layer>, n: nat, vis: Rect)
    requires n < |ls| && Kept(ls[n], vis)
    ensures KeepsNext(ls, n, vis)
  {
    ScanNext(ls, n, vis);
  }

  /** A stretch of such layers. */
  lemma {:induction false} ScanAbove(ls: seq<Layer>, n: nat, m: nat, vis: Rect, drop: seq<bool>)
    requires n <= m <= |ls| && Scan(ls[..n], vis) == Keep(drop)
    requires forall k :: n <= k < m ==> KeepsNext(ls, k, vis)
    ensures Scan(ls[..m], vis) == Keep(drop + AllFalse(m - n))
  {
    if n == m {
      assert drop + AllFalse(0) == drop;
    } else {
      ScanAbove(ls, n, m - 1, vis, drop);
      assert KeepsNext(ls, m - 1, vis);
      assert drop + AllFalse(m - n) == (drop + AllFalse(m - 1 - n)) + [false];
    }
  }

  lemma CountNext(s: seq<bool>, n: nat)
    requires n < |s|
    ensures Count(s[..n + 1]) == Count(s[..n]) + (if s[n] then 1 else 0)
  {
    assert s[..n + 1][..n] == s[..n];
  }
}

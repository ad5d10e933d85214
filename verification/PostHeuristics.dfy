/** postHeuristicsHandling (hwc_mdpcomp.cpp): check the counters against the hardware, map
    layers to pipes and back, and give every pipe its z-order. */
module PostHeuristics {
  import opened Layers
  import opened Frames
  import opened Batching
  import opened ZOrder
  import opened PipeAccounting

  function RotCount(fb: seq<bool>, needsRot: seq<bool>, n: nat): nat
    requires n <= |fb| == |needsRot|
  {
    if n == 0 then 0 else RotCount(fb, needsRot, n - 1) + (if !fb[n - 1] && needsRot[n - 1] then 1 else 0)
  }

  /** The layers below n that go to MDP by way of a rotator session. */
  function Rotated(fb: seq<bool>, needsRot: seq<bool>, n: nat): set<nat>
    requires n <= |fb| == |needsRot|
  {
    set i: nat | i < n && !fb[i] && needsRot[i]
  }

  lemma {:induction false} RotCountIs(fb: seq<bool>, needsRot: seq<bool>, n: nat)
    requires n <= |fb| == |needsRot|
    ensures RotCount(fb, needsRot, n) == |Rotated(fb, needsRot, n)|
  {
    if n > 0 {
      RotCountIs(fb, needsRot, n - 1);
      var was := Rotated(fb, needsRot, n - 1);
      assert Rotated(fb, needsRot, n) == if !fb[n - 1] && needsRot[n - 1] then was + {n - 1} else was;
    }
  }

  /** The limits of the hardware. */
  datatype Limits = Limits(maxPipesPerMixer: nat, activeRotSessions: nat, maxRotSessions: nat)

  ghost predicate Resources(f: FrameInfo, needsRot: seq<bool>, lim: Limits)
    requires f.Valid() && |needsRot| == f.layerCount
    reads f, f.isFBComposed
  {
    && f.mdpCount + (if f.fbCount != 0 then 1 else 0) <= lim.maxPipesPerMixer
    && lim.activeRotSessions + RotCount(f.Fb(), needsRot, f.layerCount) <= lim.maxRotSessions
  }

  method ResourceCheck(f: FrameInfo, needsRot: seq<bool>, lim: Limits) returns (ok: bool)
    requires f.Valid() && |needsRot| == f.layerCount
    ensures ok <==> Resources(f, needsRot, lim)
  {
    var fbUsed := if f.fbCount != 0 then 1 else 0;
    if f.mdpCount > lim.maxPipesPerMixer - fbUsed {
      return false;
    }
    var rotCount := lim.activeRotSessions;
    for index := 0 to f.layerCount
      invariant rotCount == lim.activeRotSessions + RotCount(f.Fb(), needsRot, index)
    {
      if !f.isFBComposed[index] {
        if needsRot[index] {
          rotCount := rotCount + 1;
        }
      }
    }
    return rotCount <= lim.maxRotSessions;
  }

  // ------------------------------------------------------------------ layer <-> pipe

  /** toMdp and toLayer are inverses between the MDP layers below n and the pipes in use. */
  ghost predicate Inverse(fb: seq<bool>, toMdp: seq<int>, toLayer: seq<int>, n: nat) {
    && n <= |fb| <= |toMdp| && MdpCount(fb, 0, n) <= |toLayer|
    && (forall i :: 0 <= i < n && !fb[i] ==> PipeOf(fb, toMdp, toLayer, i))
    && (forall k :: 0 <= k < MdpCount(fb, 0, n) ==> LayerOf(fb, toMdp, toLayer, k, n))
  }

  /** Layer i has the pipe of its rank among the MDP layers, and that pipe shows layer i. */
  ghost predicate PipeOf(fb: seq<bool>, toMdp: seq<int>, toLayer: seq<int>, i: nat)
    requires i < |fb| <= |toMdp|
  {
    toMdp[i] == MdpCount(fb, 0, i) < |toLayer| && toLayer[toMdp[i]] == i
  }

  ghost predicate LayerOf(fb: seq<bool>, toMdp: seq<int>, toLayer: seq<int>, k: nat, n: nat)
    requires n <= |fb| <= |toMdp| && k < |toLayer|
  {
    0 <= toLayer[k] < n && !fb[toLayer[k]] && toMdp[toLayer[k]] == k
  }

  lemma {:induction false} RankGrows(fb: seq<bool>, i: nat, n: nat)
    requires i < n <= |fb| && !fb[i]
    ensures MdpCount(fb, 0, i) < MdpCount(fb, 0, n)
  {
    if i < n - 1 {
      RankGrows(fb, i, n - 1);
    }
  }

  lemma InverseStep(fb: seq<bool>, toMdp: seq<int>, toLayer: seq<int>, n: nat)
    requires Inverse(fb, toMdp, toLayer, n) && n < |fb| && !fb[n] && MdpCount(fb, 0, n) < |toLayer|
    ensures
      var r := MdpCount(fb, 0, n);
      Inverse(fb, toMdp[n := r], toLayer[r := n], n + 1)
  {
    var r := MdpCount(fb, 0, n);
    var toMdp', toLayer' := toMdp[n := r], toLayer[r := n];
    forall i | 0 <= i < n + 1 && !fb[i] ensures PipeOf(fb, toMdp', toLayer', i) {
      if i < n {
        RankGrows(fb, i, n);
        assert PipeOf(fb, toMdp, toLayer, i);
      }
    }
    var next := n + 1;
    forall k | 0 <= k < r + 1 ensures LayerOf(fb, toMdp', toLayer', k, next) {
      if k < r {
        assert LayerOf(fb, toMdp, toLayer, k, n);
      }
    }
  }

  lemma InverseSkip(fb: seq<bool>, toMdp: seq<int>, toLayer: seq<int>, n: nat)
    requires Inverse(fb, toMdp, toLayer, n) && n < |fb| && fb[n]
    ensures Inverse(fb, toMdp, toLayer, n + 1)
  {
    var next := n + 1;
    forall k | 0 <= k < MdpCount(fb, 0, n) ensures LayerOf(fb, toMdp, toLayer, k, next) {
      assert LayerOf(fb, toMdp, toLayer, k, n);
    }
  }

  ghost predicate Mapped(f: FrameInfo)
    requires f.Valid()
    reads f, f.isFBComposed, f.layerToMDP, f.listIndex
  {
    Inverse(f.Fb(), f.layerToMDP[..], f.listIndex[..], f.layerCount)
  }

  /** The maps keep the order of the list. */
  lemma MapsKeepOrder(f: FrameInfo, i: nat, j: nat)
    requires f.Valid() && Mapped(f)
    requires i < j < f.layerCount && !f.Fb()[i] && !f.Fb()[j]
    ensures f.layerToMDP[i] < f.layerToMDP[j]
  {
    RankGrows(f.Fb(), i, j);
    assert PipeOf(f.Fb(), f.layerToMDP[..], f.listIndex[..], i);
    assert PipeOf(f.Fb(), f.layerToMDP[..], f.listIndex[..], j);
  }

  /** FrameInfo::map.  The writes stay inside the arrays because no more layers are marked
      than there are pipes. */
  method Map(f: FrameInfo)
    requires f.Valid() && MdpCount(f.Fb(), 0, f.layerCount) <= MAX_PIPES_PER_MIXER
    modifies f.layerToMDP, f.listIndex
    ensures f.Valid() && Mapped(f)
  {
    ghost var fb := f.Fb();
    var mdpIdx := 0;
    for idx := 0 to f.layerCount
      modifies f.layerToMDP, f.listIndex
      invariant mdpIdx == MdpCount(fb, 0, idx)
      invariant Inverse(fb, f.layerToMDP[..], f.listIndex[..], idx)
    {
      assert fb[idx] == f.isFBComposed[idx];
      ghost var toMdp, toLayer := f.layerToMDP[..], f.listIndex[..];
      if !f.isFBComposed[idx] {
        RankGrows(fb, idx, f.layerCount);
        InverseStep(fb, toMdp, toLayer, idx);
        f.listIndex[mdpIdx] := idx;
        f.layerToMDP[idx] := mdpIdx;
        assert f.listIndex[..] == toLayer[mdpIdx := idx] && f.layerToMDP[..] == toMdp[idx := mdpIdx];
        mdpIdx := mdpIdx + 1;
      } else {
        InverseSkip(fb, toMdp, toLayer, idx);
      }
    }
    assert f.Fb() == fb;
  }

  // ------------------------------------------------------------------ z-orders

  /** The pipes of the MDP layers below n carry the z-orders of their layers. */
  ghost predicate ZAssigned(fb: seq<bool>, split: seq<bool>, fbZ: int, toMdp: seq<int>, z: seq<int>, n: nat) {
    && n <= |fb| == |split| && |fb| <= |toMdp|
    && forall i :: 0 <= i < n && !fb[i] ==> 0 <= toMdp[i] < |z| && z[toMdp[i]] == ZOf(fb, split, fbZ, i)
  }

  lemma ZAssignedStep(fb: seq<bool>, split: seq<bool>, fbZ: int, toMdp: seq<int>, toLayer: seq<int>, z: seq<int>, n: nat, m: nat)
    requires ZAssigned(fb, split, fbZ, toMdp, z, n) && Inverse(fb, toMdp, toLayer, m) && n < m && !fb[n]
    requires |toLayer| == |z|
    ensures 0 <= toMdp[n] < |z|
    ensures ZAssigned(fb, split, fbZ, toMdp, z[toMdp[n] := ZOf(fb, split, fbZ, n)], n + 1)
  {
    assert PipeOf(fb, toMdp, toLayer, n);
    forall i | 0 <= i < n && !fb[i] ensures toMdp[i] != toMdp[n] {
      assert PipeOf(fb, toMdp, toLayer, i);
    }
  }

  /** One MDP layer of the z-order loop: leave fbZ to the framebuffer, take the next stage. */
  method AssignZOrder(f: FrameInfo, split: seq<bool>, index: nat, mdpNextZOrder: nat) returns (next: nat)
    requires f.Valid() && Mapped(f) && |split| == f.layerCount && index < f.layerCount && !f.isFBComposed[index]
    requires mdpNextZOrder == NextZ(f.Fb(), split, f.fbZ, index)
    requires ZAssigned(f.Fb(), split, f.fbZ, f.layerToMDP[..], f.zOrder[..], index)
    modifies f.zOrder
    ensures next == ZOf(f.Fb(), split, f.fbZ, index) + 1
    ensures ZAssigned(f.Fb(), split, f.fbZ, f.layerToMDP[..], f.zOrder[..], index + 1)
  {
    ghost var fb, toMdp, z := f.Fb(), f.layerToMDP[..], f.zOrder[..];
    assert fb[index] == f.isFBComposed[index];
    ZAssignedStep(fb, split, f.fbZ, toMdp, f.listIndex[..], z, index, f.layerCount);
    var mdpIndex := f.layerToMDP[index];
    next := mdpNextZOrder;
    if next == f.fbZ {
      next := next + 1;
    }
    f.zOrder[mdpIndex] := next;
    assert f.zOrder[..] == z[mdpIndex := next];
    next := next + 1;
  }

  /** The layers below n that go to MDP could all be configured. */
  ghost predicate AllConfigured(fb: seq<bool>, configured: seq<bool>, n: nat) {
    n <= |fb| == |configured| && forall i :: 0 <= i < n && !fb[i] ==> configured[i]
  }

  /** The z-order loop; `configured` is the outcome of setting up each layer's pipes. */
  method AssignZOrders(f: FrameInfo, split: seq<bool>, configured: seq<bool>) returns (ok: bool)
    requires f.Valid() && Mapped(f) && |split| == |configured| == f.layerCount
    modifies f.zOrder
    ensures ok <==> AllConfigured(f.Fb(), configured, f.layerCount)
    ensures ok ==> ZAssigned(f.Fb(), split, f.fbZ, f.layerToMDP[..], f.zOrder[..], f.layerCount)
  {
    var mdpNextZOrder := 0;
    for index := 0 to f.layerCount
      modifies f.zOrder
      invariant mdpNextZOrder == NextZ(f.Fb(), split, f.fbZ, index)
      invariant AllConfigured(f.Fb(), configured, index)
      invariant ZAssigned(f.Fb(), split, f.fbZ, f.layerToMDP[..], f.zOrder[..], index)
    {
      assert f.Fb()[index] == f.isFBComposed[index];
      if !f.isFBComposed[index] {
        mdpNextZOrder := AssignZOrder(f, split, index, mdpNextZOrder);
        if !configured[index] {
          return false;
        }
        if split[index] {
          mdpNextZOrder := mdpNextZOrder + 1;
        }
      }
    }
    return true;
  }

  lemma {:induction false} NextZExact(fb: seq<bool>, split: seq<bool>, fbZ: int, i: nat)
    requires i <= |fb| == |split|
    ensures MdpCount(fb, 0, i) + SplitCount(fb, split, 0, i) <= NextZ(fb, split, fbZ, i)
         <= MdpCount(fb, 0, i) + SplitCount(fb, split, 0, i) + (if fbZ >= 0 then 1 else 0)
    ensures NextZ(fb, split, fbZ, i) <= fbZ ==> NextZ(fb, split, fbZ, i) == MdpCount(fb, 0, i) + SplitCount(fb, split, 0, i)
  {
    if i > 0 {
      NextZExact(fb, split, fbZ, i - 1);
    }
  }

  /** With the FB in use, a frame that passes the resource check uses mixer stages only. */
  lemma StagesFit(f: FrameInfo, split: seq<bool>, needsRot: seq<bool>, lim: Limits, i: nat)
    requires f.Valid() && |split| == |needsRot| == f.layerCount && Resources(f, needsRot, lim)
    requires f.fbZ >= 0 && f.fbCount != 0
    requires f.mdpCount >= MdpCount(f.Fb(), 0, f.layerCount) + SplitCount(f.Fb(), split, 0, f.layerCount)
    requires i < f.layerCount && !f.Fb()[i]
    ensures ZOf(f.Fb(), split, f.fbZ, i) + (if split[i] then 1 else 0) < lim.maxPipesPerMixer
  {
    NextZExact(f.Fb(), split, f.fbZ, f.layerCount);
    if i + 1 < f.layerCount {
      SlotsIncrease(f.Fb(), split, f.fbZ, i, f.layerCount - 1);
      NextZMonotone(f.Fb(), split, f.fbZ, f.layerCount - 1);
    }
  }

  lemma NextZMonotone(fb: seq<bool>, split: seq<bool>, fbZ: int, i: nat)
    requires i < |fb| == |split|
    ensures NextZ(fb, split, fbZ, i) <= NextZ(fb, split, fbZ, i + 1)
  {
  }

  /** With the FB in its place between `cut` layers and the rest: all stages are stages of the mixer if
      and only if there are as many as layers, split ones twice, and the FB. */
  lemma StagesFitIff(fb: seq<bool>, split: seq<bool>, cut: nat, stages: int)
    requires |fb| == |split| && cut <= |fb|
    ensures
      var fbZ := MdpCount(fb, 0, cut) + SplitCount(fb, split, 0, cut);
      MdpCount(fb, 0, |fb|) + SplitCount(fb, split, 0, |fb|) + 1 <= stages <==> fbZ < stages && InMixer(fb, split, fbZ, stages)
  {
    var fbZ := MdpCount(fb, 0, cut) + SplitCount(fb, split, 0, cut);
    NextZCounts(fb, split, cut, |fb|);
    CountsGrow(fb, split, cut, |fb|);
    InMixerIff(fb, split, fbZ, stages, |fb|);
  }

  /** Every stage of every MDP layer is one of the mixer's. */
  ghost predicate InMixer(fb: seq<bool>, split: seq<bool>, fbZ: int, stages: int)
    requires |fb| == |split|
  {
    InMixerBelow(fb, split, fbZ, stages, |fb|)
  }

  ghost predicate InMixerBelow(fb: seq<bool>, split: seq<bool>, fbZ: int, stages: int, n: nat)
    requires n <= |fb| == |split|
  {
    forall i :: 0 <= i < n && !fb[i] ==> ZOf(fb, split, fbZ, i) + (if split[i] then 1 else 0) < stages
  }

  /** The next free stage tells. */
  lemma {:induction false} InMixerIff(fb: seq<bool>, split: seq<bool>, fbZ: int, stages: int, n: nat)
    requires n <= |fb| == |split|
    ensures InMixerBelow(fb, split, fbZ, stages, n) <==> NextZ(fb, split, fbZ, n) == 0 || NextZ(fb, split, fbZ, n) <= stages
  {
    if n > 0 {
      InMixerIff(fb, split, fbZ, stages, n - 1);
      NextZMonotone(fb, split, fbZ, n - 1);
    }
  }

  /** The resource check by what it is for: a frame with the FB in its place passes it if and only if
      all stages are the mixer's and there are rotator sessions for all layers that need one. */
  lemma ResourcesIff(f: FrameInfo, split: seq<bool>, needsRot: seq<bool>, lim: Limits, cut: nat)
    requires f.Valid() && |split| == |needsRot| == f.layerCount && cut <= f.layerCount && f.fbCount != 0
    requires f.fbZ == MdpCount(f.Fb(), 0, cut) + SplitCount(f.Fb(), split, 0, cut)
    requires f.mdpCount == MdpCount(f.Fb(), 0, f.layerCount) + SplitCount(f.Fb(), split, 0, f.layerCount)
    ensures Resources(f, needsRot, lim) <==>
      && f.fbZ < lim.maxPipesPerMixer && InMixer(f.Fb(), split, f.fbZ, lim.maxPipesPerMixer)
      && lim.activeRotSessions + |Rotated(f.Fb(), needsRot, f.layerCount)| <= lim.maxRotSessions
  {
    StagesFitIff(f.Fb(), split, cut, lim.maxPipesPerMixer);
    RotCountIs(f.Fb(), needsRot, f.layerCount);
  }

  /** And a frame without the FB and without split layers, too. */
  lemma ResourcesWithoutFbIff(f: FrameInfo, split: seq<bool>, needsRot: seq<bool>, lim: Limits)
    requires f.Valid() && |split| == |needsRot| == f.layerCount && f.fbCount == 0 && f.fbZ == -1
    requires f.mdpCount == MdpCount(f.Fb(), 0, f.layerCount) && SplitCount(f.Fb(), split, 0, f.layerCount) == 0
    ensures Resources(f, needsRot, lim) <==>
      && InMixer(f.Fb(), split, -1, lim.maxPipesPerMixer)
      && lim.activeRotSessions + |Rotated(f.Fb(), needsRot, f.layerCount)| <= lim.maxRotSessions
  {
    StagesWithoutFb(f.Fb(), split);
    InMixerIff(f.Fb(), split, -1, lim.maxPipesPerMixer, f.layerCount);
    RotCountIs(f.Fb(), needsRot, f.layerCount);
  }

  /** Without an FB stage mdpCount is not adjusted for split layers, and the stages that are
      taken exceed it by exactly their number. */
  lemma StagesWithoutFb(fb: seq<bool>, split: seq<bool>)
    requires |fb| == |split|
    ensures NextZ(fb, split, -1, |fb|) == MdpCount(fb, 0, |fb|) + SplitCount(fb, split, 0, |fb|)
  {
    NextZExact(fb, split, -1, |fb|);
  }

  /** Four layers for MDP, one of them split: mdpCount passes the resource check of a mixer of four
      stages, and the top layer is given a fifth one. */
  lemma FifthStage()
    ensures
      var fb, split := AllFalse(4), [true, false, false, false];
      MdpCount(fb, 0, 4) == 4 == MAX_PIPES_PER_MIXER && ZOf(fb, split, -1, 3) == 4
  {
    var fb, split := AllFalse(4), [true, false, false, false];
    assert MdpCount(fb, 0, 2) == 2;
    assert NextZ(fb, split, -1, 1) == 2;
    assert NextZ(fb, split, -1, 2) == 3;
  }

  /** The whole step, with the answers of the parts outside the model as inputs. */
  method PostHeuristicsHandling(f: FrameInfo, split: seq<bool>, needsRot: seq<bool>, lim: Limits, hwOk: bool, fbConfigured: bool,
                                pipesAllocated: bool, configured: seq<bool>) returns (ok: bool)
    requires f.Valid() && |split| == |needsRot| == |configured| == f.layerCount
    requires f.mdpCount >= MdpCount(f.Fb(), 0, f.layerCount)
    requires lim.maxPipesPerMixer <= MAX_PIPES_PER_MIXER
    modifies f.layerToMDP, f.listIndex, f.zOrder
    ensures f.Valid()
    ensures ok ==> Resources(f, needsRot, lim) && Mapped(f)
    ensures ok ==> ZAssigned(f.Fb(), split, f.fbZ, f.layerToMDP[..], f.zOrder[..], f.layerCount)
    ensures ok <==> Resources(f, needsRot, lim) && hwOk && (f.fbZ >= 0 ==> fbConfigured) && pipesAllocated &&
                    AllConfigured(f.Fb(), configured, f.layerCount)
  {
    ok := ResourceCheck(f, needsRot, lim);
    if !ok || !hwOk {
      return false;
    }
    if f.fbZ >= 0 {
      if !fbConfigured {
        return false;
      }
    }
    Map(f);
    if !pipesAllocated {
      return false;
    }
    ok := AssignZOrders(f, split, configured);
  }
}

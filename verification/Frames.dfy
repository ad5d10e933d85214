/** MDPComp::FrameInfo (hwc_mdpcomp.h): the per-frame record that every composition strategy
    fills in, with its fixed-size arrays. */
module Frames {

  const MAX_NUM_APP_LAYERS := 32
  /** Stages of one mixer; the header that defines it is not part of the repository. */
  const MAX_PIPES_PER_MIXER := 4

  /** How many entries of s are true. */
  function Count(s: seq<bool>): (n: nat)
    ensures n <= |s|
  {
    if s == [] then 0 else Count(s[..|s| - 1]) + (if s[|s| - 1] then 1 else 0)
  }

  function AllTrue(n: nat): (r: seq<bool>)
    ensures |r| == n
  {
    seq(n, _ => true)
  }

  function AllFalse(n: nat): (r: seq<bool>)
    ensures |r| == n
  {
    seq(n, _ => false)
  }

  class FrameInfo {
    var layerCount: nat
    const layerToMDP: array<int>
    var mdpCount: int
    /** Per pipe: the layer it shows and the z-order it is given. */
    const listIndex: array<int>
    const zOrder: array<int>
    var fbCount: int
    const isFBComposed: array<bool>
    var dropCount: int
    const drop: array<bool>
    var needsRedraw: bool
    var fbZ: int

    ghost predicate Valid()
      reads this
    {
      && layerCount <= MAX_NUM_APP_LAYERS
      && isFBComposed.Length == drop.Length == layerToMDP.Length == MAX_NUM_APP_LAYERS
      && listIndex.Length == zOrder.Length == MAX_PIPES_PER_MIXER
      && isFBComposed != drop && listIndex != zOrder
      && layerToMDP != listIndex && layerToMDP != zOrder
    }

    /** isFBComposed and drop of the layers in use. */
    ghost function Fb(): seq<bool>
      requires Valid()
      reads this, isFBComposed
    {
      isFBComposed[..layerCount]
    }

    ghost function Drops(): seq<bool>
      requires Valid()
      reads this, drop
    {
      drop[..layerCount]
    }

    constructor ()
      ensures Valid() && layerCount == 0
      ensures fresh(isFBComposed) && fresh(drop) && fresh(layerToMDP) && fresh(listIndex) && fresh(zOrder)
    {
      layerToMDP := new int[MAX_NUM_APP_LAYERS];
      listIndex := new int[MAX_PIPES_PER_MIXER];
      zOrder := new int[MAX_PIPES_PER_MIXER];
      isFBComposed := new bool[MAX_NUM_APP_LAYERS];
      drop := new bool[MAX_NUM_APP_LAYERS];
      layerCount, mdpCount, fbCount, dropCount := 0, 0, 0, 0;
      needsRedraw, fbZ := true, -1;
    }

    /** FrameInfo::reset: everything to the framebuffer; the drop flags are not touched. */
    method Reset(numLayers: nat)
      requires Valid() && numLayers <= MAX_NUM_APP_LAYERS
      modifies this, isFBComposed, layerToMDP, listIndex, zOrder
      ensures Valid()
      ensures layerCount == fbCount == numLayers && mdpCount == 0 && needsRedraw && fbZ == -1
      ensures dropCount == old(dropCount)
      ensures Fb() == AllTrue(numLayers)
      ensures forall i :: 0 <= i < layerToMDP.Length ==> layerToMDP[i] == -1
    {
      forall i | 0 <= i < listIndex.Length { listIndex[i] := 0; }
      forall i | 0 <= i < zOrder.Length { zOrder[i] := 0; }
      forall i | 0 <= i < layerToMDP.Length { layerToMDP[i] := -1; }
      forall i | 0 <= i < isFBComposed.Length { isFBComposed[i] := true; }
      layerCount, fbCount, mdpCount := numLayers, numLayers, 0;
      needsRedraw, fbZ := true, -1;
    }

    /** memset(&drop, 0): no layer is dropped. */
    method ClearDrops()
      requires Valid()
      modifies this`dropCount, drop
      ensures Valid() && dropCount == 0
      ensures forall i :: 0 <= i < drop.Length ==> !drop[i]
    {
      forall i | 0 <= i < drop.Length { drop[i] := false; }
      dropCount := 0;
    }
  }

  lemma {:induction false} CountNone(s: seq<bool>)
    ensures Count(s) == 0 <==> forall i :: 0 <= i < |s| ==> !s[i]
  {
    if s != [] {
      CountNone(s[..|s| - 1]);
      assert forall i :: 0 <= i < |s| - 1 ==> s[i] == s[..|s| - 1][i];
    }
  }
}

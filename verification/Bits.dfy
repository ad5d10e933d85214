/** Bit masks as numbers: the few operations that the framebuffer slots need. */
module Bits {

  function Pow2(n: nat): (p: nat)
    ensures p > 0
  {
    if n == 0 then 1 else 2 * Pow2(n - 1)
  }

  /** (mask >> i) & 1 */
  predicate Bit(mask: nat, i: nat) {
    if i == 0 then mask % 2 == 1 else Bit(mask / 2, i - 1)
  }

  /** mask | (1 << i) */
  function SetBit(mask: nat, i: nat): nat {
    if i == 0 then mask / 2 * 2 + 1 else mask % 2 + 2 * SetBit(mask / 2, i - 1)
  }

  /** mask & ~(1 << i) */
  function ClearBit(mask: nat, i: nat): nat {
    if i == 0 then mask / 2 * 2 else mask % 2 + 2 * ClearBit(mask / 2, i - 1)
  }

  lemma {:induction false} SetBitBits(mask: nat, i: nat, k: nat)
    ensures Bit(SetBit(mask, i), k) <==> k == i || Bit(mask, k)
  {
    if i > 0 && k > 0 {
      SetBitBits(mask / 2, i - 1, k - 1);
    }
  }

  lemma {:induction false} ClearBitBits(mask: nat, i: nat, k: nat)
    ensures Bit(ClearBit(mask, i), k) <==> k != i && Bit(mask, k)
  {
    if i > 0 && k > 0 {
      ClearBitBits(mask / 2, i - 1, k - 1);
    }
  }

  /** The last bit and the others. */
  lemma Halved(mask: nat, half: nat)
    requires mask < 2 * half
    ensures mask == mask % 2 + 2 * (mask / 2) && mask / 2 < half
  {
  }

  lemma {:induction false} SetBitBound(mask: nat, i: nat, n: nat)
    requires mask < Pow2(n) && i < n
    ensures SetBit(mask, i) < Pow2(n)
  {
    var half := Pow2(n - 1);
    assert Pow2(n) == 2 * half;
    Halved(mask, half);
    if i > 0 {
      SetBitBound(mask / 2, i - 1, n - 1);
    }
  }

  lemma {:induction false} ClearBitLess(mask: nat, i: nat)
    ensures ClearBit(mask, i) <= mask
  {
    if i > 0 {
      ClearBitLess(mask / 2, i - 1);
    }
  }

  /** All n bits are set when the mask is as large as it can be, and one is not when it is smaller. */
  lemma {:induction false} FullBit(mask: nat, n: nat, i: nat)
    requires mask == Pow2(n) - 1 && i < n
    ensures Bit(mask, i)
  {
    assert Pow2(n) == 2 * Pow2(n - 1);
    if i > 0 {
      assert mask / 2 == Pow2(n - 1) - 1;
      FullBit(mask / 2, n - 1, i - 1);
    }
  }

  lemma {:induction false} ClearedBit(mask: nat, n: nat) returns (i: nat)
    requires mask < Pow2(n) - 1
    ensures i < n && !Bit(mask, i)
  {
    if mask % 2 == 0 {
      i := 0;
    } else {
      i := ClearedBit(mask / 2, n - 1);
      i := i + 1;
    }
  }
}

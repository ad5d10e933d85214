/** The framebuffer as a row of equal slots: gralloc_alloc_framebuffer_locked and the framebuffer
    branch of free_impl (gpu.cpp), over the mapping made in framebuffer.cpp. */
module FramebufferSlots {
  import opened Bits
  import opened Memory
  import opened Products

  const PAGE_SIZE := 4096

  /** private_handle_t, as far as the framebuffer goes. */
  datatype Handle = Handle(base: nat, offset: nat, size: nat)

  datatype Allocation =
    | InvalidUsage          // -EINVAL
    | OutOfMemory           // -ENOMEM
    | RegularBuffer         // not from the framebuffer at all
    | Allocated(handle: Handle)

  /** The quotient of an offset that is padded by ip. */
  lemma PaddedQuotient(offset: nat, i: nat, screen: nat, pad: nat, iscreen: nat, ip: nat)
    requires screen > 0 && iscreen == i * screen && ip == i * pad && offset == i * (screen + pad)
    ensures offset / screen == i <==> ip < screen
  {
    QuotientIs(offset, i, screen);
    Distribute(i, screen, pad);
  }

  class Module {
    /** Address of the mapping, bytes of one screen (finfo.line_length * info.yres). */
    const base: nat
    const screen: nat
    const numBuffers: nat
    var bufferMask: nat
    /** The framebuffer handles that have been given out and not freed. */
    ghost var live: set<Handle>

    /** A slot is a screen rounded up to whole pages. */
    const slotSize: nat

    function Offset(i: nat): nat {
      if i == 0 then 0 else Offset(i - 1) + slotSize
    }

    lemma {:induction false} OffsetIsProduct(i: nat)
      ensures Offset(i) == i * slotSize
    {
      if i > 0 {
        OffsetIsProduct(i - 1);
        Next(i - 1, slotSize);
      }
    }

    lemma {:induction false} OffsetsOrdered(i: nat, j: nat)
      requires i < j
      ensures Offset(i) + slotSize <= Offset(j)
    {
      if i < j - 1 {
        OffsetsOrdered(i, j - 1);
      }
    }

    function Slot(i: nat): Handle {
      Handle(base + Offset(i), Offset(i), slotSize)
    }

    /** The set bits are the slots of the live handles. */
    ghost predicate Valid()
      reads this
    {
      && 0 < screen <= slotSize && 1 <= numBuffers < 32 && bufferMask < Pow2(numBuffers)
      && (forall i: nat :: i < numBuffers ==> (Bit(bufferMask, i) <==> Slot(i) in live))
      && (forall h :: h in live ==> exists i: nat :: i < numBuffers && h == Slot(i))
    }

    constructor (base: nat, screen: nat, numBuffers: nat)
      requires screen > 0 && 1 <= numBuffers < 32
      ensures Valid() && live == {}
      ensures this.base == base && this.screen == screen && this.numBuffers == numBuffers
      ensures slotSize == Align(screen, PAGE_SIZE)
    {
      this.base, this.screen, this.numBuffers := base, screen, numBuffers;
      slotSize := Align(screen, PAGE_SIZE);
      bufferMask, live := 0, {};
      new;
      NoBits(numBuffers);
    }

    lemma SlotsDiffer(i: nat, j: nat)
      requires slotSize > 0 && Slot(i) == Slot(j)
      ensures i == j
    {
      if i < j {
        OffsetsOrdered(i, j);
      } else if j < i {
        OffsetsOrdered(j, i);
      }
    }

    /** gralloc_alloc_framebuffer_locked: the first free slot, and out of memory exactly when
        there is none. */
    method Alloc(heapFlags: bool, mapped: bool) returns (r: Allocation)
      requires Valid()
      modifies this
      ensures Valid()
      ensures r.InvalidUsage? <==> heapFlags || !mapped
      ensures r.RegularBuffer? <==> !heapFlags && mapped && numBuffers == 1
      ensures r.OutOfMemory? <==> !heapFlags && mapped && numBuffers > 1 && forall i: nat :: i < numBuffers ==> Slot(i) in old(live)
      ensures r.Allocated? ==>
        && r.handle !in old(live) && live == old(live) + {r.handle}
        && exists i: nat :: i < numBuffers && r.handle == Slot(i) && forall k: nat :: k < i ==> Slot(k) in old(live)
      ensures !r.Allocated? ==> live == old(live) && bufferMask == old(bufferMask)
    {
      if heapFlags || !mapped {
        return InvalidUsage;
      }
      if numBuffers == 1 {
        return RegularBuffer;
      }
      if bufferMask >= Pow2(numBuffers) - 1 {
        forall i: nat | i < numBuffers ensures Slot(i) in live {
          FullBit(bufferMask, numBuffers, i);
        }
        return OutOfMemory;
      }
      ghost var free := ClearedBit(bufferMask, numBuffers);
      var h := TakeSlot();
      return Allocated(h);
    }

    /** The handle of the first free slot, whose bit is set. */
    method TakeSlot() returns (h: Handle)
      requires Valid() && exists k: nat :: k < numBuffers && !Bit(bufferMask, k)
      modifies this
      ensures Valid() && h !in old(live) && live == old(live) + {h}
      ensures exists i: nat :: i < numBuffers && h == Slot(i) && forall k: nat :: k < i ==> Slot(k) in old(live)
    {
      var i, vaddr := FirstFree();
      bufferMask := SetBit(bufferMask, i);
      h := Handle(vaddr, vaddr - base, slotSize);
      live := live + {h};
      SetBitBound(old(bufferMask), i, numBuffers);
      forall k: nat | k < numBuffers ensures Bit(bufferMask, k) <==> Slot(k) in live {
        SetBitBits(old(bufferMask), i, k);
        if Slot(k) == Slot(i) {
          SlotsDiffer(k, i);
        }
      }
    }

    /** The search loop; it does not run out of slots when one is free. */
    method FirstFree() returns (i: nat, vaddr: nat)
      requires Valid() && exists k: nat :: k < numBuffers && !Bit(bufferMask, k)
      ensures i < numBuffers && !Bit(bufferMask, i) && vaddr == base + Offset(i)
      ensures forall k: nat :: k < i ==> Bit(bufferMask, k)
    {
      i, vaddr := 0, base;
      while i < numBuffers
        invariant i <= numBuffers && vaddr == base + Offset(i)
        invariant forall k: nat :: k < i ==> Bit(bufferMask, k)
      {
        if !Bit(bufferMask, i) {
          return;
        }
        vaddr := vaddr + slotSize;
        i := i + 1;
      }
    }

    /** The slot that free_impl takes a handle for: it divides by the size of a screen, not by the
        size of a slot. */
    function FreedSlot(h: Handle): nat
      requires screen > 0 && h.base >= base
    {
      (h.base - base) / screen
    }

    /** It is the right slot exactly when the padding of all slots before it is less than a
        screen. */
    lemma FreesOwnSlot(i: nat)
      requires 0 < screen <= slotSize
      ensures FreedSlot(Slot(i)) == i <==> i * (slotSize - screen) < screen
    {
      OffsetIsProduct(i);
      PaddedQuotient(Offset(i), i, screen, slotSize - screen, i * screen, i * (slotSize - screen));
    }

    /** A screen of 36 by 36 pixels, 5184 bytes, takes two pages: the third slot is freed as the
        fourth. */
    lemma SmallScreenLosesSlot()
      requires screen == 36 * 36 * 4 && slotSize == Align(screen, PAGE_SIZE)
      ensures slotSize == 8192 && FreedSlot(Slot(2)) == 3
    {
      assert Offset(1) == slotSize && Offset(2) == 2 * slotSize;
    }

    /** So it is for every slot, when the last one is. */
    lemma FreesAllSlots(i: nat)
      requires 0 < screen <= slotSize && i < numBuffers && (numBuffers - 1) * (slotSize - screen) < screen
      ensures FreedSlot(Slot(i)) == i
    {
      var pad := slotSize - screen;
      if i < numBuffers - 1 {
        Ordered(i, numBuffers - 1, pad);
      }
      FreesOwnSlot(i);
    }

    /** free_impl.  The bits go on telling which slots are live exactly when the slot computed is
        the handle's own; otherwise its slot stays taken for good. */
    method Free(h: Handle)
      requires Valid() && h in live
      modifies this
      ensures live == old(live) - {h}
      ensures exists i: nat :: i < numBuffers && h == Slot(i) && (Valid() <==> i * (slotSize - screen) < screen)
      ensures (numBuffers - 1) * (slotSize - screen) < screen ==> Valid()
    {
      ghost var i: nat :| i < numBuffers && h == Slot(i);
      FreesOwnSlot(i);
      if (numBuffers - 1) * (slotSize - screen) < screen {
        FreesAllSlots(i);
      }
      var index := (h.base - base) / screen;
      bufferMask := ClearBit(bufferMask, index);
      live := live - {h};
      Released(old(bufferMask), index, i, old(live));
    }

    lemma Released(mask: nat, index: nat, i: nat, was: set<Handle>)
      requires 0 < screen <= slotSize && 1 <= numBuffers < 32 && mask < Pow2(numBuffers)
      requires forall k: nat :: k < numBuffers ==> (Bit(mask, k) <==> Slot(k) in was)
      requires forall h :: h in was ==> exists k: nat :: k < numBuffers && h == Slot(k)
      requires i < numBuffers && Slot(i) in was && bufferMask == ClearBit(mask, index) && live == was - {Slot(i)}
      ensures Valid() <==> index == i
    {
      ClearBitLess(mask, index);
      ClearBitBits(mask, index, i);
      forall k: nat | index == i && k < numBuffers ensures Bit(bufferMask, k) <==> Slot(k) in live {
        ClearBitBits(mask, index, k);
        if Slot(k) == Slot(i) {
          SlotsDiffer(k, i);
        }
      }
    }

    /** Live handles do not overlap, and lie inside the mapping of numBuffers slots. */
    lemma LiveApart(g: Handle, h: Handle)
      requires Valid() && g in live && h in live && g != h
      ensures g.base + g.size <= h.base || h.base + h.size <= g.base
      ensures base <= h.base && h.base + h.size <= base + Offset(numBuffers)
    {
      var i: nat :| i < numBuffers && g == Slot(i);
      var j: nat :| j < numBuffers && h == Slot(j);
      if i < j {
        OffsetsOrdered(i, j);
      } else {
        OffsetsOrdered(j, i);
      }
      OffsetsOrdered(j, numBuffers);
    }
  }

  lemma {:induction false} NoBits(n: nat)
    ensures forall i: nat :: i < n ==> !Bit(0, i)
  {
    forall i: nat | i < n ensures !Bit(0, i) {
      ZeroBit(i);
    }
  }

  lemma {:induction false} ZeroBit(i: nat)
    ensures !Bit(0, i)
  {
    if i > 0 {
      ZeroBit(i - 1);
    }
  }
}

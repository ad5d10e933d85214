/** Byte buffers: memcpy and the alignment of sizes. */
module Memory {

  /** x rounded up to a multiple of n, as the ALIGN macros do for powers of two. */
  function Align(x: nat, n: nat): (r: nat)
    requires n > 0
    ensures x <= r < x + n
  {
    x + (n - 1) - (x + (n - 1)) % n
  }

  lemma Align16(x: nat, m: nat)
    requires 16 * m - 16 < x <= 16 * m
    ensures Align(x, 16) == 16 * m
  {
    assert (x + 15) % 16 == x + 15 - 16 * m;
  }

  lemma Align32(x: nat, k: nat)
    requires 32 * k - 32 < x <= 32 * k
    ensures Align(x, 32) == 32 * k
  {
    assert (x + 31) % 32 == x + 31 - 32 * k;
  }

  lemma Sixteenths(x: nat) returns (m: nat)
    ensures 16 * m - 16 < x <= 16 * m
  {
    m := (x + 15) / 16;
  }

  lemma Halves(m: nat) returns (k: nat)
    ensures m <= 2 * k <= m + 1
    ensures 16 * m % 32 == 0 <==> m == 2 * k
  {
    k := (m + 1) / 2;
  }

  lemma AlignOrder(x: nat)
    ensures x <= Align(x, 16) <= Align(x, 32)
    ensures Align(x, 32) == Align(x, 16) <==> Align(x, 16) % 32 == 0
  {
    var m := Sixteenths(x);
    var k := Halves(m);
    Align16(x, m);
    Align32(x, k);
  }

  /** `dst` after memcpy of len bytes. */
  function Pasted(dst: seq<bv8>, at: nat, src: seq<bv8>, from: nat, len: nat): (r: seq<bv8>)
    requires at + len <= |dst| && from + len <= |src|
    ensures |r| == |dst|
  {
    seq(|dst|, k requires 0 <= k < |dst| => if at <= k < at + len then src[from + (k - at)] else dst[k])
  }

  lemma PastedAt(dst: seq<bv8>, at: nat, src: seq<bv8>, from: nat, len: nat, k: nat)
    requires at + len <= |dst| && from + len <= |src| && k < |dst|
    ensures Pasted(dst, at, src, from, len)[k] == if at <= k < at + len then src[from + (k - at)] else dst[k]
  {
  }

  method MemCpy(dst: array<bv8>, at: nat, src: array<bv8>, from: nat, len: nat)
    requires dst != src && at + len <= dst.Length && from + len <= src.Length
    modifies dst
    ensures dst[..] == Pasted(old(dst[..]), at, src[..], from, len)
  {
    ghost var was := dst[..];
    forall k | at <= k < at + len { dst[k] := src[from + (k - at)]; }
    forall k: nat | k < dst.Length ensures dst[k] == Pasted(was, at, src[..], from, len)[k] {
      PastedAt(was, at, src[..], from, len, k);
    }
  }
}

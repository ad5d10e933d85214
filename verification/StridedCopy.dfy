/** Copies between the Android layout of a YUV image (rows of a multiple of 16 bytes) and the one
    of the c2d library (a multiple of 32): software_converter.cpp. */
module StridedCopy {
  import opened Memory

  // ------------------------------------------------------------------ rows

  /** Where row r of a plane starts. */
  function Row(base: nat, stride: nat, r: nat): nat {
    if r == 0 then base else Row(base, stride, r - 1) + stride
  }

  lemma {:induction false} RowIsProduct(base: nat, stride: nat, r: nat)
    ensures Row(base, stride, r) == base + r * stride
  {
    if r > 0 {
      RowIsProduct(base, stride, r - 1);
      assert (r - 1) * stride + stride == r * stride;
    }
  }

  lemma {:induction false} RowsApart(base: nat, stride: nat, q: nat, r: nat)
    requires q < r
    ensures Row(base, stride, q) + stride <= Row(base, stride, r)
  {
    if q + 1 < r {
      RowsApart(base, stride, q, r - 1);
    }
  }

  /** n rows of `len` bytes fit into a buffer. */
  ghost predicate Fits(size: nat, base: nat, stride: nat, n: nat, len: nat) {
    n > 0 ==> Row(base, stride, n - 1) + len <= size && Fits(size, base, stride, n - 1, len)
  }

  /** It takes no more than room for the last row. */
  lemma {:induction false} LastRowFits(size: nat, base: nat, stride: nat, n: nat, len: nat)
    ensures Fits(size, base, stride, n, len) <==> n == 0 || Row(base, stride, n - 1) + len <= size
  {
    if n > 0 {
      LastRowFits(size, base, stride, n - 1, len);
    }
  }

  lemma {:induction false} RowFits(size: nat, base: nat, stride: nat, n: nat, len: nat, r: nat)
    requires Fits(size, base, stride, n, len) && r < n
    ensures Row(base, stride, r) + len <= size
  {
    if r < n - 1 {
      RowFits(size, base, stride, n - 1, len, r);
    }
  }

  lemma {:induction false} FitsShorter(size: nat, base: nat, stride: nat, n: nat, len: nat, r: nat)
    requires Fits(size, base, stride, n, len) && r <= n
    ensures Fits(size, base, stride, r, len)
  {
    if r < n {
      FitsShorter(size, base, stride, n - 1, len, r);
    }
  }

  /** `dst` after the first n rows have been copied, one memcpy of `len` bytes each. */
  ghost function Rows(dst: seq<bv8>, d: nat, dStride: nat, src: seq<bv8>, s: nat, sStride: nat, n: nat, len: nat): (r: seq<bv8>)
    requires Fits(|dst|, d, dStride, n, len) && Fits(|src|, s, sStride, n, len)
    ensures |r| == |dst|
  {
    if n == 0 then
      dst
    else
      Pasted(Rows(dst, d, dStride, src, s, sStride, n - 1, len), Row(d, dStride, n - 1), src, Row(s, sStride, n - 1), len)
  }

  /** Copying rows byte for byte, each by one memcpy, in place. */
  method CopyRows(dst: array<bv8>, d: nat, dStride: nat, src: array<bv8>, s: nat, sStride: nat, n: nat, len: nat)
    requires dst != src
    requires Fits(dst.Length, d, dStride, n, len) && Fits(src.Length, s, sStride, n, len)
    modifies dst
    ensures dst[..] == Rows(old(dst[..]), d, dStride, src[..], s, sStride, n, len)
  {
    var from, to := s, d;
    ghost var was, bytes := dst[..], src[..];
    for i := 0 to n
      invariant to == Row(d, dStride, i) && from == Row(s, sStride, i)
      invariant Fits(dst.Length, d, dStride, i, len) && Fits(src.Length, s, sStride, i, len)
      invariant dst[..] == Rows(was, d, dStride, bytes, s, sStride, i, len)
    {
      FitsShorter(dst.Length, d, dStride, n, len, i + 1);
      FitsShorter(src.Length, s, sStride, n, len, i + 1);
      MemCpy(dst, to, src, from, len);
      from := from + sStride;
      to := to + dStride;
    }
  }

  /** The last row, byte by byte. */
  lemma LastRow(dst: seq<bv8>, d: nat, dStride: nat, src: seq<bv8>, s: nat, sStride: nat, n: nat, len: nat, k: nat)
    requires n > 0 && Fits(|dst|, d, dStride, n, len) && Fits(|src|, s, sStride, n, len) && k < |dst|
    ensures
      var at, from := Row(d, dStride, n - 1), Row(s, sStride, n - 1);
      && at + len <= |dst| && from + len <= |src|
      && Rows(dst, d, dStride, src, s, sStride, n, len)[k] ==
         if at <= k < at + len then src[from + (k - at)] else Rows(dst, d, dStride, src, s, sStride, n - 1, len)[k]
  {
    PastedAt(Rows(dst, d, dStride, src, s, sStride, n - 1, len), Row(d, dStride, n - 1), src, Row(s, sStride, n - 1), len, k);
  }

  /** A byte of a row is what was copied there, though the row before it may have spilled over
      it: a later row overwrites the spill.  Only the last row keeps its spill. */
  lemma {:induction false} RowByte(dst: seq<bv8>, d: nat, dStride: nat, src: seq<bv8>, s: nat, sStride: nat, n: nat, len: nat,
                                   r: nat, x: nat)
    requires Fits(|dst|, d, dStride, n, len) && Fits(|src|, s, sStride, n, len)
    requires r < n && x < len && (x < dStride || r == n - 1)
    ensures Row(d, dStride, r) + x < |dst| && Row(s, sStride, r) + x < |src|
    ensures Rows(dst, d, dStride, src, s, sStride, n, len)[Row(d, dStride, r) + x] == src[Row(s, sStride, r) + x]
  {
    if r < n - 1 {
      RowsApart(d, dStride, r, n - 1);
      RowByte(dst, d, dStride, src, s, sStride, n - 1, len, r, x);
    }
    LastRow(dst, d, dStride, src, s, sStride, n, len, Row(d, dStride, r) + x);
  }

  /** Bytes before the first row and behind the last are left alone. */
  lemma {:induction false} OutsideRows(dst: seq<bv8>, d: nat, dStride: nat, src: seq<bv8>, s: nat, sStride: nat, n: nat, len: nat,
                                       k: nat)
    requires Fits(|dst|, d, dStride, n, len) && Fits(|src|, s, sStride, n, len)
    requires k < |dst| && (k < d || n == 0 || k >= Row(d, dStride, n - 1) + len)
    ensures Rows(dst, d, dStride, src, s, sStride, n, len)[k] == dst[k]
  {
    if n > 0 {
      if n > 1 {
        RowsApart(d, dStride, n - 2, n - 1);
        RowsApart(d, dStride, 0, n - 1);
      }
      OutsideRows(dst, d, dStride, src, s, sStride, n - 1, len, k);
      LastRow(dst, d, dStride, src, s, sStride, n, len, k);
    }
  }

  // ------------------------------------------------------------------ the two planes

  datatype CopyInfo = CopyInfo(width: nat, height: nat, srcStride: nat, dstStride: nat, srcPlane1: nat, dstPlane1: nat)

  ghost predicate Room(i: CopyInfo, dst: nat, src: nat) {
    && Fits(dst, 0, i.dstStride, i.height, i.width)
    && Fits(src, 0, i.srcStride, i.height, i.width)
    && Fits(dst, i.dstPlane1, i.dstStride, i.height / 2, i.srcStride)
    && Fits(src, i.srcPlane1, i.srcStride, i.height / 2, i.srcStride)
  }

  /** Luma rows by their width, chroma rows by the whole stride of the source. */
  ghost function Copied(i: CopyInfo, dst: seq<bv8>, src: seq<bv8>): (r: seq<bv8>)
    requires Room(i, |dst|, |src|)
    ensures |r| == |dst|
  {
    Rows(Rows(dst, 0, i.dstStride, src, 0, i.srcStride, i.height, i.width),
         i.dstPlane1, i.dstStride, src, i.srcPlane1, i.srcStride, i.height / 2, i.srcStride)
  }

  method CopySourceToDestination(i: CopyInfo, src: array<bv8>, dst: array<bv8>)
    requires dst != src && Room(i, dst.Length, src.Length)
    modifies dst
    ensures dst[..] == Copied(i, old(dst[..]), src[..])
  {
    CopyRows(dst, 0, i.dstStride, src, 0, i.srcStride, i.height, i.width);
    CopyRows(dst, i.dstPlane1, i.dstStride, src, i.srcPlane1, i.srcStride, i.height / 2, i.srcStride);
  }

  /** Chroma does not reach into the luma of the destination. */
  ghost predicate PlanesApart(i: CopyInfo) {
    Fits(i.dstPlane1, 0, i.dstStride, i.height, i.width)
  }

  /** The chroma rows leave alone what lies before their plane. */
  lemma LumaKept(i: CopyInfo, luma: seq<bv8>, src: seq<bv8>, k: nat)
    requires Fits(|luma|, i.dstPlane1, i.dstStride, i.height / 2, i.srcStride)
    requires Fits(|src|, i.srcPlane1, i.srcStride, i.height / 2, i.srcStride)
    requires k < |luma| && k < i.dstPlane1
    ensures Rows(luma, i.dstPlane1, i.dstStride, src, i.srcPlane1, i.srcStride, i.height / 2, i.srcStride)[k] == luma[k]
  {
    OutsideRows(luma, i.dstPlane1, i.dstStride, src, i.srcPlane1, i.srcStride, i.height / 2, i.srcStride, k);
  }

  lemma LumaByte(i: CopyInfo, dst: seq<bv8>, src: seq<bv8>, r: nat, x: nat)
    requires Room(i, |dst|, |src|) && PlanesApart(i) && i.width <= i.dstStride && r < i.height && x < i.width
    ensures Row(0, i.dstStride, r) + x < |dst| && Row(0, i.srcStride, r) + x < |src|
    ensures Copied(i, dst, src)[Row(0, i.dstStride, r) + x] == src[Row(0, i.srcStride, r) + x]
  {
    var luma := Rows(dst, 0, i.dstStride, src, 0, i.srcStride, i.height, i.width);
    var k := Row(0, i.dstStride, r) + x;
    RowByte(dst, 0, i.dstStride, src, 0, i.srcStride, i.height, i.width, r, x);
    assert k < i.dstPlane1 by {
      RowFits(i.dstPlane1, 0, i.dstStride, i.height, i.width, r);
    }
    LumaKept(i, luma, src, k);
  }

  lemma ChromaByte(i: CopyInfo, dst: seq<bv8>, src: seq<bv8>, r: nat, x: nat)
    requires Room(i, |dst|, |src|) && r < i.height / 2 && x < i.srcStride && x < i.dstStride
    ensures Row(i.dstPlane1, i.dstStride, r) + x < |dst| && Row(i.srcPlane1, i.srcStride, r) + x < |src|
    ensures Copied(i, dst, src)[Row(i.dstPlane1, i.dstStride, r) + x] == src[Row(i.srcPlane1, i.srcStride, r) + x]
  {
    var luma := Rows(dst, 0, i.dstStride, src, 0, i.srcStride, i.height, i.width);
    RowByte(luma, i.dstPlane1, i.dstStride, src, i.srcPlane1, i.srcStride, i.height / 2, i.srcStride, r, x);
  }

  // ------------------------------------------------------------------ the two directions

  /** The formats the converters know; the others are refused. */
  datatype Format = SemiPlanar | Nv12Encodeable | Other

  /** The chroma plane follows the luma; for the encoder it starts at a multiple of 2048. */
  function Plane1(stride: nat, height: nat, format: Format): nat {
    if format == Nv12Encodeable then Align(Row(0, stride, height), 2048) else Row(0, stride, height)
  }

  function Info(width: nat, height: nat, srcStride: nat, dstStride: nat, format: Format): CopyInfo {
    CopyInfo(width, height, srcStride, dstStride, Plane1(srcStride, height, format), Plane1(dstStride, height, format))
  }

  /** `hndWidth` is the width the buffer was allocated with, `w` and `h` are those of the image. */
  function ToC2d(hndWidth: nat, w: nat, h: nat, format: Format): CopyInfo {
    Info(w, h, Align(hndWidth, 16), Align(w, 32), format)
  }

  function ToAndroid(w: nat, h: nat, format: Format): CopyInfo {
    Info(w, h, Align(w, 32), Align(w, 16), format)
  }

  method ConvertAndroidToC2d(src: array<bv8>, dst: array<bv8>, hndWidth: nat, w: nat, h: nat, format: Format) returns (ok: bool)
    requires format != Other ==> dst != src && Room(ToC2d(hndWidth, w, h, format), dst.Length, src.Length)
    modifies dst
    ensures ok == (format != Other)
    ensures dst[..] == if ok then Copied(ToC2d(hndWidth, w, h, format), old(dst[..]), src[..]) else old(dst[..])
  {
    if format == Other {
      return false;
    }
    CopySourceToDestination(ToC2d(hndWidth, w, h, format), src, dst);
    return true;
  }

  method ConvertC2dToAndroid(src: array<bv8>, dst: array<bv8>, w: nat, h: nat, format: Format) returns (ok: bool)
    requires format != Other ==> dst != src && Room(ToAndroid(w, h, format), dst.Length, src.Length)
    modifies dst
    ensures ok == (format != Other)
    ensures dst[..] == if ok then Copied(ToAndroid(w, h, format), old(dst[..]), src[..]) else old(dst[..])
  {
    if format == Other {
      return false;
    }
    CopySourceToDestination(ToAndroid(w, h, format), src, dst);
    return true;
  }

  /** Chroma starts behind the luma in either layout. */
  lemma LumaBeforeChroma(w: nat, h: nat, stride: nat, format: Format)
    requires w <= stride
    ensures Fits(Plane1(stride, h, format), 0, stride, h, w)
  {
    LastRowFits(Plane1(stride, h, format), 0, stride, h, w);
  }

  /** One copy after another: home reads what there has written. */
  ghost predicate Chained(there: CopyInfo, home: CopyInfo) {
    && there.width == home.width && there.height == home.height
    && there.dstStride == home.srcStride && there.dstPlane1 == home.srcPlane1
    && there.width <= home.dstStride <= there.dstStride
    && PlanesApart(there) && PlanesApart(home)
  }

  /** The bytes a, copied into a buffer m and from there into a buffer b. */
  ghost function Through(there: CopyInfo, home: CopyInfo, a: seq<bv8>, m: seq<bv8>, b: seq<bv8>): (r: seq<bv8>)
    requires Room(there, |m|, |a|) && Room(home, |b|, |m|)
    ensures |r| == |b|
  {
    Copied(home, b, Copied(there, m, a))
  }

  /** Byte x of row r returns, in the luma plane and in the chroma plane. */
  ghost predicate Returns(there: CopyInfo, home: CopyInfo, a: seq<bv8>, result: seq<bv8>, r: nat, x: nat) {
    && (r < there.height && x < there.width ==>
          SameByte(result, Row(0, home.dstStride, r) + x, a, Row(0, there.srcStride, r) + x))
    && (r < there.height / 2 && x < home.dstStride && x < there.srcStride ==>
          SameByte(result, Row(home.dstPlane1, home.dstStride, r) + x, a, Row(there.srcPlane1, there.srcStride, r) + x))
  }

  predicate SameByte(to: seq<bv8>, i: nat, from: seq<bv8>, k: nat) {
    i < |to| && k < |from| && to[i] == from[k]
  }

  lemma ThereAndBack(there: CopyInfo, home: CopyInfo, a: seq<bv8>, m: seq<bv8>, b: seq<bv8>, r: nat, x: nat)
    requires Chained(there, home) && Room(there, |m|, |a|) && Room(home, |b|, |m|)
    ensures Returns(there, home, a, Through(there, home, a, m, b), r, x)
  {
    if r < there.height && x < there.width {
      LumaByte(there, m, a, r, x);
      LumaByte(home, b, Copied(there, m, a), r, x);
    }
    if r < there.height / 2 && x < home.dstStride && x < there.srcStride {
      ChromaByte(there, m, a, r, x);
      ChromaByte(home, b, Copied(there, m, a), r, x);
    }
  }

  lemma InfosChain(s: nat, wide: nat, t: nat, w: nat, h: nat, format: Format)
    requires w <= t <= wide
    ensures Chained(Info(w, h, s, wide, format), Info(w, h, wide, t, format))
  {
    LumaBeforeChroma(w, h, t, format);
    LumaBeforeChroma(w, h, wide, format);
  }

  /** Android to c2d and back, by way of any buffers that are large enough: every luma byte of the
      image and every chroma byte of its rows returns, although a chroma row may be copied with
      more bytes than the stride of its destination, either way.  The buffers of the two ends may
      have been allocated with different widths, as long as the first is as wide as the image. */
  lemma RoundTrip(android: seq<bv8>, c2d: seq<bv8>, back: seq<bv8>, hndWidth: nat, w: nat, h: nat, format: Format, r: nat, x: nat)
    requires format != Other && Align(w, 16) <= Align(hndWidth, 16)
    requires Room(ToC2d(hndWidth, w, h, format), |c2d|, |android|) && Room(ToAndroid(w, h, format), |back|, |c2d|)
    ensures
      var there, home := ToC2d(hndWidth, w, h, format), ToAndroid(w, h, format);
      Returns(there, home, android, Through(there, home, android, c2d, back), r, x)
  {
    AlignOrder(w);
    InfosChain(Align(hndWidth, 16), Align(w, 32), Align(w, 16), w, h, format);
    ThereAndBack(ToC2d(hndWidth, w, h, format), ToAndroid(w, h, format), android, c2d, back, r, x);
  }

  /** Where row r of the chroma starts behind h rows of luma: for the encoder at the next multiple of
      2048, and otherwise at once. */
  function ChromaRow(stride: nat, h: nat, format: Format, r: nat): nat {
    (if format == Nv12Encodeable then Align(h * stride, 2048) else h * stride) + r * stride
  }

  /** Byte x of row r of the luma and of the chroma is the same in a buffer with rows of `d` bytes and
      in one with rows of `s` bytes. */
  ghost predicate SamePlace(to: seq<bv8>, d: nat, from: seq<bv8>, s: nat, h: nat, format: Format, r: nat, x: nat) {
    && (r < h ==> SameByte(to, r * d + x, from, r * s + x))
    && (r < h / 2 ==> SameByte(to, ChromaRow(d, h, format, r) + x, from, ChromaRow(s, h, format, r) + x))
  }

  lemma RowPlaces(stride: nat, h: nat, format: Format, r: nat)
    ensures Row(0, stride, r) == r * stride
    ensures Row(Plane1(stride, h, format), stride, r) == ChromaRow(stride, h, format, r)
  {
    RowIsProduct(0, stride, r);
    RowIsProduct(0, stride, h);
    RowIsProduct(Plane1(stride, h, format), stride, r);
  }

  lemma InfoBytes(dst: seq<bv8>, src: seq<bv8>, w: nat, h: nat, s: nat, d: nat, format: Format, r: nat, x: nat)
    requires w <= s && w <= d && Room(Info(w, h, s, d, format), |dst|, |src|) && x < w
    ensures SamePlace(Copied(Info(w, h, s, d, format), dst, src), d, src, s, h, format, r, x)
  {
    RowPlaces(s, h, format, r);
    RowPlaces(d, h, format, r);
    if r < h {
      LumaBeforeChroma(w, h, d, format);
      LumaByte(Info(w, h, s, d, format), dst, src, r, x);
    }
    if r < h / 2 {
      ChromaByte(Info(w, h, s, d, format), dst, src, r, x);
    }
  }

  /** Android to c2d with both layouts written out: rows of `hndWidth` rounded up to 16 become rows
      of the image's width rounded up to 32. */
  lemma C2dBytes(android: seq<bv8>, c2d: seq<bv8>, hndWidth: nat, w: nat, h: nat, format: Format, r: nat, x: nat)
    requires format != Other && w <= Align(hndWidth, 16) && Room(ToC2d(hndWidth, w, h, format), |c2d|, |android|) && x < w
    ensures
      SamePlace(Copied(ToC2d(hndWidth, w, h, format), c2d, android), Align(w, 32), android, Align(hndWidth, 16), h, format, r, x)
  {
    InfoBytes(c2d, android, w, h, Align(hndWidth, 16), Align(w, 32), format, r, x);
  }

  lemma ReturnsBytes(result: seq<bv8>, a: seq<bv8>, w: nat, h: nat, s: nat, wide: nat, d: nat, format: Format, r: nat, x: nat)
    requires x < w && w <= s && w <= d && Returns(Info(w, h, s, wide, format), Info(w, h, wide, d, format), a, result, r, x)
    ensures SamePlace(result, d, a, s, h, format, r, x)
  {
    RowPlaces(s, h, format, r);
    RowPlaces(d, h, format, r);
  }

  /** The round trip with both layouts written out. */
  lemma RoundTripBytes(android: seq<bv8>, c2d: seq<bv8>, back: seq<bv8>, hndWidth: nat, w: nat, h: nat, format: Format, r: nat, x: nat)
    requires format != Other && Align(w, 16) <= Align(hndWidth, 16) && x < w
    requires Room(ToC2d(hndWidth, w, h, format), |c2d|, |android|) && Room(ToAndroid(w, h, format), |back|, |c2d|)
    ensures
      var result := Through(ToC2d(hndWidth, w, h, format), ToAndroid(w, h, format), android, c2d, back);
      SamePlace(result, Align(w, 16), android, Align(hndWidth, 16), h, format, r, x)
  {
    RoundTrip(android, c2d, back, hndWidth, w, h, format, r, x);
    ReturnsBytes(Through(ToC2d(hndWidth, w, h, format), ToAndroid(w, h, format), android, c2d, back), android,
                 w, h, Align(hndWidth, 16), Align(w, 32), Align(w, 16), format, r, x);
  }

  /** The way back needs room behind the last row, exactly where the two strides differ: half of
      all widths, and there a buffer that ends with its last chroma row is too small. */
  lemma SlackNeeded(w: nat, h: nat, format: Format)
    requires format != Other && h >= 2
    ensures
      var home := ToAndroid(w, h, format);
      var end := Row(home.dstPlane1, home.dstStride, h / 2);
      Fits(end, home.dstPlane1, home.dstStride, h / 2, home.srcStride) <==> Align(w, 16) % 32 == 0
  {
    AlignOrder(w);
    SlackFor(Plane1(Align(w, 16), h, format), Align(w, 16), Align(w, 32), h / 2);
  }

  lemma SlackFor(base: nat, stride: nat, len: nat, n: nat)
    requires n > 0
    ensures Fits(Row(base, stride, n), base, stride, n, len) <==> len <= stride
  {
    LastRowFits(Row(base, stride, n), base, stride, n, len);
  }
}

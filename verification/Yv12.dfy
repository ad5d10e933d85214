/** convertYV12toYCrCb420SP (software_converter.cpp): the separate V and U planes of a YV12 image
    become one plane of V, U pairs, without the padding at the end of the rows. */
module Yv12 {
  import opened Memory
  import opened Products

  // ------------------------------------------------------------------ chroma planes

  /** Two chroma planes of `rows` rows of `half` samples, `cWidth` bytes a row, the U plane
      `cSize` bytes after the V plane. */
  datatype Planes = Planes(half: nat, rows: nat, cWidth: nat, cSize: nat) {
    /** The rows fit: a plane may go on after its last whole row. */
    ghost predicate Valid() {
      half <= cWidth && rows * cWidth <= cSize
    }

    function Samples(): nat {
      rows * half
    }
  }

  /** Where in its plane the n-th sample is, in raster order. */
  function At(p: Planes, n: nat): int
    requires p.half > 0
  {
    n / p.half * p.cWidth + n % p.half
  }

  /** Column c of row r is sample number r * half + c, and lies there in the plane. */
  lemma RasterOrder(p: Planes, r: nat, c: nat)
    requires p.Valid() && r < p.rows && c < p.half
    ensures 0 <= At(p, r * p.half + c) == r * p.cWidth + c < p.cSize
    ensures r * p.half + c < p.Samples()
  {
    var n := r * p.half + c;
    Unique(r, n / p.half, c, n % p.half, p.half);
    Times(0, r, p.cWidth);
    Times(r + 1, p.rows, p.cWidth);
    Next(r, p.cWidth);
    Times(r + 1, p.rows, p.half);
    Next(r, p.half);
  }

  /** The n-th pair of the new chroma plane holds the n-th V and U sample. */
  ghost predicate PairAt(p: Planes, chroma: seq<bv8>, planes: seq<bv8>, n: nat)
    requires p.half > 0
  {
    var at := At(p, n);
    && 2 * n + 1 < |chroma| && 0 <= at && p.cSize + at < |planes|
    && chroma[2 * n] == planes[at]
    && chroma[2 * n + 1] == planes[p.cSize + at]
  }

  /** Sample k of the two planes, counting the padding too, is pair k. */
  ghost predicate Zipped(cSize: nat, chroma: seq<bv8>, planes: seq<bv8>, k: nat) {
    && 2 * k + 1 < |chroma| && cSize + k < |planes|
    && chroma[2 * k] == planes[k]
    && chroma[2 * k + 1] == planes[cSize + k]
  }

  /** Without padding a plane holds its samples in raster order already. */
  lemma ZippedIsRaster(p: Planes, chroma: seq<bv8>, planes: seq<bv8>, n: nat)
    requires p.half > 0 && p.half == p.cWidth && Zipped(p.cSize, chroma, planes, n)
    ensures PairAt(p, chroma, planes, n)
  {
    assert At(p, n) == n;
  }

  // ------------------------------------------------------------------ the loops

  /** Without padding the planes are interleaved byte by byte, in the order they have. */
  method Interleave(dst: array<bv8>, src: array<bv8>, y: nat, cSize: nat)
    requires dst != src && y + 2 * cSize <= dst.Length && y + 2 * cSize <= src.Length
    modifies dst
    ensures forall k: nat :: k < cSize ==> Zipped(cSize, dst[y..], src[y..], k)
    ensures dst[..y] == old(dst[..y]) && dst[y + 2 * cSize..] == old(dst[y + 2 * cSize..])
  {
    ghost var planes := src[y..];
    for i := 0 to cSize
      invariant forall k: nat :: k < i ==> Zipped(cSize, dst[y..], planes, k)
      invariant dst[..y] == old(dst[..y]) && dst[y + 2 * cSize..] == old(dst[y + 2 * cSize..])
    {
      ghost var before := dst[y..];
      dst[y + 2 * i] := src[y + i];
      dst[y + (2 * i + 1)] := src[y + (i + cSize)];
      forall k: nat | k < i ensures Zipped(cSize, dst[y..], planes, k) {
        assert Zipped(cSize, before, planes, k);
      }
      assert Zipped(cSize, dst[y..], planes, i);
    }
  }

  /** Writing pair n leaves the pairs before it alone. */
  lemma PairsKept(p: Planes, before: seq<bv8>, after: seq<bv8>, planes: seq<bv8>, n: nat)
    requires p.half > 0 && |before| == |after| && 2 * n <= |before| && before[..2 * n] == after[..2 * n]
    requires forall k: nat :: k < n ==> PairAt(p, before, planes, k)
    ensures forall k: nat :: k < n ==> PairAt(p, after, planes, k)
  {
    forall k: nat | k < n ensures PairAt(p, after, planes, k) {
      assert PairAt(p, before, planes, k);
      assert before[..2 * n][2 * k] == after[2 * k] && before[..2 * n][2 * k + 1] == after[2 * k + 1];
    }
  }

  /** One V and one U byte to place r2, j of the destination, where a row has room for one more or
      for two; `n` is how many pairs there are already. */
  method PutPair(dst: array<bv8>, y: nat, width: nat, r2: nat, j: nat, v: bv8, u: bv8, ghost n: nat)
    returns (r: nat, c: nat)
    requires j < width && r2 * width + j == 2 * n && y + 2 * n + 2 <= dst.Length
    requires width >= 2
    modifies dst
    ensures dst[..y] == old(dst[..y]) && dst[y..][..2 * n] == old(dst[y..][..2 * n])
    ensures dst[y..][2 * n] == v && dst[y..][2 * n + 1] == u
    ensures dst[y + 2 * n + 2..] == old(dst[y + 2 * n + 2..])
    ensures r * width + c == 2 * n + 2 && c <= width
  {
    Next(r2, width);
    ghost var at := r2 * width;
    if j + 1 == width {
      dst[y + (r2 * width + j)] := v;
      r := r2 + 1;
      dst[y + r * width] := u;
      c := 1;
    } else {
      dst[y + (r2 * width + j)] := v;
      dst[y + (r2 * width + j + 1)] := u;
      r, c := r2, j + 2;
    }
  }

  /** The routine for padded rows: r1 and i follow the rows of the source, r2 and j those of the
      destination, which need not end where a pair ends. */
  method CopyUnpadded(dst: array<bv8>, src: array<bv8>, y: nat, width: nat, p: Planes)
    requires dst != src && p.Valid() && p.half == width / 2 && (p.rows == 0 || width >= 2)
    requires y + 2 * p.Samples() <= dst.Length && y + 2 * p.cSize <= src.Length
    modifies dst
    ensures width >= 2 ==> forall n: nat :: n < p.Samples() ==> PairAt(p, dst[y..], src[y..], n)
    ensures dst[..y] == old(dst[..y]) && dst[y + 2 * p.Samples()..] == old(dst[y + 2 * p.Samples()..])
  {
    var r1: nat, r2: nat, i: nat, j: nat := 0, 0, 0, 0;
    ghost var n, planes, total := 0, src[y..], p.Samples();
    while r1 < p.rows
      invariant r1 <= p.rows && j <= width && (if r1 < p.rows then i < p.half else i == 0)
      invariant n == r1 * p.half + i && r2 * width + j == 2 * n
      invariant width >= 2 ==> forall k: nat :: k < n ==> PairAt(p, dst[y..], planes, k)
      invariant dst[..y] == old(dst[..y]) && dst[y + 2 * total..] == old(dst[y + 2 * total..])
      decreases p.rows - r1, p.half - i, j
    {
      if j == width {
        Next(r2, width);
        j := 0;
        r2 := r2 + 1;
        continue;
      }
      RasterOrder(p, r1, i);
      ghost var before := dst[y..];
      var from: nat := r1 * p.cWidth + i;
      var v, u := src[y + from], src[y + (from + p.cSize)];
      r2, j := PutPair(dst, y, width, r2, j, v, u, n);
      ghost var after := dst[y..];
      PairsKept(p, before, after, planes, n);
      assert PairAt(p, after, planes, n);
      assert dst[y + 2 * total..] == dst[y + 2 * n + 2..][2 * (total - n - 1)..];
      n := n + 1;
      i := i + 1;
      if i == p.half {
        Next(r1, p.half);
        i := 0;
        r1 := r1 + 1;
      }
    }
  }

  // ------------------------------------------------------------------ the conversion

  /** A YV12 image in memory: `w` is its stride, of which `horizPadding` bytes a row are padding. */
  datatype Image = Image(w: nat, h: nat, horizPadding: nat) {
    predicate Valid() {
      horizPadding <= w
    }

    function Width(): nat
      requires Valid()
    {
      w - horizPadding
    }

    function LumaSize(): nat {
      w * h
    }

    function ChromaWidth(): nat {
      Align(w / 2, 16)
    }

    function Chroma(): Planes
      requires Valid()
    {
      Planes(Width() / 2, h / 2, ChromaWidth(), ChromaSize(ChromaWidth(), h))
    }
  }

  function ChromaSize(cWidth: nat, h: nat): nat {
    Times(0, cWidth, h);
    cWidth * h / 2
  }

  /** The planes are laid out soundly; an odd height leaves half a row after the last one. */
  lemma ChromaValid(m: Image)
    requires m.Valid()
    ensures m.Chroma().Valid()
    ensures m.h % 2 == 0 ==> m.Chroma().cSize == m.Chroma().rows * m.Chroma().cWidth
  {
    HalfSize(m.ChromaWidth(), m.h);
  }

  lemma HalfSize(cWidth: nat, h: nat)
    ensures h / 2 * cWidth <= ChromaSize(cWidth, h)
    ensures h % 2 == 0 ==> ChromaSize(cWidth, h) == h / 2 * cWidth
  {
    var total, rows := cWidth * h, h / 2 * cWidth;
    assert h == 2 * (h / 2) + h % 2;
    Times(0, cWidth, h % 2);
    Twice(cWidth, h / 2, h % 2);
  }

  lemma Twice(c: int, k: int, odd: int)
    ensures c * (2 * k + odd) == 2 * (k * c) + odd * c
  {
  }

  /** The vector form of the loop, eight pairs at a time, leaves no rest: it may stand for the
      loop over single bytes. */
  lemma WholeBlocks(w: nat, h: nat)
    ensures ChromaSize(Align(w / 2, 16), h) % 8 == 0
  {
    var m := Sixteenths(w / 2);
    Align16(w / 2, m);
    Sixteens(m, h);
    Eights(m * h);
  }

  lemma Eights(n: nat)
    ensures 8 * n % 8 == 0
  {
  }

  lemma Sixteens(q: nat, h: nat)
    ensures ChromaSize(16 * q, h) == 8 * (q * h)
  {
    assert 16 * q * h == 16 * (q * h);
  }

  /** How far the chroma plane is written: without padding, on into the half row. */
  function Written(p: Planes): nat {
    2 * (if p.half == p.cWidth then p.cSize else p.Samples())
  }

  /** What the conversion is for: the luma as it was, then every V and U sample in raster order,
      one pair after the other, and nothing else. */
  ghost predicate Converted(m: Image, was: seq<bv8>, dst: seq<bv8>, src: seq<bv8>)
    requires m.Valid()
  {
    var y, p := m.LumaSize(), m.Chroma();
    && |dst| == |was| && y + Written(p) <= |dst| && y <= |src|
    && dst[..y] == src[..y]
    && (p.half > 0 ==> forall n: nat :: n < p.Samples() ==> PairAt(p, dst[y..], src[y..], n))
    && dst[y + Written(p)..] == was[y + Written(p)..]
  }

  /** -1 for a missing buffer.  (With rows to copy and less than two pixels in each, the loop for
      padded rows would not come to an end.) */
  method Convert(m: Image, src: array?<bv8>, dst: array?<bv8>) returns (result: int)
    requires m.Valid() && (m.Width() >= 2 || m.h < 2)
    requires src != null && dst != null ==>
      && dst != src
      && m.LumaSize() + Written(m.Chroma()) <= dst.Length
      && m.LumaSize() + 2 * m.Chroma().cSize <= src.Length
    modifies dst
    ensures result == if src == null || dst == null then -1 else 0
    ensures result == 0 ==> Converted(m, old(dst[..]), dst[..], src[..])
  {
    if src == null || dst == null {
      return -1;
    }
    var y, p := m.LumaSize(), m.Chroma();
    ChromaValid(m);
    ConvertPlanes(src, dst, y, m.Width(), p);
    return 0;
  }

  /** The conversion for given planes behind `y` bytes of luma. */
  method ConvertPlanes(src: array<bv8>, dst: array<bv8>, y: nat, width: nat, p: Planes)
    requires dst != src && p.Valid() && p.half == width / 2 && (p.rows == 0 || width >= 2)
    requires y + Written(p) <= dst.Length && y + 2 * p.cSize <= src.Length
    modifies dst
    ensures dst[..y] == src[..y] && dst[y + Written(p)..] == old(dst[y + Written(p)..])
    ensures p.half > 0 ==> forall n: nat :: n < p.Samples() ==> PairAt(p, dst[y..], src[y..], n)
  {
    ghost var rest := dst[y + Written(p)..];
    MemCpy(dst, 0, src, 0, y);
    assert dst[..y] == src[..y] && dst[y + Written(p)..] == rest;
    var chromaPadding := p.cWidth - p.half;
    if chromaPadding == 0 {
      Interleave(dst, src, y, p.cSize);
      UnpaddedSamples(p);
      forall n: nat | p.half > 0 && n < p.Samples() ensures PairAt(p, dst[y..], src[y..], n) {
        ZippedIsRaster(p, dst[y..], src[y..], n);
      }
    } else {
      CopyUnpadded(dst, src, y, width, p);
    }
  }

  lemma UnpaddedSamples(p: Planes)
    requires p.Valid() && p.half == p.cWidth
    ensures p.Samples() <= p.cSize
  {
  }

  /** For an even height the two ways write the same: pairs for the samples and no more. */
  lemma SameExtent(m: Image)
    requires m.Valid() && m.h % 2 == 0
    ensures Written(m.Chroma()) == 2 * m.Chroma().Samples()
  {
    ChromaValid(m);
  }

  /** Read by place, with the layout written out: behind w * h bytes of luma the rows of the two
      planes are half the stride long, rounded up to 16, and U starts h / 2 such rows after V; the
      pairs of a row follow each other, without padding. */
  lemma ConvertedByPlace(m: Image, was: seq<bv8>, dst: seq<bv8>, src: seq<bv8>, r: nat, c: nat)
    requires m.Valid() && Converted(m, was, dst, src)
    requires r < m.h / 2 && c < (m.w - m.horizPadding) / 2
    ensures
      var y, half, stride := m.w * m.h, (m.w - m.horizPadding) / 2, Align(m.w / 2, 16);
      var v, u := y + (r * stride + c), y + (stride * m.h / 2 + (r * stride + c));
      var pair := y + 2 * (r * half + c);
      && 0 <= pair && pair + 1 < |dst| && 0 <= v < |src| && 0 <= u < |src|
      && dst[pair] == src[v] && dst[pair + 1] == src[u]
  {
    var y, p := m.LumaSize(), m.Chroma();
    ChromaValid(m);
    RasterOrder(p, r, c);
    Times(0, r, p.half);
    assert PairAt(p, dst[y..], src[y..], r * p.half + c);
  }

  /** Every byte of the luma, padding and all, stays where it is. */
  lemma LumaByPlace(m: Image, was: seq<bv8>, dst: seq<bv8>, src: seq<bv8>, k: nat)
    requires m.Valid() && Converted(m, was, dst, src) && k < m.w * m.h
    ensures k < |dst| && k < |src| && dst[k] == src[k]
  {
    assert dst[..m.LumaSize()][k] == src[..m.LumaSize()][k];
  }
}

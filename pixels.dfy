/** The pixel buffer (`image_data`): `w * h` pixels of three bytes each, row
    major, channel `c` of pixel (x, y) at index `3 * (x + y * w) + c`. */
module Pixels {
  import opened Region

  /** One channel value (`stbi_uc`). */
  type Byte = v: int | 0 <= v <= 255

  /** The dimensions the image loader hands over: at least one pixel each way. */
  predicate Dims(w: int, h: int) { w >= 1 && h >= 1 }

  /** A buffer of the right length for a w x h image with three channels. */
  predicate Shape(n: int, w: int, h: int) { Dims(w, h) && n == 3 * (w * h) }

  function Idx(x: int, y: int, c: int, w: int): int { 3 * (x + y * w) + c }

  /** Column of the pixel that holds buffer index k. */
  function XOf(k: int, w: int): int requires w >= 1 { (k / 3) % w }

  /** Row of the pixel that holds buffer index k. */
  function YOf(k: int, w: int): int requires w >= 1 { (k / 3) / w }

  /** Buffer index k belongs to pixel (x, y). */
  predicate OnPixel(k: int, w: int, x: int, y: int) requires w >= 1
  {
    XOf(k, w) == x && YOf(k, w) == y
  }

  /** Channel c of a pixel whose three channels are v0, v1, v2. */
  function Pick(v0: Byte, v1: Byte, v2: Byte, c: int): Byte
  {
    if c == 0 then v0 else if c == 1 then v1 else v2
  }

  /** Every in-bounds (x, y, c) names an index of the buffer, and the index
      leads back to (x, y, c). */
  lemma IdxCoords(x: int, y: int, c: int, w: int, h: int)
    requires Dims(w, h) && 0 <= x < w && 0 <= y < h && 0 <= c < 3
    ensures 0 <= Idx(x, y, c, w) < 3 * (w * h)
    ensures XOf(Idx(x, y, c, w), w) == x && YOf(Idx(x, y, c, w), w) == y
    ensures Idx(x, y, c, w) % 3 == c
  {
    var q := x + y * w;
    MulMono(0, y, w);
    MulMono(y + 1, h, w);
    assert q < (y + 1) * w;
    assert Idx(x, y, c, w) / 3 == q;
    var y', x' := q / w, q % w;
    assert q == y' * w + x';
    if y' < y {
      MulMono(y' + 1, y, w);
      assert false;
    } else if y' > y {
      MulMono(y + 1, y', w);
      assert false;
    }
  }

  /** Every buffer index belongs to an in-bounds pixel and channel. */
  lemma CoordsIdx(k: int, w: int, h: int)
    requires Dims(w, h) && 0 <= k < 3 * (w * h)
    ensures 0 <= XOf(k, w) < w && 0 <= YOf(k, w) < h
    ensures k == Idx(XOf(k, w), YOf(k, w), k % 3, w)
  {
    var q := k / 3;
    assert q < w * h;
    var y, x := q / w, q % w;
    assert q == y * w + x;
    if y >= h {
      MulMono(h, y, w);
      assert false;
    }
  }

  /** The indices of pixel (x, y) are exactly its three channel slots. */
  lemma OnPixelIdx(w: int, h: int, x: int, y: int)
    requires Dims(w, h) && 0 <= x < w && 0 <= y < h
    ensures forall k | 0 <= k < 3 * (w * h) && OnPixel(k, w, x, y) :: k == Idx(x, y, k % 3, w)
  {
    forall k | 0 <= k < 3 * (w * h) && OnPixel(k, w, x, y)
      ensures k == Idx(x, y, k % 3, w)
    {
      CoordsIdx(k, w, h);
    }
  }

  /** Channel c of pixel (x, y). */
  function Chan(p: seq<Byte>, w: int, h: int, x: int, y: int, c: int): Byte
    requires Shape(|p|, w, h) && 0 <= x < w && 0 <= y < h && 0 <= c < 3
  {
    IdxCoords(x, y, c, w, h);
    p[Idx(x, y, c, w)]
  }

  /** Write the three channels of pixel (x, y); every other byte stays. */
  method SetPixel(a: array<Byte>, w: int, h: int, x: int, y: int, v0: Byte, v1: Byte, v2: Byte)
    requires Shape(a.Length, w, h) && 0 <= x < w && 0 <= y < h
    modifies a
    ensures forall k | 0 <= k < a.Length ::
      a[k] == if OnPixel(k, w, x, y) then Pick(v0, v1, v2, k % 3) else old(a[k])
  {
    IdxCoords(x, y, 0, w, h);
    IdxCoords(x, y, 1, w, h);
    IdxCoords(x, y, 2, w, h);
    a[Idx(x, y, 0, w)] := v0;
    a[Idx(x, y, 1, w)] := v1;
    a[Idx(x, y, 2, w)] := v2;
    forall k | 0 <= k < a.Length
      ensures a[k] == if OnPixel(k, w, x, y) then Pick(v0, v1, v2, k % 3) else old(a[k])
    {
      CoordsIdx(k, w, h);
    }
  }

  /** `filter::copy_pixels`: copy every pixel of `src` into `dst`, column by
      column. */
  method CopyPixels(dst: array<Byte>, src: array<Byte>, w: int, h: int)
    requires Shape(src.Length, w, h) && dst.Length == src.Length && dst != src
    modifies dst
    ensures dst[..] == src[..]
  {
    ghost var before := dst[..];
    var full := Edges(0, 0, w, h);
    var i := 0;
    while i < w
      invariant 0 <= i <= w
      invariant forall k | 0 <= k < dst.Length ::
        dst[k] == if Visited(full, i, 0, XOf(k, w), YOf(k, w)) then src[k] else before[k]
    {
      var j := 0;
      while j < h
        invariant 0 <= j <= h
        invariant forall k | 0 <= k < dst.Length ::
          dst[k] == if Visited(full, i, j, XOf(k, w), YOf(k, w)) then src[k] else before[k]
      {
        IdxCoords(i, j, 0, w, h);
        IdxCoords(i, j, 1, w, h);
        IdxCoords(i, j, 2, w, h);
        OnPixelIdx(w, h, i, j);
        SetPixel(dst, w, h, i, j, src[Idx(i, j, 0, w)], src[Idx(i, j, 1, w)], src[Idx(i, j, 2, w)]);
        j := j + 1;
      }
      i := i + 1;
    }
    forall k | 0 <= k < dst.Length ensures dst[k] == src[k] {
      CoordsIdx(k, w, h);
    }
  }
}

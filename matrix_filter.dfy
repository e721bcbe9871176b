/** `matrix_filter`: 3 x 3 convolution with zero padding, normalised by the
    kernel sum and clamped to a byte; `edge_filter` runs it after whitening. */
module MatrixFilter {
  import opened Region
  import opened Pixels
  import opened SimpleFilters

  function Abs(a: int): nat { if a < 0 then -a else a }

  /** A non-zero factor does not shrink an absolute value. */
  lemma AbsMulAtLeast(a: int, b: int)
    requires a != 0
    ensures Abs(a * b) >= Abs(b)
  {
    if a > 0 && b >= 0 {
      MulMono(1, a, b);
    } else if a > 0 {
      MulMono(1, a, -b);
      assert a * b == -(a * -b);
    } else if b >= 0 {
      MulMono(1, -a, b);
      assert a * b == -(-a * b);
    } else {
      MulMono(1, -a, -b);
      assert a * b == -a * -b;
    }
  }

  /** C++ integer division, which truncates toward zero: the product q * d
      lies between 0 and a, and misses a by less than one divisor. */
  function TruncDiv(a: int, d: int): (q: int)
    requires d != 0
    ensures 0 <= q * d <= a || a <= q * d <= 0
    ensures Abs(a - q * d) < Abs(d)
  {
    var m := Abs(a) / Abs(d);
    DivBounds(Abs(a), Abs(d));
    if a >= 0 && d > 0 then m
    else if a >= 0 then assert -m * d == m * Abs(d); -m
    else if d > 0 then assert -m * d == -(m * Abs(d)); -m
    else assert m * d == -(m * Abs(d)); m
  }

  /** v * n - q * n == (v - q) * n. */
  lemma MulSub(v: int, q: int, n: int)
    ensures v * n - q * n == (v - q) * n
  {
  }

  /** Truncating division of an exact multiple gives the factor back. */
  lemma TruncDivExact(v: int, n: int)
    requires n != 0
    ensures TruncDiv(v * n, n) == v
  {
    var q := TruncDiv(v * n, n);
    MulSub(v, q, n);
    if v != q {
      AbsMulAtLeast(v - q, n);
    }
  }

  /** On a non-negative dividend and a positive divisor, truncating and
      floor division agree. */
  lemma TruncDivNonNegative(a: int, d: int)
    requires a >= 0 && d > 0
    ensures TruncDiv(a, d) == a / d
  {
  }

  /** The clamping of `matrix_filter::use_filter`: values above 255 become
      255, values below 0 become 0, bytes are kept. */
  function Clamp(v: int): (r: Byte)
    ensures 0 <= v <= 255 ==> r == v
    ensures v > 255 ==> r == 255
    ensures v < 0 ==> r == 0
  {
    if v > 255 then 255 else if v < 0 then 0 else v
  }

  /** The kernel sum, `matrix_filter::get_norm`. */
  function Norm(kernel: seq<int>): int
    requires |kernel| == 9
  {
    kernel[0] + kernel[1] + kernel[2] + kernel[3] + kernel[4] + kernel[5] + kernel[6] + kernel[7] + kernel[8]
  }

  /** The first t terms `get_norm` adds: column i outer, row j inner, so the
      term number t - 1 is `kernel[i + j * 3]` with i = (t - 1) / 3 and
      j = (t - 1) % 3. */
  function NormPrefix(kernel: seq<int>, t: int): int
    requires |kernel| == 9 && 0 <= t <= 9
  {
    if t == 0 then 0 else NormPrefix(kernel, t - 1) + kernel[(t - 1) / 3 + ((t - 1) % 3) * 3]
  }

  /** The nine steps of `get_norm` add every weight once. */
  lemma NormPrefixFull(kernel: seq<int>)
    requires |kernel| == 9
    ensures NormPrefix(kernel, 9) == Norm(kernel)
  {
    assert NormPrefix(kernel, 1) == kernel[0];
    assert NormPrefix(kernel, 2) == kernel[0] + kernel[3];
    assert NormPrefix(kernel, 3) == kernel[0] + kernel[3] + kernel[6];
    assert NormPrefix(kernel, 4) == NormPrefix(kernel, 3) + kernel[1];
    assert NormPrefix(kernel, 5) == NormPrefix(kernel, 4) + kernel[4];
    assert NormPrefix(kernel, 6) == NormPrefix(kernel, 5) + kernel[7];
    assert NormPrefix(kernel, 7) == NormPrefix(kernel, 6) + kernel[2];
    assert NormPrefix(kernel, 8) == NormPrefix(kernel, 7) + kernel[5];
  }

  /** Step 3 * i + j of `get_norm` is column i, row j. */
  lemma DivModThree(i: int, j: int)
    requires 0 <= i && 0 <= j < 3
    ensures (3 * i + j) / 3 == i && (3 * i + j) % 3 == j
  {
  }

  /** `matrix_filter::get_norm`: add up the nine kernel weights. */
  method GetNorm(kernel: seq<int>) returns (result: int)
    requires |kernel| == 9
    ensures result == Norm(kernel)
  {
    result := 0;
    var i := 0;
    while i < 3
      invariant 0 <= i <= 3 && result == NormPrefix(kernel, 3 * i)
    {
      var j := 0;
      while j < 3
        invariant 0 <= j <= 3 && result == NormPrefix(kernel, 3 * i + j)
      {
        DivModThree(i, j);
        result := result + kernel[i + j * 3];
        j := j + 1;
      }
      i := i + 1;
    }
    NormPrefixFull(kernel);
  }

  /** Channel c of pixel (x, y), or 0 outside the image: zero padding. */
  function Sample(p: seq<Byte>, w: int, h: int, x: int, y: int, c: int): Byte
    requires Shape(|p|, w, h) && 0 <= c < 3
  {
    if 0 <= x < w && 0 <= y < h then Chan(p, w, h, x, y, c) else 0
  }

  /** The weighted samples of column x of the 3 x 3 neighbourhood of (i, j),
      rows j - 1 .. yEnd - 1; the weight of (x, y) is
      `kernel[(x - (i - 1)) + (y - (j - 1)) * 3]`. */
  function ColumnSum(p: seq<Byte>, w: int, h: int, kernel: seq<int>, i: int, j: int, c: int, x: int, yEnd: int): int
    requires Shape(|p|, w, h) && |kernel| == 9 && 0 <= c < 3
    requires i - 1 <= x <= i + 1 && j - 1 <= yEnd <= j + 2
    decreases yEnd - (j - 1)
  {
    if yEnd == j - 1 then 0
    else
      var y := yEnd - 1;
      ColumnSum(p, w, h, kernel, i, j, c, x, y) + Sample(p, w, h, x, y, c) * kernel[(x - (i - 1)) + (y - (j - 1)) * 3]
  }

  /** The weighted samples of the columns i - 1 .. xEnd - 1. */
  function NeighbourSum(p: seq<Byte>, w: int, h: int, kernel: seq<int>, i: int, j: int, c: int, xEnd: int): int
    requires Shape(|p|, w, h) && |kernel| == 9 && 0 <= c < 3
    requires i - 1 <= xEnd <= i + 2
    decreases xEnd - (i - 1)
  {
    if xEnd == i - 1 then 0
    else NeighbourSum(p, w, h, kernel, i, j, c, xEnd - 1) + ColumnSum(p, w, h, kernel, i, j, c, xEnd - 1, j + 2)
  }

  /** The unnormalised convolution sum of channel c at (i, j). */
  function ConvSum(p: seq<Byte>, w: int, h: int, kernel: seq<int>, i: int, j: int, c: int): int
    requires Shape(|p|, w, h) && |kernel| == 9 && 0 <= c < 3
  {
    NeighbourSum(p, w, h, kernel, i, j, c, i + 2)
  }

  /** Byte k after convolving region e: the clamped, normalised sum inside
      the region, the input byte outside. */
  function ConvolveAt(p: seq<Byte>, w: int, h: int, kernel: seq<int>, e: Edges, k: int): Byte
    requires Shape(|p|, w, h) && |kernel| == 9 && Norm(kernel) != 0 && 0 <= k < |p|
  {
    if InRegion(e, XOf(k, w), YOf(k, w)) then
      Clamp(TruncDiv(ConvSum(p, w, h, kernel, XOf(k, w), YOf(k, w), k % 3), Norm(kernel)))
    else p[k]
  }

  /** The buffer `matrix_filter::use_filter` returns. */
  function ConvolveImage(p: seq<Byte>, w: int, h: int, kernel: seq<int>, e: Edges): (q: seq<Byte>)
    requires Shape(|p|, w, h) && |kernel| == 9 && Norm(kernel) != 0
    ensures |q| == |p|
  {
    seq(|p|, k requires 0 <= k < |p| => ConvolveAt(p, w, h, kernel, e, k))
  }

  /** The innermost loop of `matrix_filter::use_filter` for column x: add
      the weighted samples of rows j - 1 .. j + 1 to the running sums,
      out-of-image neighbours counting as 0. */
  method ColumnSums(img: array<Byte>, w: int, h: int, kernel: seq<int>, i: int, j: int, x: int,
                    r0: int, g0: int, b0: int)
    returns (r: int, g: int, b: int)
    requires Shape(img.Length, w, h) && |kernel| == 9 && i - 1 <= x <= i + 1
    ensures r == r0 + ColumnSum(img[..], w, h, kernel, i, j, 0, x, j + 2)
    ensures g == g0 + ColumnSum(img[..], w, h, kernel, i, j, 1, x, j + 2)
    ensures b == b0 + ColumnSum(img[..], w, h, kernel, i, j, 2, x, j + 2)
  {
    ghost var p := img[..];
    r, g, b := r0, g0, b0;
    var y := j - 1;
    while y <= j + 1
      invariant j - 1 <= y <= j + 2
      invariant r == r0 + ColumnSum(p, w, h, kernel, i, j, 0, x, y)
      invariant g == g0 + ColumnSum(p, w, h, kernel, i, j, 1, x, y)
      invariant b == b0 + ColumnSum(p, w, h, kernel, i, j, 2, x, y)
    {
      var pixR, pixG, pixB := 0, 0, 0;
      if x >= 0 && x < w && y >= 0 && y < h {
        IdxCoords(x, y, 0, w, h);
        IdxCoords(x, y, 1, w, h);
        IdxCoords(x, y, 2, w, h);
        pixR := img[Idx(x, y, 0, w)];
        pixG := img[Idx(x, y, 1, w)];
        pixB := img[Idx(x, y, 2, w)];
      }
      r := r + pixR * kernel[x - (i - 1) + (y - (j - 1)) * 3];
      g := g + pixG * kernel[x - (i - 1) + (y - (j - 1)) * 3];
      b := b + pixB * kernel[x - (i - 1) + (y - (j - 1)) * 3];
      y := y + 1;
    }
  }

  /** The inner loops of `matrix_filter::use_filter`: accumulate the weighted
      3 x 3 neighbourhood of (i, j) in each channel, out-of-image
      neighbours counting as 0. */
  method NeighbourSums(img: array<Byte>, w: int, h: int, kernel: seq<int>, i: int, j: int)
    returns (r: int, g: int, b: int)
    requires Shape(img.Length, w, h) && |kernel| == 9
    ensures r == ConvSum(img[..], w, h, kernel, i, j, 0)
    ensures g == ConvSum(img[..], w, h, kernel, i, j, 1)
    ensures b == ConvSum(img[..], w, h, kernel, i, j, 2)
  {
    ghost var p := img[..];
    r, g, b := 0, 0, 0;
    var x := i - 1;
    while x <= i + 1
      invariant i - 1 <= x <= i + 2
      invariant r == NeighbourSum(p, w, h, kernel, i, j, 0, x)
      invariant g == NeighbourSum(p, w, h, kernel, i, j, 1, x)
      invariant b == NeighbourSum(p, w, h, kernel, i, j, 2, x)
    {
      r, g, b := ColumnSums(img, w, h, kernel, i, j, x, r, g, b);
      x := x + 1;
    }
  }

  /** One step of the region loops: normalise and clamp the three sums of
      pixel (i, j) of `src` and write them into `out`. */
  method ConvolvePixel(src: array<Byte>, out: array<Byte>, w: int, h: int, kernel: seq<int>, norm: int, e: Edges, i: int, j: int)
    requires Shape(src.Length, w, h) && out.Length == src.Length && out != src
    requires |kernel| == 9 && norm == Norm(kernel) != 0
    requires InRegion(e, i, j) && 0 <= i < w && 0 <= j < h
    modifies out
    ensures forall k | 0 <= k < out.Length ::
      out[k] == if OnPixel(k, w, i, j) then ConvolveAt(src[..], w, h, kernel, e, k) else old(out[k])
  {
    var r, g, b := NeighbourSums(src, w, h, kernel, i, j);
    r := TruncDiv(r, norm);
    if r > 255 { r := 255; } else if r < 0 { r := 0; }
    g := TruncDiv(g, norm);
    if g > 255 { g := 255; } else if g < 0 { g := 0; }
    b := TruncDiv(b, norm);
    if b > 255 { b := 255; } else if b < 0 { b := 0; }
    SetPixel(out, w, h, i, j, r, g, b);
  }

  /** The region loops of `matrix_filter::use_filter`, column i outer and
      row j inner, reading only from `src` and writing only into `out`. */
  method ConvolveRegion(src: array<Byte>, out: array<Byte>, w: int, h: int, kernel: seq<int>, norm: int, e: Edges)
    requires Shape(src.Length, w, h) && out.Length == src.Length && out != src
    requires |kernel| == 9 && norm == Norm(kernel) != 0
    requires 0 <= e.x1 <= e.x2 <= w && 0 <= e.y1 <= e.y2 <= h
    requires out[..] == src[..]
    modifies out
    ensures forall k | 0 <= k < out.Length :: out[k] == ConvolveAt(src[..], w, h, kernel, e, k)
  {
    ghost var p := src[..];
    var i := e.x1;
    while i < e.x2
      invariant e.x1 <= i <= e.x2
      invariant forall k | 0 <= k < out.Length ::
        out[k] == if Visited(e, i, e.y1, XOf(k, w), YOf(k, w)) then ConvolveAt(p, w, h, kernel, e, k) else p[k]
    {
      var j := e.y1;
      while j < e.y2
        invariant e.y1 <= j <= e.y2
        invariant forall k | 0 <= k < out.Length ::
          out[k] == if Visited(e, i, j, XOf(k, w), YOf(k, w)) then ConvolveAt(p, w, h, kernel, e, k) else p[k]
      {
        ConvolvePixel(src, out, w, h, kernel, norm, e, i, j);
        j := j + 1;
      }
      i := i + 1;
    }
    forall k | 0 <= k < out.Length ensures out[k] == ConvolveAt(p, w, h, kernel, e, k) {
      CoordsIdx(k, w, h);
    }
  }

  /** `matrix_filter::use_filter` (the blur filter uses it unchanged): copy
      the buffer, then write each region pixel of the copy from the
      neighbourhood in the input. */
  method ApplyMatrix(src: array<Byte>, w: int, h: int, kernel: seq<int>, d: Divisors) returns (out: array<Byte>)
    requires Shape(src.Length, w, h) && d.NonNegative() && |kernel| == 9 && Norm(kernel) != 0
    ensures out[..] == ConvolveImage(src[..], w, h, kernel, SetEdges(d, w, h))
  {
    out := new Byte[src.Length];
    CopyPixels(out, src, w, h);
    var e := SetEdges(d, w, h);
    var norm := GetNorm(kernel);
    ConvolveRegion(src, out, w, h, kernel, norm, e);
  }

  /** `edge_filter::use_filter`: whiten the region, then convolve the
      whitened buffer over the same region. The input array itself is left
      as it was (value semantics). */
  method ApplyEdge(src: array<Byte>, w: int, h: int, kernel: seq<int>, d: Divisors) returns (out: array<Byte>)
    requires Shape(src.Length, w, h) && d.NonNegative() && |kernel| == 9 && Norm(kernel) != 0
    ensures out[..] == ConvolveImage(WhitenImage(src[..], w, h, SetEdges(d, w, h)), w, h, kernel, SetEdges(d, w, h))
  {
    var img := new Byte[src.Length];
    CopyPixels(img, src, w, h);
    Whiten(img, w, h, d);
    out := ApplyMatrix(img, w, h, kernel, d);
  }

  /** Coordinate view of convolution: inside the region each channel is the
      clamped, truncated quotient of its neighbourhood sum by the kernel sum;
      outside nothing changes. */
  lemma ConvolvePixelValue(p: seq<Byte>, w: int, h: int, kernel: seq<int>, e: Edges, x: int, y: int, c: int)
    requires Shape(|p|, w, h) && |kernel| == 9 && Norm(kernel) != 0
    requires 0 <= x < w && 0 <= y < h && 0 <= c < 3
    ensures Chan(ConvolveImage(p, w, h, kernel, e), w, h, x, y, c) ==
      if InRegion(e, x, y) then Clamp(TruncDiv(ConvSum(p, w, h, kernel, x, y, c), Norm(kernel)))
      else Chan(p, w, h, x, y, c)
  {
    IdxCoords(x, y, c, w, h);
  }

  /** v * a + v * b + v * c == v * (a + b + c). */
  lemma Distrib3(v: int, a: int, b: int, c: int)
    ensures v * a + v * b + v * c == v * (a + b + c)
  {
  }

  /** The three weights of column dx of the kernel. */
  function ColumnWeight(kernel: seq<int>, dx: int): int
    requires |kernel| == 9 && 0 <= dx < 3
  {
    kernel[dx] + kernel[dx + 3] + kernel[dx + 6]
  }

  /** A column of three samples equal to v sums to v times its three weights. */
  lemma FlatColumn(p: seq<Byte>, w: int, h: int, kernel: seq<int>, i: int, j: int, c: int, x: int, v: int)
    requires Shape(|p|, w, h) && |kernel| == 9 && 0 <= c < 3 && i - 1 <= x <= i + 1
    requires forall y | j - 1 <= y <= j + 1 :: Sample(p, w, h, x, y, c) == v
    ensures ColumnSum(p, w, h, kernel, i, j, c, x, j + 2) == v * ColumnWeight(kernel, x - (i - 1))
  {
    var dx := x - (i - 1);
    var a, b, d := v * kernel[dx], v * kernel[dx + 3], v * kernel[dx + 6];
    assert Sample(p, w, h, x, j - 1, c) == v && Sample(p, w, h, x, j, c) == v && Sample(p, w, h, x, j + 1, c) == v;
    assert ColumnSum(p, w, h, kernel, i, j, c, x, j) == a;
    assert ColumnSum(p, w, h, kernel, i, j, c, x, j + 1) == a + b;
    assert ColumnSum(p, w, h, kernel, i, j, c, x, j + 2) == a + b + d;
    Distrib3(v, kernel[dx], kernel[dx + 3], kernel[dx + 6]);
  }

  /** When all nine (zero-padded) samples of a neighbourhood equal v, the
      convolution sum is v times the kernel sum. */
  lemma FlatSum(p: seq<Byte>, w: int, h: int, kernel: seq<int>, i: int, j: int, c: int, v: int)
    requires Shape(|p|, w, h) && |kernel| == 9 && 0 <= c < 3
    requires forall x, y | i - 1 <= x <= i + 1 && j - 1 <= y <= j + 1 :: Sample(p, w, h, x, y, c) == v
    ensures ConvSum(p, w, h, kernel, i, j, c) == v * Norm(kernel)
  {
    FlatColumn(p, w, h, kernel, i, j, c, i - 1, v);
    FlatColumn(p, w, h, kernel, i, j, c, i, v);
    FlatColumn(p, w, h, kernel, i, j, c, i + 1, v);
    var a, b, d := v * ColumnWeight(kernel, 0), v * ColumnWeight(kernel, 1), v * ColumnWeight(kernel, 2);
    assert NeighbourSum(p, w, h, kernel, i, j, c, i) == a;
    assert NeighbourSum(p, w, h, kernel, i, j, c, i + 1) == a + b;
    assert NeighbourSum(p, w, h, kernel, i, j, c, i + 2) == a + b + d;
    Distrib3(v, ColumnWeight(kernel, 0), ColumnWeight(kernel, 1), ColumnWeight(kernel, 2));
  }

  /** A flat interior neighbourhood is a fixed point of convolution with any
      kernel whose sum is not zero: the sum is v * norm and the quotient v. */
  lemma FlatInteriorFixed(p: seq<Byte>, w: int, h: int, kernel: seq<int>, e: Edges, i: int, j: int, c: int)
    requires Shape(|p|, w, h) && |kernel| == 9 && Norm(kernel) != 0 && 0 <= c < 3
    requires 1 <= i < w - 1 && 1 <= j < h - 1
    requires forall x, y | i - 1 <= x <= i + 1 && j - 1 <= y <= j + 1 :: Chan(p, w, h, x, y, c) == Chan(p, w, h, i, j, c)
    ensures Chan(ConvolveImage(p, w, h, kernel, e), w, h, i, j, c) == Chan(p, w, h, i, j, c)
  {
    var v := Chan(p, w, h, i, j, c);
    FlatSum(p, w, h, kernel, i, j, c, v);
    TruncDivExact(v, Norm(kernel));
    ConvolvePixelValue(p, w, h, kernel, e, i, j, c);
  }
}

/** The two in-place filters: `wb_filter` (weighted-luma grey) and
    `red_filter` (flat red). */
module SimpleFilters {
  import opened Region
  import opened Pixels

  function Min3(a: int, b: int, c: int): int
  {
    if a <= b && a <= c then a else if b <= c then b else c
  }

  function Max3(a: int, b: int, c: int): int
  {
    if a >= b && a >= c then a else if b >= c then b else c
  }

  /** Weighted luma `(3R + 6G + B) / 10`. The weights add up to ten, so the
      grey level lies between the darkest and the brightest channel. */
  function Luma(r: Byte, g: Byte, b: Byte): (v: Byte)
    ensures Min3(r, g, b) <= v <= Max3(r, g, b)
  {
    (3 * r + 6 * g + b) / 10
  }

  /** Luma of pixel (x, y). */
  function LumaAt(p: seq<Byte>, w: int, h: int, x: int, y: int): Byte
    requires Shape(|p|, w, h) && 0 <= x < w && 0 <= y < h
  {
    Luma(Chan(p, w, h, x, y, 0), Chan(p, w, h, x, y, 1), Chan(p, w, h, x, y, 2))
  }

  /** Byte k after whitening region e: the luma of its pixel inside the
      region, itself outside. */
  function WhitenAt(p: seq<Byte>, w: int, h: int, e: Edges, k: int): Byte
    requires Shape(|p|, w, h) && 0 <= k < |p|
  {
    CoordsIdx(k, w, h);
    if InRegion(e, XOf(k, w), YOf(k, w)) then LumaAt(p, w, h, XOf(k, w), YOf(k, w)) else p[k]
  }

  /** The whole buffer after whitening region e. */
  function WhitenImage(p: seq<Byte>, w: int, h: int, e: Edges): (q: seq<Byte>)
    requires Shape(|p|, w, h)
    ensures |q| == |p|
  {
    seq(|p|, k requires 0 <= k < |p| => WhitenAt(p, w, h, e, k))
  }

  /** Byte k after painting region e red. */
  function RedAt(p: seq<Byte>, w: int, h: int, e: Edges, k: int): Byte
    requires Shape(|p|, w, h) && 0 <= k < |p|
  {
    if InRegion(e, XOf(k, w), YOf(k, w)) then Pick(255, 0, 0, k % 3) else p[k]
  }

  /** The whole buffer after painting region e red. */
  function RedImage(p: seq<Byte>, w: int, h: int, e: Edges): (q: seq<Byte>)
    requires Shape(|p|, w, h)
    ensures |q| == |p|
  {
    seq(|p|, k requires 0 <= k < |p| => RedAt(p, w, h, e, k))
  }

  /** `wb_filter::use_filter`: resolve the region, then for each pixel in it
      (column i outer, row j inner) write its luma to all three channels. */
  method Whiten(a: array<Byte>, w: int, h: int, d: Divisors)
    requires Shape(a.Length, w, h) && d.NonNegative()
    modifies a
    ensures a[..] == WhitenImage(old(a[..]), w, h, SetEdges(d, w, h))
  {
    var e := SetEdges(d, w, h);
    ghost var src := a[..];
    var i := e.x1;
    while i < e.x2
      invariant e.x1 <= i <= e.x2
      invariant forall k | 0 <= k < a.Length ::
        a[k] == if Visited(e, i, e.y1, XOf(k, w), YOf(k, w)) then WhitenAt(src, w, h, e, k) else src[k]
    {
      var j := e.y1;
      while j < e.y2
        invariant e.y1 <= j <= e.y2
        invariant forall k | 0 <= k < a.Length ::
          a[k] == if Visited(e, i, j, XOf(k, w), YOf(k, w)) then WhitenAt(src, w, h, e, k) else src[k]
      {
        IdxCoords(i, j, 0, w, h);
        IdxCoords(i, j, 1, w, h);
        IdxCoords(i, j, 2, w, h);
        var r, g, b := a[Idx(i, j, 0, w)], a[Idx(i, j, 1, w)], a[Idx(i, j, 2, w)];
        var intensity := Luma(r, g, b);
        assert intensity == LumaAt(src, w, h, i, j);
        SetPixel(a, w, h, i, j, intensity, intensity, intensity);
        j := j + 1;
      }
      i := i + 1;
    }
    forall k | 0 <= k < a.Length ensures a[k] == WhitenAt(src, w, h, e, k) {
      CoordsIdx(k, w, h);
    }
  }

  /** `red_filter::use_filter`: paint every pixel of the region (255, 0, 0). */
  method Red(a: array<Byte>, w: int, h: int, d: Divisors)
    requires Shape(a.Length, w, h) && d.NonNegative()
    modifies a
    ensures a[..] == RedImage(old(a[..]), w, h, SetEdges(d, w, h))
  {
    var e := SetEdges(d, w, h);
    ghost var src := a[..];
    var i := e.x1;
    while i < e.x2
      invariant e.x1 <= i <= e.x2
      invariant forall k | 0 <= k < a.Length ::
        a[k] == if Visited(e, i, e.y1, XOf(k, w), YOf(k, w)) then RedAt(src, w, h, e, k) else src[k]
    {
      var j := e.y1;
      while j < e.y2
        invariant e.y1 <= j <= e.y2
        invariant forall k | 0 <= k < a.Length ::
          a[k] == if Visited(e, i, j, XOf(k, w), YOf(k, w)) then RedAt(src, w, h, e, k) else src[k]
      {
        SetPixel(a, w, h, i, j, 255, 0, 0);
        j := j + 1;
      }
      i := i + 1;
    }
  }

  /** Coordinate view of whitening: inside the region all three channels of a
      pixel become the luma of the input pixel; outside nothing changes. */
  lemma WhitenPixel(p: seq<Byte>, w: int, h: int, e: Edges, x: int, y: int, c: int)
    requires Shape(|p|, w, h) && 0 <= x < w && 0 <= y < h && 0 <= c < 3
    ensures Chan(WhitenImage(p, w, h, e), w, h, x, y, c) ==
      if InRegion(e, x, y) then LumaAt(p, w, h, x, y) else Chan(p, w, h, x, y, c)
  {
    IdxCoords(x, y, c, w, h);
  }

  /** Coordinate view of painting red: inside the region every pixel is
      exactly (255, 0, 0); outside nothing changes. */
  lemma RedPixel(p: seq<Byte>, w: int, h: int, e: Edges, x: int, y: int, c: int)
    requires Shape(|p|, w, h) && 0 <= x < w && 0 <= y < h && 0 <= c < 3
    ensures Chan(RedImage(p, w, h, e), w, h, x, y, c) ==
      if InRegion(e, x, y) then Pick(255, 0, 0, c) else Chan(p, w, h, x, y, c)
  {
    IdxCoords(x, y, c, w, h);
  }

  /** A grey pixel (three equal channels) is its own luma, so whitening a
      buffer of grey pixels changes nothing. */
  lemma WhitenGreyFixed(p: seq<Byte>, w: int, h: int, e: Edges)
    requires Shape(|p|, w, h)
    requires forall x, y | 0 <= x < w && 0 <= y < h ::
      Chan(p, w, h, x, y, 0) == Chan(p, w, h, x, y, 1) == Chan(p, w, h, x, y, 2)
    ensures WhitenImage(p, w, h, e) == p
  {
    forall k | 0 <= k < |p| ensures WhitenImage(p, w, h, e)[k] == p[k] {
      CoordsIdx(k, w, h);
      var x, y := XOf(k, w), YOf(k, w);
      assert p[k] == Chan(p, w, h, x, y, k % 3);
    }
  }

  /** After whitening, every pixel of the region is grey. */
  lemma WhitenMakesGrey(p: seq<Byte>, w: int, h: int, e: Edges, x: int, y: int)
    requires Shape(|p|, w, h) && 0 <= x < w && 0 <= y < h && InRegion(e, x, y)
    ensures var q := WhitenImage(p, w, h, e);
      Chan(q, w, h, x, y, 0) == Chan(q, w, h, x, y, 1) == Chan(q, w, h, x, y, 2)
  {
    WhitenPixel(p, w, h, e, x, y, 0);
    WhitenPixel(p, w, h, e, x, y, 1);
    WhitenPixel(p, w, h, e, x, y, 2);
  }

  /** Whitening twice is whitening once. */
  lemma WhitenIdempotent(p: seq<Byte>, w: int, h: int, e: Edges)
    requires Shape(|p|, w, h)
    ensures WhitenImage(WhitenImage(p, w, h, e), w, h, e) == WhitenImage(p, w, h, e)
  {
    var q := WhitenImage(p, w, h, e);
    forall k | 0 <= k < |q| ensures WhitenImage(q, w, h, e)[k] == q[k] {
      CoordsIdx(k, w, h);
      var x, y := XOf(k, w), YOf(k, w);
      if InRegion(e, x, y) {
        WhitenMakesGrey(p, w, h, e, x, y);
      }
    }
  }

  /** Painting red over a whitened region gives the same buffer as painting
      red straight away: the last writer wins. */
  lemma RedAfterWhiten(p: seq<Byte>, w: int, h: int, e: Edges)
    requires Shape(|p|, w, h)
    ensures RedImage(WhitenImage(p, w, h, e), w, h, e) == RedImage(p, w, h, e)
  {
    var q := WhitenImage(p, w, h, e);
    forall k | 0 <= k < |p| ensures RedImage(q, w, h, e)[k] == RedImage(p, w, h, e)[k] {
      CoordsIdx(k, w, h);
    }
  }

  /** Whitening a region painted red turns it grey at the luma of red,
      (3 * 255) / 10 = 76; outside the region the input is kept. */
  lemma WhitenAfterRed(p: seq<Byte>, w: int, h: int, e: Edges)
    requires Shape(|p|, w, h)
    ensures forall k | 0 <= k < |p| ::
      WhitenImage(RedImage(p, w, h, e), w, h, e)[k] ==
        if InRegion(e, XOf(k, w), YOf(k, w)) then 76 else p[k]
  {
    var q := RedImage(p, w, h, e);
    forall k | 0 <= k < |p|
      ensures WhitenImage(q, w, h, e)[k] == if InRegion(e, XOf(k, w), YOf(k, w)) then 76 else p[k]
    {
      CoordsIdx(k, w, h);
      var x, y := XOf(k, w), YOf(k, w);
      if InRegion(e, x, y) {
        RedPixel(p, w, h, e, x, y, 0);
        RedPixel(p, w, h, e, x, y, 1);
        RedPixel(p, w, h, e, x, y, 2);
      }
    }
  }
}

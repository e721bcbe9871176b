/** `threshold_filter`: whiten the region, then blacken every region pixel
    whose intensity lies strictly below the median of its 5 x 5 window. */
module Threshold {
  import opened Region
  import opened Pixels
  import opened SimpleFilters
  import opened Median

  /** Intensities of column x of the window around row j, for the rows
      j - 2 .. yEnd - 1 that lie inside the image, top to bottom. */
  function ColumnCells(p: seq<Byte>, w: int, h: int, x: int, j: int, yEnd: int): (r: seq<Byte>)
    requires Shape(|p|, w, h) && 0 <= x < w && j - 2 <= yEnd <= j + 3
    ensures |r| <= yEnd - (j - 2)
    decreases yEnd - (j - 2)
  {
    if yEnd == j - 2 then []
    else
      var y := yEnd - 1;
      ColumnCells(p, w, h, x, j, y) + (if 0 <= y < h then [LumaAt(p, w, h, x, y)] else [])
  }

  /** Intensities of the columns i - 2 .. xEnd - 1 of the window around
      (i, j) that lie inside the image, left to right: the order in which
      `is_below_median` collects them. */
  function WindowCells(p: seq<Byte>, w: int, h: int, i: int, j: int, xEnd: int): (r: seq<Byte>)
    requires Shape(|p|, w, h) && i - 2 <= xEnd <= i + 3
    ensures |r| <= 5 * (xEnd - (i - 2))
    decreases xEnd - (i - 2)
  {
    if xEnd == i - 2 then []
    else
      var x := xEnd - 1;
      WindowCells(p, w, h, i, j, x) + (if 0 <= x < w then ColumnCells(p, w, h, x, j, j + 3) else [])
  }

  /** The centre pixel is always inside the image, so its intensity is in
      its own window. */
  lemma CentreInCells(p: seq<Byte>, w: int, h: int, i: int, j: int)
    requires Shape(|p|, w, h) && 0 <= i < w && 0 <= j < h
    ensures LumaAt(p, w, h, i, j) in WindowCells(p, w, h, i, j, i + 3)
  {
    var v := LumaAt(p, w, h, i, j);
    assert v in ColumnCells(p, w, h, i, j, j + 1);
    assert v in ColumnCells(p, w, h, i, j, j + 2);
    assert v in ColumnCells(p, w, h, i, j, j + 3);
    assert v in WindowCells(p, w, h, i, j, i + 1);
    assert v in WindowCells(p, w, h, i, j, i + 2);
  }

  /** The in-bounds intensities of the 5 x 5 window around (i, j): between one
      (the centre) and twenty-five samples. */
  function Window(p: seq<Byte>, w: int, h: int, i: int, j: int): (r: seq<Byte>)
    requires Shape(|p|, w, h) && 0 <= i < w && 0 <= j < h
    ensures 1 <= |r| <= 25 && LumaAt(p, w, h, i, j) in r
  {
    CentreInCells(p, w, h, i, j);
    WindowCells(p, w, h, i, j, i + 3)
  }

  /** The decision `is_below_median` makes for pixel (i, j). */
  predicate BelowMedian(p: seq<Byte>, w: int, h: int, i: int, j: int)
    requires Shape(|p|, w, h) && 0 <= i < w && 0 <= j < h
  {
    LumaAt(p, w, h, i, j) < MedianOf(Window(p, w, h, i, j))
  }

  /** The intensity `(3R + 6G + B) / 10` of pixel (x, y), read from the buffer. */
  method ReadIntensity(img: array<Byte>, w: int, h: int, x: int, y: int) returns (v: Byte)
    requires Shape(img.Length, w, h) && 0 <= x < w && 0 <= y < h
    ensures v == LumaAt(img[..], w, h, x, y)
  {
    IdxCoords(x, y, 0, w, h);
    IdxCoords(x, y, 1, w, h);
    IdxCoords(x, y, 2, w, h);
    var r, g, b := img[Idx(x, y, 0, w)], img[Idx(x, y, 1, w)], img[Idx(x, y, 2, w)];
    v := Luma(r, g, b);
  }

  /** `intensities[counter++] = v`: store v in slot n; the other slots stay. */
  method Store(a: array<int>, n: int, v: int)
    requires 0 <= n < a.Length
    modifies a
    ensures a[..n + 1] == old(a[..n]) + [v]
    ensures forall m | n + 1 <= m < a.Length :: a[m] == old(a[m])
  {
    a[n] := v;
    assert a[..n + 1] == a[..n] + [v];
  }

  /** One step of the inner collecting loop of `is_below_median`: append the
      intensity of cell (x, y) if it is in the image, and take it as the
      centre's when (x, y) is the centre. The slots before `counter` hold
      `pre` followed by the column's cells above row y. */
  method CollectCell(img: array<Byte>, w: int, h: int, i: int, j: int, x: int, y: int, intensities: array<int>,
                     counter0: int, intensity0: int, ghost pre: seq<int>, ghost start: int)
    returns (counter: int, intensity: int)
    requires Shape(img.Length, w, h) && 0 <= j < h && 0 <= x < w && j - 2 <= y <= j + 2
    requires intensities.Length == 25 && |pre| <= 20
    requires counter0 == |pre| + |ColumnCells(img[..], w, h, x, j, y)|
    requires intensities[..counter0] == pre + ColumnCells(img[..], w, h, x, j, y)
    requires forall m | counter0 <= m < 25 :: intensities[m] == -1
    requires intensity0 == if x == i && y > j then LumaAt(img[..], w, h, i, j) else start
    modifies intensities
    ensures counter == |pre| + |ColumnCells(img[..], w, h, x, j, y + 1)|
    ensures intensities[..counter] == pre + ColumnCells(img[..], w, h, x, j, y + 1)
    ensures forall m | counter <= m < 25 :: intensities[m] == -1
    ensures intensity == if x == i && y + 1 > j then LumaAt(img[..], w, h, i, j) else start
  {
    ghost var cells := ColumnCells(img[..], w, h, x, j, y);
    counter, intensity := counter0, intensity0;
    if 0 <= y < h {
      var v := ReadIntensity(img, w, h, x, y);
      assert ColumnCells(img[..], w, h, x, j, y + 1) == cells + [v];
      Store(intensities, counter, v);
      assert intensities[..counter + 1] == (pre + cells) + [v] == pre + (cells + [v]);
      counter := counter + 1;
      if x == i && y == j {
        intensity := v;
      }
    } else {
      assert ColumnCells(img[..], w, h, x, j, y + 1) == cells;
    }
  }

  /** The inner collecting loop of `is_below_median` for column x: append
      the intensity of every in-bounds row j - 2 .. j + 2 at `counter`, and
      take the centre's intensity when x is the centre column. */
  method CollectColumn(img: array<Byte>, w: int, h: int, i: int, j: int, x: int, intensities: array<int>,
                       counter0: int, intensity0: int)
    returns (counter: int, intensity: int)
    requires Shape(img.Length, w, h) && 0 <= j < h && 0 <= x < w
    requires intensities.Length == 25 && 0 <= counter0 <= 20
    requires forall m | counter0 <= m < 25 :: intensities[m] == -1
    modifies intensities
    ensures counter == counter0 + |ColumnCells(img[..], w, h, x, j, j + 3)|
    ensures intensities[..counter] == old(intensities[..counter0]) + ColumnCells(img[..], w, h, x, j, j + 3)
    ensures forall m | counter <= m < 25 :: intensities[m] == -1
    ensures intensity == if x == i then LumaAt(img[..], w, h, i, j) else intensity0
  {
    ghost var pre := intensities[..counter0];
    counter, intensity := counter0, intensity0;
    var y := j - 2;
    assert ColumnCells(img[..], w, h, x, j, y) == [];
    while y <= j + 2
      invariant j - 2 <= y <= j + 3
      invariant counter == |pre| + |ColumnCells(img[..], w, h, x, j, y)|
      invariant intensities[..counter] == pre + ColumnCells(img[..], w, h, x, j, y)
      invariant forall m | counter <= m < 25 :: intensities[m] == -1
      invariant intensity == if x == i && y > j then LumaAt(img[..], w, h, i, j) else intensity0
    {
      counter, intensity := CollectCell(img, w, h, i, j, x, y, intensities, counter, intensity, pre, intensity0);
      y := y + 1;
    }
  }

  /** The collecting loops of `is_below_median`: walk the 5 x 5 window
      column by column, append the intensity of every in-bounds cell at
      `counter`, and remember the centre's intensity. */
  method CollectWindow(img: array<Byte>, w: int, h: int, i: int, j: int, intensities: array<int>)
    returns (counter: int, intensity: int)
    requires Shape(img.Length, w, h) && 0 <= i < w && 0 <= j < h
    requires intensities.Length == 25 && forall m | 0 <= m < 25 :: intensities[m] == -1
    modifies intensities
    ensures 0 <= counter <= 25 && intensities[..counter] == Window(img[..], w, h, i, j)
    ensures forall m | counter <= m < 25 :: intensities[m] == -1
    ensures intensity == LumaAt(img[..], w, h, i, j)
  {
    counter := 0;
    intensity := 0;
    var x := i - 2;
    while x <= i + 2
      invariant i - 2 <= x <= i + 3
      invariant counter == |WindowCells(img[..], w, h, i, j, x)|
      invariant intensities[..counter] == WindowCells(img[..], w, h, i, j, x)
      invariant forall m | counter <= m < 25 :: intensities[m] == -1
      invariant x > i ==> intensity == LumaAt(img[..], w, h, i, j)
    {
      counter, intensity := WindowStep(img, w, h, i, j, x, intensities, counter, intensity);
      x := x + 1;
    }
  }

  /** One pass of the outer collecting loop: column x is collected when it
      lies inside the image and skipped otherwise. */
  method WindowStep(img: array<Byte>, w: int, h: int, i: int, j: int, x: int, intensities: array<int>,
                    counter0: int, intensity0: int)
    returns (counter: int, intensity: int)
    requires Shape(img.Length, w, h) && 0 <= i < w && 0 <= j < h && i - 2 <= x <= i + 2
    requires intensities.Length == 25
    requires counter0 == |WindowCells(img[..], w, h, i, j, x)|
    requires intensities[..counter0] == WindowCells(img[..], w, h, i, j, x)
    requires forall m | counter0 <= m < 25 :: intensities[m] == -1
    requires x > i ==> intensity0 == LumaAt(img[..], w, h, i, j)
    modifies intensities
    ensures counter == |WindowCells(img[..], w, h, i, j, x + 1)|
    ensures intensities[..counter] == WindowCells(img[..], w, h, i, j, x + 1)
    ensures forall m | counter <= m < 25 :: intensities[m] == -1
    ensures x + 1 > i ==> intensity == LumaAt(img[..], w, h, i, j)
  {
    counter, intensity := counter0, intensity0;
    if 0 <= x < w {
      counter, intensity := CollectColumn(img, w, h, i, j, x, intensities, counter, intensity);
    }
  }

  /** `threshold_filter::is_below_median`: collect the in-bounds intensities
      of the 5 x 5 window into a 25-slot buffer pre-filled with -1, count
      the slots up to the first -1, sort them and compare the centre with the
      element at index n / 2. */
  method IsBelowMedian(img: array<Byte>, w: int, h: int, i: int, j: int) returns (below: bool)
    requires Shape(img.Length, w, h) && 0 <= i < w && 0 <= j < h
    ensures below == BelowMedian(img[..], w, h, i, j)
  {
    var intensities := new int[25];
    var s := 0;
    while s < 25
      invariant 0 <= s <= 25
      invariant forall m | 0 <= m < s :: intensities[m] == -1
    {
      intensities[s] := -1;
      s := s + 1;
    }
    var counter, intensity := CollectWindow(img, w, h, i, j, intensities);
    forall m | 0 <= m < counter ensures intensities[m] >= 0 {
      assert intensities[m] == intensities[..counter][m];
    }
    var n := 0;
    while n < 25 && intensities[n] != -1
      invariant 0 <= n <= counter
    {
      n := n + 1;
    }
    assert n == counter;
    var sorted := SortAsc(intensities[..n]);
    below := intensity < sorted[n / 2];
  }

  /** Byte k of the threshold output, decided on the whitened buffer q: black
      when its pixel is in the region and below its window's median,
      otherwise q's byte. */
  function MarkAt(q: seq<Byte>, w: int, h: int, e: Edges, k: int): Byte
    requires Shape(|q|, w, h) && 0 <= k < |q|
  {
    CoordsIdx(k, w, h);
    if InRegion(e, XOf(k, w), YOf(k, w)) && BelowMedian(q, w, h, XOf(k, w), YOf(k, w)) then 0 else q[k]
  }

  /** The buffer `threshold_filter::use_filter` returns. */
  function ThresholdImage(p: seq<Byte>, w: int, h: int, e: Edges): (r: seq<Byte>)
    requires Shape(|p|, w, h)
    ensures |r| == |p|
  {
    var q := WhitenImage(p, w, h, e);
    seq(|p|, k requires 0 <= k < |p| => MarkAt(q, w, h, e, k))
  }

  /** One step of the marking loops: pixel (i, j) of `out` becomes black or
      `img`'s pixel; no other byte changes. */
  method MarkPixel(img: array<Byte>, out: array<Byte>, w: int, h: int, e: Edges, i: int, j: int)
    requires Shape(img.Length, w, h) && out.Length == img.Length && out != img
    requires InRegion(e, i, j) && 0 <= i < w && 0 <= j < h
    modifies out
    ensures forall k | 0 <= k < out.Length ::
      out[k] == if OnPixel(k, w, i, j) then MarkAt(img[..], w, h, e, k) else old(out[k])
  {
    IdxCoords(i, j, 0, w, h);
    IdxCoords(i, j, 1, w, h);
    IdxCoords(i, j, 2, w, h);
    OnPixelIdx(w, h, i, j);
    var below := IsBelowMedian(img, w, h, i, j);
    if below {
      SetPixel(out, w, h, i, j, 0, 0, 0);
    } else {
      SetPixel(out, w, h, i, j, img[Idx(i, j, 0, w)], img[Idx(i, j, 1, w)], img[Idx(i, j, 2, w)]);
    }
  }

  /** The marking loops of `threshold_filter::use_filter`: for each region
      pixel of the copy `out` (column i outer, row j inner), write black when
      the pixel is below its window's median in `img`, else `img`'s pixel. */
  method MarkRegion(img: array<Byte>, out: array<Byte>, w: int, h: int, e: Edges)
    requires Shape(img.Length, w, h) && out.Length == img.Length && out != img
    requires 0 <= e.x1 <= e.x2 <= w && 0 <= e.y1 <= e.y2 <= h
    requires out[..] == img[..]
    modifies out
    ensures forall k | 0 <= k < out.Length :: out[k] == MarkAt(img[..], w, h, e, k)
  {
    ghost var q := img[..];
    var i := e.x1;
    while i < e.x2
      invariant e.x1 <= i <= e.x2
      invariant forall k | 0 <= k < out.Length ::
        out[k] == if Visited(e, i, e.y1, XOf(k, w), YOf(k, w)) then MarkAt(q, w, h, e, k) else q[k]
    {
      var j := e.y1;
      while j < e.y2
        invariant e.y1 <= j <= e.y2
        invariant forall k | 0 <= k < out.Length ::
          out[k] == if Visited(e, i, j, XOf(k, w), YOf(k, w)) then MarkAt(q, w, h, e, k) else q[k]
      {
        MarkPixel(img, out, w, h, e, i, j);
        j := j + 1;
      }
      i := i + 1;
    }
    forall k | 0 <= k < out.Length ensures out[k] == MarkAt(q, w, h, e, k) {
      CoordsIdx(k, w, h);
    }
  }

  /** `threshold_filter::use_filter`: whiten the region, copy the whitened
      buffer, then write each region pixel of the copy black or leave it at
      its whitened value, deciding from the whitened buffer alone. The input
      array itself is left as it was (value semantics). */
  method ApplyThreshold(src: array<Byte>, w: int, h: int, d: Divisors) returns (out: array<Byte>)
    requires Shape(src.Length, w, h) && d.NonNegative()
    ensures out[..] == ThresholdImage(src[..], w, h, SetEdges(d, w, h))
  {
    var img := new Byte[src.Length];
    CopyPixels(img, src, w, h);
    Whiten(img, w, h, d);
    out := new Byte[img.Length];
    CopyPixels(out, img, w, h);
    var e := SetEdges(d, w, h);
    MarkRegion(img, out, w, h, e);
  }

  /** Blackening needs no sorting: pixel (i, j) is below its window's median
      exactly when at most n / 2 of the n window intensities are at most its
      own intensity. */
  lemma BelowMedianByRank(p: seq<Byte>, w: int, h: int, i: int, j: int)
    requires Shape(|p|, w, h) && 0 <= i < w && 0 <= j < h
    ensures BelowMedian(p, w, h, i, j) <==>
      CountAtMost(Window(p, w, h, i, j), LumaAt(p, w, h, i, j)) <= |Window(p, w, h, i, j)| / 2
  {
    MedianRank(Window(p, w, h, i, j), LumaAt(p, w, h, i, j));
  }

  /** No collected intensity of a column exceeds v when no in-image pixel
      of the column does. */
  lemma {:induction false} ColumnAtMost(p: seq<Byte>, w: int, h: int, x: int, j: int, yEnd: int, v: int)
    requires Shape(|p|, w, h) && 0 <= x < w && j - 2 <= yEnd <= j + 3
    requires forall y | j - 2 <= y < yEnd && 0 <= y < h :: LumaAt(p, w, h, x, y) <= v
    ensures forall u | u in ColumnCells(p, w, h, x, j, yEnd) :: u <= v
    decreases yEnd - (j - 2)
  {
    if yEnd > j - 2 {
      ColumnAtMost(p, w, h, x, j, yEnd - 1, v);
    }
  }

  /** No collected intensity of the window exceeds v when no in-image pixel
      of the window does. */
  lemma {:induction false} WindowAtMost(p: seq<Byte>, w: int, h: int, i: int, j: int, xEnd: int, v: int)
    requires Shape(|p|, w, h) && i - 2 <= xEnd <= i + 3
    requires forall x, y | i - 2 <= x < xEnd && j - 2 <= y <= j + 2 && 0 <= x < w && 0 <= y < h ::
      LumaAt(p, w, h, x, y) <= v
    ensures forall u | u in WindowCells(p, w, h, i, j, xEnd) :: u <= v
    decreases xEnd - (i - 2)
  {
    if xEnd > i - 2 {
      var x := xEnd - 1;
      WindowAtMost(p, w, h, i, j, x, v);
      if 0 <= x < w {
        ColumnAtMost(p, w, h, x, j, j + 3, v);
      }
    }
  }

  /** A pixel at least as bright as every in-bounds pixel of its window is
      never blackened; so neither is a pixel of a uniform window, nor the
      single pixel of a 1 x 1 image. */
  lemma BrightestNotBelow(p: seq<Byte>, w: int, h: int, i: int, j: int)
    requires Shape(|p|, w, h) && 0 <= i < w && 0 <= j < h
    requires forall x, y | i - 2 <= x <= i + 2 && j - 2 <= y <= j + 2 && 0 <= x < w && 0 <= y < h ::
      LumaAt(p, w, h, x, y) <= LumaAt(p, w, h, i, j)
    ensures !BelowMedian(p, w, h, i, j)
  {
    var win := Window(p, w, h, i, j);
    WindowAtMost(p, w, h, i, j, i + 3, LumaAt(p, w, h, i, j));
    forall n | 0 <= n < |win| ensures win[n] <= LumaAt(p, w, h, i, j) {
      assert win[n] in win;
    }
    NotBelowWhenMaximal(win, LumaAt(p, w, h, i, j));
  }

  /** Coordinate view of the threshold output: a region pixel is either black
      (and below its median in the whitened buffer) or grey at the luma of
      the input pixel; outside the region the input is kept. */
  lemma ThresholdPixel(p: seq<Byte>, w: int, h: int, e: Edges, x: int, y: int, c: int)
    requires Shape(|p|, w, h) && 0 <= x < w && 0 <= y < h && 0 <= c < 3
    ensures Chan(ThresholdImage(p, w, h, e), w, h, x, y, c) ==
      if !InRegion(e, x, y) then Chan(p, w, h, x, y, c)
      else if BelowMedian(WhitenImage(p, w, h, e), w, h, x, y) then 0
      else LumaAt(p, w, h, x, y)
  {
    IdxCoords(x, y, c, w, h);
    WhitenPixel(p, w, h, e, x, y, c);
  }

  /** A uniform grey buffer passes through the threshold filter unchanged:
      whitening keeps it and no pixel lies below its median. */
  lemma ThresholdOnUniform(p: seq<Byte>, w: int, h: int, e: Edges, v: Byte)
    requires Shape(|p|, w, h) && forall k | 0 <= k < |p| :: p[k] == v
    ensures ThresholdImage(p, w, h, e) == p
  {
    forall x, y | 0 <= x < w && 0 <= y < h
      ensures Chan(p, w, h, x, y, 0) == Chan(p, w, h, x, y, 1) == Chan(p, w, h, x, y, 2) == v
    {
      IdxCoords(x, y, 0, w, h);
      IdxCoords(x, y, 1, w, h);
      IdxCoords(x, y, 2, w, h);
    }
    WhitenGreyFixed(p, w, h, e);
    forall k | 0 <= k < |p| ensures ThresholdImage(p, w, h, e)[k] == p[k] {
      CoordsIdx(k, w, h);
      var x, y := XOf(k, w), YOf(k, w);
      BrightestNotBelow(p, w, h, x, y);
    }
  }
}

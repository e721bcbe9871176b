/** Region selection: how a filter turns its four configured divisors into the
    rectangle [x1, x2) x [y1, y2) of pixels it works on (`filter::set_edges`). */
module Region {

  /** The four divisors a filter is configured with: `u` and `b` divide the
      width, `l` and `r` divide the height. */
  datatype Divisors = Divisors(u: int, l: int, b: int, r: int)
  {
    predicate NonNegative() { u >= 0 && l >= 0 && b >= 0 && r >= 0 }
  }

  /** A resolved rectangle: columns [x1, x2), rows [y1, y2) (`filter_edges`). */
  datatype Edges = Edges(x1: int, y1: int, x2: int, y2: int)

  /** One edge coordinate: a zero divisor collapses the edge to 0, any other
      divisor gives `dim / div`, the largest r with r * div <= dim. */
  function EdgeOf(div: int, dim: int): (r: int)
    requires div >= 0 && dim >= 0
    ensures 0 <= r <= dim
    ensures div == 0 ==> r == 0
    ensures div > 0 ==> r * div <= dim < (r + 1) * div
  {
    if div == 0 then 0
    else
      DivBounds(dim, div);
      MulMono(1, div, dim / div);
      dim / div
  }

  /** Floor division of a natural leaves a remainder below the divisor. */
  lemma DivBounds(n: nat, d: int)
    requires d > 0
    ensures 0 <= n / d && (n / d) * d <= n < (n / d) * d + d
  {
    assert n == (n / d) * d + n % d;
  }

  /** `filter::set_edges`: compute x1 from u, y1 from l, x2 from b, y2 from r,
      then swap each pair that came out inverted. */
  function SetEdges(d: Divisors, w: int, h: int): (e: Edges)
    requires d.NonNegative() && w >= 0 && h >= 0
    ensures 0 <= e.x1 <= e.x2 <= w && 0 <= e.y1 <= e.y2 <= h
    ensures multiset{e.x1, e.x2} == multiset{EdgeOf(d.u, w), EdgeOf(d.b, w)}
    ensures multiset{e.y1, e.y2} == multiset{EdgeOf(d.l, h), EdgeOf(d.r, h)}
  {
    var x1, x2 := EdgeOf(d.u, w), EdgeOf(d.b, w);
    var y1, y2 := EdgeOf(d.l, h), EdgeOf(d.r, h);
    Edges(if x1 > x2 then x2 else x1, if y1 > y2 then y2 else y1,
          if x1 > x2 then x1 else x2, if y1 > y2 then y1 else y2)
  }

  /** Pixel (x, y) lies in the resolved rectangle. */
  predicate InRegion(e: Edges, x: int, y: int)
  {
    e.x1 <= x < e.x2 && e.y1 <= y < e.y2
  }

  /** Progress of the filters' nested loops, column i outer and row j inner:
      pixel (x, y) of the rectangle has been handled once the loops stand at (i, j). */
  predicate Visited(e: Edges, i: int, j: int, x: int, y: int)
  {
    e.y1 <= y < e.y2 && (e.x1 <= x < i || (x == i && y < j))
  }

  /** A larger divisor never moves an edge outwards. */
  lemma EdgeOfAntitone(d1: int, d2: int, dim: int)
    requires 0 < d1 <= d2 && dim >= 0
    ensures EdgeOf(d2, dim) <= EdgeOf(d1, dim)
  {
    var r1, r2 := EdgeOf(d1, dim), EdgeOf(d2, dim);
    if r2 > r1 {
      calc {
        dim;
      <  (r1 + 1) * d1;
      <= { MulMono(r1 + 1, r2, d1); } r2 * d1;
      <= { MulMono(d1, d2, r2); } r2 * d2;
      }
      assert false;
    }
  }

  /** Multiplication by a non-negative factor is monotone. */
  lemma MulMono(a: int, b: int, c: int)
    requires a <= b && c >= 0
    ensures a * c <= b * c
  {
  }

  /** Divisors (0, 0, 1, 1) select the whole image. */
  lemma FullRegion(w: int, h: int)
    requires w >= 0 && h >= 0
    ensures SetEdges(Divisors(0, 0, 1, 1), w, h) == Edges(0, 0, w, h)
  {
  }

  /** Divisors (1, 1, 1, 1) put both x edges at the width and both y edges at
      the height: the rectangle is empty and no pixel is selected. */
  lemma UnitDivisorsSelectNothing(w: int, h: int)
    requires w >= 0 && h >= 0
    ensures SetEdges(Divisors(1, 1, 1, 1), w, h) == Edges(w, h, w, h)
    ensures forall x, y :: !InRegion(SetEdges(Divisors(1, 1, 1, 1), w, h), x, y)
  {
  }

  /** A zero divisor on both edges of an axis collapses that axis to [0, 0):
      nothing is selected, whatever the other axis. */
  lemma ZeroPairSelectsNothing(d: Divisors, w: int, h: int)
    requires d.NonNegative() && w >= 0 && h >= 0
    requires (d.u == 0 && d.b == 0) || (d.l == 0 && d.r == 0)
    ensures forall x, y :: !InRegion(SetEdges(d, w, h), x, y)
  {
  }
}

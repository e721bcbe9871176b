/** The filter dispatch (`filter::use_filter` through the object's dynamic
    type) and the chain `main` runs: one filter per config line, each applied
    to the image the previous one produced. */
module Chain {
  import opened Region
  import opened Pixels
  import opened SimpleFilters
  import opened Threshold
  import opened MatrixFilter
  import opened Factory

  /** The image a filter returns for input p. */
  function ApplyFilter(f: Filter, p: seq<Byte>, w: int, h: int): (q: seq<Byte>)
    requires Shape(|p|, w, h) && f.Valid()
    ensures |q| == |p|
  {
    var e := SetEdges(f.div, w, h);
    match f
    case WbFilter(_) => WhitenImage(p, w, h, e)
    case RedFilter(_) => RedImage(p, w, h, e)
    case ThresholdFilter(_) => ThresholdImage(p, w, h, e)
    case EdgeFilter(_, kernel) => ConvolveImage(WhitenImage(p, w, h, e), w, h, kernel, e)
    case BlurFilter(_, kernel) => ConvolveImage(p, w, h, kernel, e)
  }

  /** `filt->use_filter(image)`: run the filter's own `use_filter`. The two
      in-place filters work on a copy, so the caller's array is never
      changed. */
  method UseFilter(f: Filter, src: array<Byte>, w: int, h: int) returns (out: array<Byte>)
    requires Shape(src.Length, w, h) && f.Valid()
    ensures out[..] == ApplyFilter(f, src[..], w, h)
  {
    match f
    case WbFilter(d) =>
      out := new Byte[src.Length];
      CopyPixels(out, src, w, h);
      Whiten(out, w, h, d);
    case RedFilter(d) =>
      out := new Byte[src.Length];
      CopyPixels(out, src, w, h);
      SimpleFilters.Red(out, w, h, d);
    case ThresholdFilter(d) =>
      out := ApplyThreshold(src, w, h, d);
    case EdgeFilter(d, kernel) =>
      out := ApplyEdge(src, w, h, kernel, d);
    case BlurFilter(d, kernel) =>
      out := ApplyMatrix(src, w, h, kernel, d);
  }

  /** Every config line has non-negative divisors. */
  predicate Configured(cfgs: seq<ConfigParams>)
  {
    forall n | 0 <= n < |cfgs| :: cfgs[n].div.NonNegative()
  }

  /** The image after running the config lines in order. */
  function RunChainSpec(cfgs: seq<ConfigParams>, p: seq<Byte>, w: int, h: int): (q: seq<Byte>)
    requires Shape(|p|, w, h) && Configured(cfgs)
    ensures |q| == |p|
    decreases |cfgs|
  {
    if cfgs == [] then p
    else RunChainSpec(cfgs[1..], ApplyFilter(MakeFilter(cfgs[0]), p, w, h), w, h)
  }

  /** The loop of `main`: build the filter of each config line, apply it to
      the current image, and make its result the current image. */
  method RunChain(cfgs: seq<ConfigParams>, src: array<Byte>, w: int, h: int) returns (out: array<Byte>)
    requires Shape(src.Length, w, h) && Configured(cfgs)
    ensures out[..] == RunChainSpec(cfgs, src[..], w, h)
  {
    out := src;
    var i := 0;
    assert cfgs[i..] == cfgs;
    while i < |cfgs|
      invariant 0 <= i <= |cfgs| && Shape(out.Length, w, h)
      invariant RunChainSpec(cfgs[i..], out[..], w, h) == RunChainSpec(cfgs, src[..], w, h)
    {
      assert cfgs[i..][1..] == cfgs[i + 1..];
      var filt := MakeFilter(cfgs[i]);
      out := UseFilter(filt, out, w, h);
      i := i + 1;
    }
  }

  /** Running two chains one after the other is running their
      concatenation. */
  lemma {:induction false} RunChainAppend(a: seq<ConfigParams>, b: seq<ConfigParams>, p: seq<Byte>, w: int, h: int)
    requires Shape(|p|, w, h) && Configured(a) && Configured(b)
    ensures Configured(a + b)
    ensures RunChainSpec(a + b, p, w, h) == RunChainSpec(b, RunChainSpec(a, p, w, h), w, h)
    decreases |a|
  {
    if a == [] {
      assert a + b == b;
    } else {
      assert (a + b)[1..] == a[1..] + b;
      assert (a + b)[0] == a[0];
      RunChainAppend(a[1..], b, ApplyFilter(MakeFilter(a[0]), p, w, h), w, h);
    }
  }

  /** Every filter leaves each byte outside its resolved region as it was. */
  lemma OutsideUnchanged(f: Filter, p: seq<Byte>, w: int, h: int, k: int)
    requires Shape(|p|, w, h) && f.Valid() && 0 <= k < |p|
    requires !InRegion(SetEdges(f.div, w, h), XOf(k, w), YOf(k, w))
    ensures ApplyFilter(f, p, w, h)[k] == p[k]
  {
    CoordsIdx(k, w, h);
  }

  /** A filter whose region holds no pixel returns its input. */
  lemma EmptyRegionNoOp(f: Filter, p: seq<Byte>, w: int, h: int)
    requires Shape(|p|, w, h) && f.Valid()
    requires forall x, y | 0 <= x < w && 0 <= y < h :: !InRegion(SetEdges(f.div, w, h), x, y)
    ensures ApplyFilter(f, p, w, h) == p
  {
    forall k | 0 <= k < |p| ensures ApplyFilter(f, p, w, h)[k] == p[k] {
      CoordsIdx(k, w, h);
      OutsideUnchanged(f, p, w, h, k);
    }
  }

  /** Config lines whose divisors are all 1 resolve to the empty region
      (x1 = x2 = w, y1 = y2 = h), so a chain of them, of any kinds, leaves
      the image unchanged. */
  lemma {:induction false} UnitDivisorsNoOp(cfgs: seq<ConfigParams>, p: seq<Byte>, w: int, h: int)
    requires Shape(|p|, w, h)
    requires forall n | 0 <= n < |cfgs| :: cfgs[n].div == Divisors(1, 1, 1, 1)
    ensures Configured(cfgs) && RunChainSpec(cfgs, p, w, h) == p
    decreases |cfgs|
  {
    if cfgs != [] {
      var f := MakeFilter(cfgs[0]);
      UnitDivisorsSelectNothing(w, h);
      EmptyRegionNoOp(f, p, w, h);
      UnitDivisorsNoOp(cfgs[1..], p, w, h);
    }
  }

  /** Red then whiten over the same divisors: the region ends up grey at the
      luma of red, 76, and the rest of the image is the input. */
  lemma RedThenWhiten(d: Divisors, p: seq<Byte>, w: int, h: int)
    requires Shape(|p|, w, h) && d.NonNegative()
    ensures Configured([ConfigParams(d, Red), ConfigParams(d, Wb)])
    ensures var q := RunChainSpec([ConfigParams(d, Red), ConfigParams(d, Wb)], p, w, h);
      forall k | 0 <= k < |p| :: q[k] == if InRegion(SetEdges(d, w, h), XOf(k, w), YOf(k, w)) then 76 else p[k]
  {
    var cfgs := [ConfigParams(d, Red), ConfigParams(d, Wb)];
    var e := SetEdges(d, w, h);
    var q1 := RedImage(p, w, h, e);
    assert ApplyFilter(MakeFilter(cfgs[0]), p, w, h) == q1;
    assert cfgs[1..] == [ConfigParams(d, Wb)];
    assert ApplyFilter(MakeFilter(cfgs[1..][0]), q1, w, h) == WhitenImage(q1, w, h, e);
    assert cfgs[1..][1..] == [];
    assert RunChainSpec(cfgs, p, w, h) == RunChainSpec(cfgs[1..], q1, w, h) == WhitenImage(q1, w, h, e);
    WhitenAfterRed(p, w, h, e);
  }

  /** Whiten then red over the same divisors is red alone: the second filter
      overwrites every pixel the first one touched. */
  lemma WhitenThenRed(d: Divisors, p: seq<Byte>, w: int, h: int)
    requires Shape(|p|, w, h) && d.NonNegative()
    ensures Configured([ConfigParams(d, Wb), ConfigParams(d, Red)])
    ensures RunChainSpec([ConfigParams(d, Wb), ConfigParams(d, Red)], p, w, h) ==
      RunChainSpec([ConfigParams(d, Red)], p, w, h)
  {
    var cfgs := [ConfigParams(d, Wb), ConfigParams(d, Red)];
    assert cfgs[1..] == [ConfigParams(d, Red)];
    assert cfgs[1..][1..] == [];
    assert [ConfigParams(d, Red)][1..] == [];
    RedAfterWhiten(p, w, h, SetEdges(d, w, h));
  }
}

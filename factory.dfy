/** The filter kinds, the configuration record of one config line, the
    mapping from a filter name to its kind, and `factory_impl::make_filter`,
    which builds a filter and attaches the kernel of the two matrix
    filters. */
module Factory {
  import opened Region
  import opened Pixels
  import opened MatrixFilter

  datatype Option<T> = None | Some(value: T)

  /** `FILTER`. */
  datatype FilterKind = Wb | Red | Threshold | Edge | Blur

  /** `config_params`: the four divisors and the filter kind. */
  datatype ConfigParams = ConfigParams(div: Divisors, kind: FilterKind)

  /** A constructed filter: the divisors it copied from its configuration
      and, for the matrix filters, its 3 x 3 kernel (column index plus three
      times the row index). */
  datatype Filter =
    | WbFilter(div: Divisors)
    | RedFilter(div: Divisors)
    | ThresholdFilter(div: Divisors)
    | EdgeFilter(div: Divisors, kernel: seq<int>)
    | BlurFilter(div: Divisors, kernel: seq<int>)
  {
    /** Divisors the region can be resolved from and, for a matrix filter,
        a nine-weight kernel whose sum can be divided by. */
    predicate Valid()
    {
      div.NonNegative() &&
      ((EdgeFilter? || BlurFilter?) ==> |kernel| == 9 && Norm(kernel) != 0)
    }

    function Kind(): FilterKind
    {
      match this
      case WbFilter(_) => Wb
      case RedFilter(_) => Red
      case ThresholdFilter(_) => Threshold
      case EdgeFilter(_, _) => Edge
      case BlurFilter(_, _) => Blur
    }
  }

  /** The sharpening kernel of the edge filter. */
  const EdgeKernel: seq<int> := [-1, -1, -1, -1, 9, -1, -1, -1, -1]

  /** The box kernel of the blur filter. */
  const BlurKernel: seq<int> := [1, 1, 1, 1, 1, 1, 1, 1, 1]

  /** `factory_impl::make_filter`: the filter of the configured kind over the
      configured divisors; the edge filter gets a kernel of sum 1 with weight
      9 in the centre, the blur filter the all-ones kernel of sum 9. */
  function MakeFilter(cfg: ConfigParams): (f: Filter)
    ensures f.div == cfg.div && f.Kind() == cfg.kind
    ensures f.EdgeFilter? ==>
      |f.kernel| == 9 && Norm(f.kernel) == 1 && f.kernel[4] == 9 && (forall t | 0 <= t < 9 && t != 4 :: f.kernel[t] == -1)
    ensures f.BlurFilter? ==>
      |f.kernel| == 9 && Norm(f.kernel) == 9 && forall t | 0 <= t < 9 :: f.kernel[t] == 1
    ensures cfg.div.NonNegative() ==> f.Valid()
  {
    match cfg.kind
    case Wb => WbFilter(cfg.div)
    case Red => RedFilter(cfg.div)
    case Threshold => ThresholdFilter(cfg.div)
    case Edge => EdgeFilter(cfg.div, EdgeKernel)
    case Blur => BlurFilter(cfg.div, BlurKernel)
  }

  /** The name a config line uses for each kind. */
  function NameOf(k: FilterKind): string
  {
    match k
    case Wb => "wb"
    case Red => "red"
    case Threshold => "threshold"
    case Edge => "edge"
    case Blur => "blur"
  }

  /** The name test of `config_parser::parse`; any other word is `None`. */
  function ParseName(s: string): (r: Option<FilterKind>)
    ensures r.Some? ==> NameOf(r.value) == s
  {
    if s == "wb" then Some(Wb)
    else if s == "red" then Some(Red)
    else if s == "threshold" then Some(Threshold)
    else if s == "edge" then Some(Edge)
    else if s == "blur" then Some(Blur)
    else None
  }

  /** A word parses to a kind exactly when it is that kind's name: the
      five names are distinct and each is recognised. */
  lemma ParseNameExact(s: string, k: FilterKind)
    ensures ParseName(s) == Some(k) <==> s == NameOf(k)
  {
  }

  /** With either shipped kernel, a pixel whose whole 3 x 3 neighbourhood is
      inside the image and flat at v in channel c keeps v there under
      convolution: the blur sum is 9v / 9 and the edge sum (9v - 8v) / 1. */
  lemma ShippedKernelFlat(cfg: ConfigParams, p: seq<Byte>, w: int, h: int, e: Edges, i: int, j: int, c: int)
    requires cfg.kind == Edge || cfg.kind == Blur
    requires Shape(|p|, w, h) && 0 <= c < 3 && 1 <= i < w - 1 && 1 <= j < h - 1
    requires forall x, y | i - 1 <= x <= i + 1 && j - 1 <= y <= j + 1 :: Chan(p, w, h, x, y, c) == Chan(p, w, h, i, j, c)
    ensures var f := MakeFilter(cfg);
      Chan(ConvolveImage(p, w, h, f.kernel, e), w, h, i, j, c) == Chan(p, w, h, i, j, c)
  {
    var f := MakeFilter(cfg);
    FlatInteriorFixed(p, w, h, f.kernel, e, i, j, c);
  }
}

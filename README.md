# Filter engine of png_toolkit, in Dafny

This project models the image filter engine of the `filters` toolkit. An
image is a row-major buffer of `w * h` pixels with three byte channels each.
Channel `c` of pixel `(x, y)` sits at `3 * (x + y * w) + c`.

A configuration line names a filter (`wb`, `red`, `threshold`, `edge` or
`blur`) and gives four divisors `u l b r`. The filter resolves them into a
rectangle `[x1, x2) x [y1, y2)` and changes only pixels inside it:

- `wb` turns each pixel grey at its weighted luma `(3R + 6G + B) / 10`.
- `red` paints each pixel `(255, 0, 0)`.
- `threshold` whitens the rectangle, then blackens each pixel whose
  intensity is strictly below the median of the in-image part of its 5 x 5
  window.
- `blur` and `edge` are 3 x 3 convolutions with zero padding. Each sum is
  divided by the kernel sum (truncating, as C++ `/` does) and clamped to
  `[0, 255]`. `edge` whitens first.

`main` runs the configuration lines in order, each on the image the previous
one produced.

Modules, one per part of `png_toolkit.cpp`:

- `Region` (`region.dfy`) resolves the divisors into a rectangle.
- `Pixels` (`pixels.dfy`) holds the buffer layout, index geometry, the
  per-pixel write and `copy_pixels`.
- `SimpleFilters` (`simple_filters.dfy`) holds `wb` and `red`.
- `Median` (`median.dfy`) holds the sort and median that stand for `qsort`.
- `Threshold` (`threshold.dfy`) holds `is_below_median` and the threshold
  filter.
- `MatrixFilter` (`matrix_filter.dfy`) holds `get_norm`, the convolution and
  the edge filter.
- `Factory` (`factory.dfy`) holds the filter kinds, the name mapping and
  `make_filter`.
- `Chain` (`chain.dfy`) holds the `use_filter` dispatch and the loop of
  `main`.

How the model is built:

- Every filter loop is an imperative method over an `array` of bytes, with
  loop invariants.
- Each method is proved equal to a per-byte specification function. The
  properties are proved about those functions.
- `SimpleFilters.Whiten` and `SimpleFilters.Red` update their array in
  place, as the C++ `wb` and `red` filters do. `Chain.UseFilter` and the
  copy-then-write filters (`ApplyThreshold`, `ApplyMatrix`, `ApplyEdge`)
  return a new array and leave their input unchanged.

The divisors `1 1 1 1` select no pixel at all: both `x` edges land on the
width and both `y` edges on the height. The whole image is `0 0 1 1`. The
model follows the code here (`UnitDivisorsSelectNothing`, `FullRegion`,
`Chain.UnitDivisorsNoOp`). This differs from a reading of `1 1 1 1` as
"whole image".

## Model

| member | source | states |
|---|---|---|
| Region.EdgeOf | png_toolkit.cpp:104-127 | A zero divisor puts the edge at 0. A positive divisor gives the largest r with r * div <= dim. The edge always lies in [0, dim]. |
| Region.SetEdges | png_toolkit.cpp:102-136 | The rectangle satisfies 0 <= x1 <= x2 <= w and 0 <= y1 <= y2 <= h. Each pair is the two computed edges in some order, so the only repair is a swap. |
| Region.DivBounds | png_toolkit.cpp:104-127 | Dividing a natural by a positive divisor leaves a remainder in [0, divisor). |
| Region.EdgeOfAntitone | png_toolkit.cpp:104-127 | A larger divisor never moves an edge outwards. |
| Region.FullRegion | png_toolkit.cpp:102-136 | Divisors (0, 0, 1, 1) select the whole image. |
| Region.UnitDivisorsSelectNothing | png_toolkit.cpp:102-136 | Divisors (1, 1, 1, 1) resolve to (w, h, w, h), which contains no pixel. |
| Region.ZeroPairSelectsNothing | png_toolkit.cpp:104-127 | Zero divisors on both edges of one axis select nothing. |
| Pixels.IdxCoords | png_toolkit.cpp:151-153 | Every in-image (x, y, c) maps to an index inside the buffer, and that index decodes back to (x, y, c). |
| Pixels.CoordsIdx | png_toolkit.cpp:151-153 | Every buffer index is channel k % 3 of one in-image pixel. |
| Pixels.OnPixelIdx | png_toolkit.cpp:151-153 | The bytes of pixel (x, y) are exactly its three channel slots. |
| Pixels.SetPixel | png_toolkit.cpp:172-174 | Writing a pixel sets its three channels and leaves every other byte as it was. |
| Pixels.CopyPixels | png_toolkit.cpp:148-156 | After the column-by-column copy, the destination equals the source. |
| SimpleFilters.Luma | png_toolkit.cpp:171 | The weighted luma lies between the smallest and the largest channel, so it fits a byte. |
| SimpleFilters.Whiten | png_toolkit.cpp:162-178 | The new buffer is the whitened image of the old one. |
| SimpleFilters.Red | png_toolkit.cpp:180-191 | The new buffer is the old one with the region painted red. |
| SimpleFilters.WhitenPixel | png_toolkit.cpp:165-175 | Inside the region, all three channels become the pixel's input luma. Outside it, every channel is unchanged. |
| SimpleFilters.RedPixel | png_toolkit.cpp:183-189 | Inside the region, a pixel is exactly (255, 0, 0). Outside it, every channel is unchanged. |
| SimpleFilters.WhitenGreyFixed | png_toolkit.cpp:171 | Whitening leaves an all-grey buffer unchanged, because (3v + 6v + v) / 10 = v. |
| SimpleFilters.WhitenMakesGrey | png_toolkit.cpp:171-174 | After whitening, every region pixel has three equal channels. |
| SimpleFilters.WhitenIdempotent | png_toolkit.cpp:162-178 | Whitening twice gives the same buffer as whitening once. |
| SimpleFilters.RedAfterWhiten | png_toolkit.cpp:162-191 | Red after whiten over the same region gives the same buffer as red alone. |
| SimpleFilters.WhitenAfterRed | png_toolkit.cpp:162-191 | Whiten after red makes the region grey at 76 and keeps the rest of the input. |
| Median.Insert | png_toolkit.cpp:237 | Insertion into an ascending sequence keeps it ascending and adds exactly one copy of the element. |
| Median.SortAsc | png_toolkit.cpp:193-195 | The sort result is ascending and is a permutation of the input. |
| Median.SortedUnique | png_toolkit.cpp:237 | Two ascending permutations of the same elements are equal, so the median does not depend on the sort algorithm. |
| Median.MedianOfAnySort | png_toolkit.cpp:237-245 | Any ascending permutation has the median at index n / 2. |
| Median.CountInsert | png_toolkit.cpp:237 | Insertion adds one to the count of elements at most v exactly when the inserted element is at most v. |
| Median.CountSort | png_toolkit.cpp:237 | Sorting keeps the count of elements at most v. |
| Median.CountAll | png_toolkit.cpp:245 | If every element is at most v, the count equals the length. |
| Median.CountNone | png_toolkit.cpp:245 | If an ascending sequence starts above v, the count is zero. |
| Median.SortedRank | png_toolkit.cpp:245 | In an ascending sequence, v is below the element at index m exactly when at most m elements are at most v. |
| Median.MedianRank | png_toolkit.cpp:237-245 | v is below the median exactly when at most n / 2 elements are at most v. |
| Median.NotBelowWhenMaximal | png_toolkit.cpp:245 | An element at least as large as all the others is never below the median. |
| Threshold.ColumnCells | png_toolkit.cpp:211-222 | One column holds no more intensities than rows scanned. |
| Threshold.WindowCells | png_toolkit.cpp:209-224 | The scanned columns hold at most five intensities each. |
| Threshold.CentreInCells | png_toolkit.cpp:218-220 | The centre's intensity is always among the collected ones. |
| Threshold.Window | png_toolkit.cpp:209-224 | The window holds between 1 and 25 intensities, the centre's among them. |
| Threshold.ReadIntensity | png_toolkit.cpp:213-217 | The value read is the pixel's luma. |
| Threshold.Store | png_toolkit.cpp:217 | Slot n receives the value, the first n slots are kept, and the slots after n are unchanged. |
| Threshold.CollectCell | png_toolkit.cpp:212-220 | One row step appends the cell's intensity exactly when the row is inside the image. It takes the centre's intensity when the cell is the centre. |
| Threshold.CollectColumn | png_toolkit.cpp:211-222 | The slots already filled are kept, and the column's in-image intensities follow them in row order. The remaining slots stay -1. |
| Threshold.WindowStep | png_toolkit.cpp:209-223 | One column step extends the collected prefix by that column's cells when the column is inside the image, and by nothing otherwise. |
| Threshold.CollectWindow | png_toolkit.cpp:207-224 | The first `counter` slots hold the window intensities in scan order. The rest stay -1. `intensity` is the centre's luma. |
| Threshold.IsBelowMedian | png_toolkit.cpp:197-246 | The answer is "centre intensity < element n / 2 of the sorted window". The -1 sentinel count finds exactly the collected entries. |
| Threshold.MarkPixel | png_toolkit.cpp:272-281 | One region pixel of the copy becomes black or the input pixel. No other byte changes. |
| Threshold.MarkRegion | png_toolkit.cpp:270-283 | Every byte of the copy is black where the input pixel is in the region and below its median, and the input byte otherwise. |
| Threshold.ApplyThreshold | png_toolkit.cpp:248-290 | The result is the threshold image of the input: whiten, then mark, deciding from the whitened buffer. |
| Threshold.BelowMedianByRank | png_toolkit.cpp:197-246 | A pixel is blackened exactly when at most n / 2 window intensities are at most its own. This needs no sort. |
| Threshold.ColumnAtMost | png_toolkit.cpp:211-222 | If every in-image intensity of a column is at most v, every collected cell is at most v. |
| Threshold.WindowAtMost | png_toolkit.cpp:209-224 | If every in-image intensity of the window is at most v, every collected cell is at most v. |
| Threshold.BrightestNotBelow | png_toolkit.cpp:245 | A pixel as bright as its whole window is never blackened. This covers uniform windows and n = 1. |
| Threshold.ThresholdPixel | png_toolkit.cpp:248-290 | Outside the region, a pixel keeps its input value. Inside it, the pixel is black when below the median in the whitened buffer, and otherwise grey at its input luma. |
| Threshold.ThresholdOnUniform | png_toolkit.cpp:248-290 | A uniform buffer passes through unchanged. |
| MatrixFilter.TruncDiv | png_toolkit.cpp:340-348 | The quotient truncates toward zero: q * d lies between 0 and a, and \|a - q * d\| < \|d\|. |
| MatrixFilter.TruncDivExact | png_toolkit.cpp:340-348 | Dividing an exact multiple v * n by n gives v. |
| MatrixFilter.TruncDivNonNegative | png_toolkit.cpp:340-348 | For a non-negative sum and a positive norm, truncating division equals floor division. |
| MatrixFilter.Clamp | png_toolkit.cpp:341-350 | Values above 255 become 255 and values below 0 become 0. Bytes are kept. |
| MatrixFilter.NormPrefixFull | png_toolkit.cpp:294-298 | The nine loop steps add each kernel weight exactly once. |
| MatrixFilter.GetNorm | png_toolkit.cpp:292-300 | The result is the sum of the nine weights. |
| MatrixFilter.ColumnSums | png_toolkit.cpp:320-333 | For one column x, the three running sums grow by the kernel-weighted samples of rows j - 1 .. j + 1, with out-of-image samples counted as 0. |
| MatrixFilter.NeighbourSums | png_toolkit.cpp:316-335 | r, g and b are the kernel-weighted sums of the 3 x 3 neighbourhood. Out-of-image samples count as 0, and neighbour (x, y) has weight kernel[(x - (i - 1)) + (y - (j - 1)) * 3]. |
| MatrixFilter.ConvolvePixel | png_toolkit.cpp:340-355 | One region pixel of the copy gets clamp(trunc(sum / norm)) per channel. No other byte changes. |
| MatrixFilter.ConvolveRegion | png_toolkit.cpp:314-360 | Every byte of the copy is the convolution of the input inside the region and the input byte outside. All reads come from the input, never from the copy. |
| MatrixFilter.ApplyMatrix | png_toolkit.cpp:302-366 | The result is the convolution image of the input over the resolved region. |
| MatrixFilter.ApplyEdge | png_toolkit.cpp:368-380 | The result is the convolution of the whitened input over the same region. |
| MatrixFilter.ConvolvePixelValue | png_toolkit.cpp:314-355 | Inside the region, a channel is clamp(trunc(sum / norm)). Outside it, the input is kept. |
| MatrixFilter.FlatColumn | png_toolkit.cpp:318-334 | A column of three samples all equal to v sums to v times its three weights. |
| MatrixFilter.FlatSum | png_toolkit.cpp:318-334 | A neighbourhood with all nine samples equal to v sums to v * norm. |
| MatrixFilter.FlatInteriorFixed | png_toolkit.cpp:314-355 | An interior pixel whose 3 x 3 neighbourhood is flat at v keeps v under any kernel with a non-zero sum. |
| Factory.MakeFilter | png_toolkit.cpp:33-50 | The filter has the configured kind and divisors. Edge gets the kernel with 9 at the centre and -1 in the eight other weights (sum 1), and blur gets nine ones of sum 9. With non-negative divisors, the filter is usable. |
| Factory.ParseName | png_toolkit.cpp:77-96 | A recognised word is the name of the kind it yields. |
| Factory.ParseNameExact | png_toolkit.cpp:77-96 | A word parses to a kind exactly when it is that kind's name. |
| Factory.ShippedKernelFlat | png_toolkit.cpp:43-46 | Both shipped kernels keep a flat interior neighbourhood: 9v / 9 for blur and (9v - 8v) / 1 for edge. |
| Chain.ApplyFilter | png_toolkit.cpp:162-380 | Each filter returns a buffer of the input's length. |
| Chain.UseFilter | main.cpp:24 | The method returns the image the filter's `use_filter` produces, and the input array is not changed. |
| Chain.RunChainSpec | main.cpp:20-29 | The chain keeps the buffer length. |
| Chain.RunChain | main.cpp:20-29 | The loop returns the left fold of the filters over the configuration lines. |
| Chain.RunChainAppend | main.cpp:20-29 | Running a concatenated chain is running one part after the other. |
| Chain.OutsideUnchanged | png_toolkit.cpp:162-380 | Every filter keeps each byte outside its region. |
| Chain.EmptyRegionNoOp | png_toolkit.cpp:162-380 | A filter whose region holds no pixel returns its input. |
| Chain.UnitDivisorsNoOp | main.cpp:20-29 | A chain of lines whose divisors are all 1 leaves the image unchanged, whatever the kinds. |
| Chain.RedThenWhiten | main.cpp:20-29 | red then wb over the same divisors leaves the region grey at 76 and keeps the rest. |
| Chain.WhitenThenRed | main.cpp:20-29 | wb then red over the same divisors equals red alone. |

## Left out

- PNG loading and saving, and the `png_toolkit` wrapper around stb_image
  (png_toolkit.cpp:1-31). These are foreign library calls, so an image
  enters the model as a width, a height and a byte buffer.
- Reading configuration lines from a file (`config_parser`,
  png_toolkit.cpp:52-98), and `main`'s argument checks and end-of-file loop.
  These are text I/O. Only the name-to-kind mapping is modelled
  (`Factory.ParseName`). An unknown name leaves the C++ kind uninitialised;
  the model returns `None` there.
- Memory management: `new`/`delete[]`, the buffer swaps, and the destructor.
  Every filter seen through `Chain.UseFilter` has value semantics here. The C++ `threshold` and `edge`
  filters whiten the caller's buffer in place through the shared pointer
  before copying it (png_toolkit.cpp:253, 373), and `wb`/`red` write in
  place. `Chain.UseFilter` copies first instead, so that aliasing is not
  modelled.
- Channel counts other than 3. The indexing hard-codes 3, so the model
  requires three channels.
- Negative divisors are excluded (`Divisors.NonNegative`). They would give
  negative coordinates and out-of-bounds accesses.
- Kernels whose sum is 0 are excluded. They would divide by zero.
- The `qsort` call and `comp` are modelled by a functional insertion sort.
  `Median.SortedUnique` shows that any ascending permutation gives the same
  median.
- 32-bit `int` overflow is not modelled. Sums are at most 9 * 255 * |weight|
  and the weighted channel sum `3R + 6G + B` before the division by 10 is at
  most 2550, so no overflow occurs for the shipped kernels.
- Chain.ApplyFilter: its own contract only gives the buffer length. What it
  computes is stated by `Chain.UseFilter`, `Chain.OutsideUnchanged` and the
  per-filter lemmas.
- Chain.RunChainSpec: its own contract only gives the buffer length. What it
  computes is stated by `Chain.RunChain` and `Chain.RunChainAppend`.

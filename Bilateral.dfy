/**
 * The bilateral filter, written twice in the repository with the same loops
 * and formulas: bilateralFilterCore in the filter service and bilateralFilter
 * in the web worker. Each output pixel is the average of the pixels of a
 * square window around it, each weighted by a spatial factor (its offset) and
 * a colour factor (its RGB difference from the centre). Both factors go
 * through Math.exp, which is a parameter here.
 */
module Bilateral {
  import opened Raster
  import opened ProcessingModels

  /** Math.exp, left abstract. */
  type Exp = real -> real

  /**
   * What the lemmas need of Math.exp: exp(0) is 1 and no value is negative
   * (a value may underflow to 0).
   */
  ghost predicate ExpLike(exp: Exp) {
    exp(0.0) == 1.0 && forall t :: exp(t) >= 0.0
  }

  /** A Gaussian factor Math.exp(-dist / (2 * sigma * sigma)), as a function of dist and sigma. */
  type Gaussian = (real, real) -> real

  /**
   * The factor both weights use, built on exp; dividing by 2 * sigma and then
   * by sigma divides by 2 * sigma * sigma. A zero sigma, which the service
   * rejects before filtering, gives 0.
   */
  function GaussianOf(exp: Exp): Gaussian {
    (dist: real, sigma: real) => if sigma == 0.0 then 0.0 else exp(-dist / (2.0 * sigma) / sigma)
  }

  /** What the lemmas need of a Gaussian factor: 1 at distance 0, and never negative. */
  ghost predicate GaussLike(g: Gaussian) {
    (forall sigma :: sigma != 0.0 ==> g(0.0, sigma) == 1.0) &&
    forall dist, sigma :: g(dist, sigma) >= 0.0
  }

  /** Built on Math.exp, the factor is 1 at distance 0 and never negative. */
  lemma GaussianOfLike(exp: Exp)
    ensures ExpLike(exp) ==> GaussLike(GaussianOf(exp))
  {
    if ExpLike(exp) {
      var g := GaussianOf(exp);
      forall sigma | sigma != 0.0 ensures g(0.0, sigma) == 1.0 {
        assert -0.0 / (2.0 * sigma) / sigma == 0.0;
      }
      forall dist, sigma ensures g(dist, sigma) >= 0.0 {
        if sigma != 0.0 {
          assert exp(-dist / (2.0 * sigma) / sigma) >= 0.0;
        }
      }
    }
  }

  /** Math.floor(kernelSize / 2). */
  function Radius(kernelSize: int): (r: int)
    ensures 2 * r <= kernelSize < 2 * r + 2
  {
    kernelSize / 2
  }

  /** How many offsets `for (k = -r; k <= r; k++)` visits. */
  function Span(r: int): nat {
    if r >= 0 then 2 * r + 1 else 0
  }

  /** The i-th offset of such a loop. */
  function Offset(r: int, i: int): int {
    i - r
  }

  /** The inputs of one filter run; iterations is not among them. */
  datatype Filter = Filter(gauss: Gaussian, data: seq<Byte>, width: nat, height: nat,
                           sigmaSpace: real, sigmaColor: real, radius: int)
  {
    /** Four bytes per pixel. */
    predicate Valid() {
      |data| == width * height * 4
    }

    /** The weights are Gaussian: the factor behaves like Math.exp and neither sigma is zero. */
    ghost predicate GaussianWeights() {
      GaussLike(gauss) && sigmaSpace != 0.0 && sigmaColor != 0.0
    }
  }

  /** The filter the service and the worker run for a set of parameters. */
  function FilterFor(exp: Exp, data: seq<Byte>, width: nat, height: nat, params: BilateralParams): (f: Filter)
    ensures f.data == data && f.width == width && f.height == height
    ensures f.radius == Radius(params.kernelSize)
    ensures |data| == width * height * 4 ==> f.Valid()
    ensures ExpLike(exp) && params.sigmaSpace != 0.0 && params.sigmaColor != 0.0 ==> f.GaussianWeights()
  {
    GaussianOfLike(exp);
    Filter(GaussianOf(exp), data, width, height, params.sigmaSpace, params.sigmaColor, Radius(params.kernelSize))
  }

  datatype Rgba = Rgba(r: Byte, g: Byte, b: Byte, a: Byte) {
    function Channel(c: int): Byte {
      if c == 0 then r else if c == 1 then g else if c == 2 then b else a
    }
  }

  /** The four channels of pixel (x, y). */
  function PixelOf(data: seq<Byte>, width: nat, height: nat, x: int, y: int): Rgba
    requires |data| == width * height * 4 && 0 <= x < width && 0 <= y < height
  {
    var i := PixelCell(width, height, x, y);
    Rgba(data[i], data[i + 1], data[i + 2], data[i + 3])
  }

  /** The running sums weightSum, rSum, gSum, bSum and aSum. */
  datatype Sums = Sums(w: real, r: real, g: real, b: real, a: real) {
    function Channel(c: int): real {
      if c == 0 then r else if c == 1 then g else if c == 2 then b else a
    }

    function Plus(o: Sums): Sums {
      Sums(w + o.w, r + o.r, g + o.g, b + o.b, a + o.a)
    }
  }

  const Zero := Sums(0.0, 0.0, 0.0, 0.0, 0.0)

  /**
   * d * d, built up from odd numbers (1 + 3 + ... + (2|d| - 1)) so that the
   * definitions below hold no product; SquareIsProduct shows it is d * d.
   */
  function Square(d: int): nat
    decreases if d < 0 then 1 - 2 * d else 2 * d
  {
    if d < 0 then Square(-d) else if d == 0 then 0 else Square(d - 1) + 2 * d - 1
  }

  lemma {:induction false} SquareIsProduct(d: int)
    ensures Square(d) == d * d
    decreases if d < 0 then 1 - 2 * d else 2 * d
  {
    if d < 0 {
      SquareIsProduct(-d);
      assert (-d) * (-d) == d * d;
    } else if d > 0 {
      SquareIsProduct(d - 1);
      assert (d - 1) * (d - 1) == d * d - 2 * d + 1;
    }
  }

  /** kx * kx + ky * ky. */
  function SpatialDist(kx: int, ky: int): nat {
    Square(kx) + Square(ky)
  }

  /** The squared RGB distance; Math.pow(d, 2) is taken as the exact square d * d. */
  function ColorDist(centre: Rgba, n: Rgba): nat {
    Square(centre.r - n.r) + Square(centre.g - n.g) + Square(centre.b - n.b)
  }

  /** The two distances are the sums of squares the filter computes. */
  lemma DistancesAreSquares(kx: int, ky: int, centre: Rgba, n: Rgba)
    ensures SpatialDist(kx, ky) == kx * kx + ky * ky
    ensures ColorDist(centre, n) == (centre.r - n.r) * (centre.r - n.r) + (centre.g - n.g) * (centre.g - n.g) + (centre.b - n.b) * (centre.b - n.b)
  {
    SquareIsProduct(kx);
    SquareIsProduct(ky);
    SquareIsProduct(centre.r - n.r);
    SquareIsProduct(centre.g - n.g);
    SquareIsProduct(centre.b - n.b);
  }

  /** spatialWeight * colorWeight for the neighbour n at offset (kx, ky) of the centre. */
  function Weight(f: Filter, centre: Rgba, n: Rgba, kx: int, ky: int): real
    requires f.Valid()
  {
    f.gauss(SpatialDist(kx, ky) as real, f.sigmaSpace) * f.gauss(ColorDist(centre, n) as real, f.sigmaColor)
  }

  /** The weight w and the channels of n times w. */
  function Weighted(n: Rgba, w: real): Sums {
    Sums(w, n.r as real * w, n.g as real * w, n.b as real * w, n.a as real * w)
  }

  /** What offset (kx, ky) adds to the sums of pixel (x, y): nothing when it falls outside the image. */
  function Contribution(f: Filter, x: int, y: int, kx: int, ky: int): Sums
    requires f.Valid() && 0 <= x < f.width && 0 <= y < f.height
  {
    var nx, ny := x + kx, y + ky;
    if 0 <= ny < f.height && 0 <= nx < f.width then
      var n := PixelOf(f.data, f.width, f.height, nx, ny);
      Weighted(n, Weight(f, PixelOf(f.data, f.width, f.height, x, y), n, kx, ky))
    else
      Zero
  }

  /** The sums after the first n offsets kx of window row ky. */
  function RowSums(f: Filter, x: int, y: int, ky: int, n: nat): Sums
    requires f.Valid() && 0 <= x < f.width && 0 <= y < f.height
  {
    if n == 0 then Zero
    else RowSums(f, x, y, ky, n - 1).Plus(Contribution(f, x, y, Offset(f.radius, n - 1), ky))
  }

  /** The sums after the first m window rows. */
  function WindowSums(f: Filter, x: int, y: int, m: nat): Sums
    requires f.Valid() && 0 <= x < f.width && 0 <= y < f.height
  {
    if m == 0 then Zero
    else WindowSums(f, x, y, m - 1).Plus(RowSums(f, x, y, Offset(f.radius, m - 1), Span(f.radius)))
  }

  /** The sums over the whole window of pixel (x, y). */
  function PixelSums(f: Filter, x: int, y: int): Sums
    requires f.Valid() && 0 <= x < f.width && 0 <= y < f.height
  {
    WindowSums(f, x, y, Span(f.radius))
  }

  /** Math.round of a value, stored into a Uint8ClampedArray. */
  function RoundStore(v: real): Byte {
    Uint8Clamp(Round(v) as real)
  }

  /**
   * The output pixel: the rounded weighted averages when the weight sum is
   * positive, otherwise the centre pixel unchanged.
   */
  function FilteredPixel(f: Filter, x: int, y: int): Rgba
    requires f.Valid() && 0 <= x < f.width && 0 <= y < f.height
  {
    var s := PixelSums(f, x, y);
    if s.w > 0.0 then Average(s) else PixelOf(f.data, f.width, f.height, x, y)
  }

  /** Each channel sum divided by the weight sum, rounded and stored. */
  function Average(s: Sums): Rgba
    requires s.w != 0.0
  {
    Rgba(RoundStore(s.r / s.w), RoundStore(s.g / s.w), RoundStore(s.b / s.w), RoundStore(s.a / s.w))
  }

  /** Cell i of the output: channel i % 4 of pixel number i / 4. */
  function FilteredCell(f: Filter, i: int): Byte
    requires f.Valid() && 0 <= i < |f.data|
  {
    var p := i / 4;
    WidthOfCell(f, i);
    PixelOfNumber(f.width, f.height, p);
    FilteredPixel(f, p % f.width, p / f.width).Channel(i % 4)
  }

  /** The filtered image, of the same length as the input. */
  function Filtered(f: Filter): (out: seq<Byte>)
    requires f.Valid()
    ensures |out| == |f.data|
    ensures forall i :: 0 <= i < |out| ==> out[i] == FilteredCell(f, i)
  {
    seq(|f.data|, i requires 0 <= i < |f.data| => FilteredCell(f, i))
  }

  /** (nx, ny) is inside the image and inside the window of pixel (x, y). */
  predicate InWindow(f: Filter, x: int, y: int, nx: int, ny: int) {
    0 <= nx < f.width && 0 <= ny < f.height &&
    x - f.radius <= nx <= x + f.radius && y - f.radius <= ny <= y + f.radius
  }

  // ---------------------------------------------------------------------------
  // Stepping the sums, as the loops do

  lemma RowStep(f: Filter, x: int, y: int, ky: int, n: nat)
    requires f.Valid() && 0 <= x < f.width && 0 <= y < f.height
    ensures RowSums(f, x, y, ky, n + 1) == RowSums(f, x, y, ky, n).Plus(Contribution(f, x, y, Offset(f.radius, n), ky))
  {
  }

  lemma WindowStep(f: Filter, x: int, y: int, m: nat)
    requires f.Valid() && 0 <= x < f.width && 0 <= y < f.height
    ensures WindowSums(f, x, y, m + 1) == WindowSums(f, x, y, m).Plus(RowSums(f, x, y, Offset(f.radius, m), Span(f.radius)))
  {
  }

  lemma ZeroPlus(s: Sums)
    ensures Zero.Plus(s) == s
  {
  }

  // ---------------------------------------------------------------------------
  // Where pixel (x, y) sits in the output

  /** Cell 4 * n + c of the output, where n = y * width + x, is channel c of the filtered pixel (x, y). */
  lemma CellOfPixel(f: Filter, x: int, y: int, n: int, c: int)
    requires f.Valid() && 0 <= x < f.width && 0 <= y < f.height && n == y * f.width + x && 0 <= c < 4
    ensures 4 * n + c < |f.data|
    ensures Filtered(f)[4 * n + c] == FilteredPixel(f, x, y).Channel(c)
  {
    PixelIndexInBounds(f.width, f.height, x, y);
    PixelCoordinates(f.width, x, y);
    var i := 4 * n + c;
    assert i / 4 == n && i % 4 == c;
    assert Filtered(f)[i] == FilteredCell(f, i);
  }

  /** Cell i of the input is channel i % 4 of pixel number i / 4. */
  lemma CellChannel(f: Filter, i: int)
    requires f.Valid() && 0 <= i < |f.data|
    ensures f.width > 0 && 0 <= (i / 4) % f.width < f.width && 0 <= (i / 4) / f.width < f.height
    ensures PixelOf(f.data, f.width, f.height, (i / 4) % f.width, (i / 4) / f.width).Channel(i % 4) == f.data[i]
  {
    var p := i / 4;
    WidthOfCell(f, i);
    PixelOfNumber(f.width, f.height, p);
    assert i == 4 * p + i % 4;
  }

  // ---------------------------------------------------------------------------
  // Weights

  /** A pixel has some cell, so the image has some column. */
  lemma WidthOfCell(f: Filter, i: int)
    requires f.Valid() && 0 <= i < |f.data|
    ensures f.width > 0
  {
  }

  /** A Gaussian factor is 1 at (integer) distance 0. */
  lemma GaussAtZero(g: Gaussian, dist: int, sigma: real)
    requires GaussLike(g) && sigma != 0.0 && dist == 0
    ensures g(dist as real, sigma) == 1.0
  {
  }

  /** The average of a single pixel of weight 1 is that pixel. */
  lemma AverageOfOne(n: Rgba)
    ensures Average(Weighted(n, 1.0)) == n
  {
    var s := Weighted(n, 1.0);
    assert s.r / s.w == n.r as real && s.g / s.w == n.g as real;
    assert s.b / s.w == n.b as real && s.a / s.w == n.a as real;
    RoundStoreByte(n.r);
    RoundStoreByte(n.g);
    RoundStoreByte(n.b);
    RoundStoreByte(n.a);
  }

  /** Rounding and storing a byte gives the byte back. */
  lemma RoundStoreByte(b: Byte)
    ensures RoundStore(b as real) == b
  {
    assert Round(b as real) == b;
    Uint8ClampByte(b);
  }

  lemma MulOne(a: real, b: real)
    requires a == 1.0 && b == 1.0
    ensures a * b == 1.0
  {
  }

  lemma MulNonNegative(a: real, b: real)
    requires a >= 0.0 && b >= 0.0
    ensures a * b >= 0.0
  {
  }

  /** A weight is never negative. */
  lemma WeightNonNegative(f: Filter, centre: Rgba, n: Rgba, kx: int, ky: int)
    requires f.Valid() && f.GaussianWeights()
    ensures Weight(f, centre, n, kx, ky) >= 0.0
  {
    MulNonNegative(f.gauss(SpatialDist(kx, ky) as real, f.sigmaSpace), f.gauss(ColorDist(centre, n) as real, f.sigmaColor));
  }

  /** The centre's own weight is exp(0) * exp(0) = 1. */
  lemma CentreWeight(f: Filter, centre: Rgba)
    requires f.Valid() && f.GaussianWeights()
    ensures Weight(f, centre, centre, 0, 0) == 1.0
  {
    var spatial := f.gauss(SpatialDist(0, 0) as real, f.sigmaSpace);
    var colour := f.gauss(ColorDist(centre, centre) as real, f.sigmaColor);
    GaussAtZero(f.gauss, SpatialDist(0, 0), f.sigmaSpace);
    GaussAtZero(f.gauss, ColorDist(centre, centre), f.sigmaColor);
    MulOne(spatial, colour);
  }

  /** No contribution has a negative weight. */
  lemma ContributionNonNegative(f: Filter, x: int, y: int, kx: int, ky: int)
    requires f.Valid() && 0 <= x < f.width && 0 <= y < f.height && f.GaussianWeights()
    ensures Contribution(f, x, y, kx, ky).w >= 0.0
  {
    var nx, ny := x + kx, y + ky;
    if 0 <= ny < f.height && 0 <= nx < f.width {
      WeightNonNegative(f, PixelOf(f.data, f.width, f.height, x, y), PixelOf(f.data, f.width, f.height, nx, ny), kx, ky);
    }
  }

  /** The centre contributes itself with weight 1. */
  lemma CentreContribution(f: Filter, x: int, y: int)
    requires f.Valid() && 0 <= x < f.width && 0 <= y < f.height && f.GaussianWeights()
    ensures Contribution(f, x, y, 0, 0) == Weighted(PixelOf(f.data, f.width, f.height, x, y), 1.0)
  {
    CentreWeight(f, PixelOf(f.data, f.width, f.height, x, y));
  }

  // ---------------------------------------------------------------------------
  // Kernel size 1: the identity

  /** With radius 0 the row loop visits the centre alone. */
  lemma CentreRow(f: Filter, x: int, y: int)
    requires f.Valid() && 0 <= x < f.width && 0 <= y < f.height && f.radius == 0
    ensures RowSums(f, x, y, 0, 1) == Contribution(f, x, y, 0, 0)
  {
    RowStep(f, x, y, 0, 0);
    ZeroPlus(Contribution(f, x, y, 0, 0));
  }

  /** With radius 0 the window is the centre row alone. */
  lemma CentreWindow(f: Filter, x: int, y: int)
    requires f.Valid() && 0 <= x < f.width && 0 <= y < f.height && f.radius == 0
    ensures PixelSums(f, x, y) == RowSums(f, x, y, 0, 1)
  {
    assert Span(f.radius) == 1 && Offset(f.radius, 0) == 0;
    WindowStep(f, x, y, 0);
    ZeroPlus(RowSums(f, x, y, 0, 1));
  }

  /** With radius 0 the window is the centre alone, whose weight is exp(0) * exp(0) = 1. */
  lemma CentreSums(f: Filter, x: int, y: int)
    requires f.Valid() && 0 <= x < f.width && 0 <= y < f.height
    requires f.radius == 0 && f.GaussianWeights()
    ensures PixelSums(f, x, y) == Weighted(PixelOf(f.data, f.width, f.height, x, y), 1.0)
  {
    CentreContribution(f, x, y);
    CentreRow(f, x, y);
    CentreWindow(f, x, y);
  }

  /** With radius 0 every pixel is left as it is. */
  lemma IdentityPixel(f: Filter, x: int, y: int)
    requires f.Valid() && 0 <= x < f.width && 0 <= y < f.height
    requires f.radius == 0 && f.GaussianWeights()
    ensures FilteredPixel(f, x, y) == PixelOf(f.data, f.width, f.height, x, y)
  {
    CentreSums(f, x, y);
    AverageOfOne(PixelOf(f.data, f.width, f.height, x, y));
  }

  /** kernelSize 1 gives radius 0, and the filter returns its input unchanged. */
  lemma IdentityKernel(f: Filter)
    requires f.Valid() && f.radius == 0 && f.GaussianWeights()
    ensures Filtered(f) == f.data
  {
    var out := Filtered(f);
    forall i | 0 <= i < |f.data| ensures out[i] == f.data[i] {
      CellChannel(f, i);
      IdentityPixel(f, (i / 4) % f.width, (i / 4) / f.width);
    }
  }

  // ---------------------------------------------------------------------------
  // The weight sum and the zero-weight fallback

  /** A row's weight sum is not negative, and is at least 1 once the centre has been added. */
  lemma {:induction false} RowWeight(f: Filter, x: int, y: int, ky: int, n: nat)
    requires f.Valid() && 0 <= x < f.width && 0 <= y < f.height && f.GaussianWeights()
    ensures RowSums(f, x, y, ky, n).w >= 0.0
    ensures ky == 0 && 0 <= f.radius < n ==> RowSums(f, x, y, ky, n).w >= 1.0
  {
    if n > 0 {
      var kx := Offset(f.radius, n - 1);
      var add := Contribution(f, x, y, kx, ky);
      assert RowSums(f, x, y, ky, n).w == RowSums(f, x, y, ky, n - 1).w + add.w;
      RowWeight(f, x, y, ky, n - 1);
      ContributionNonNegative(f, x, y, kx, ky);
      if ky == 0 && kx == 0 {
        CentreContribution(f, x, y);
        assert add.w == 1.0;
      }
    }
  }

  /** The window's weight sum is not negative, and is at least 1 once the centre row has been added. */
  lemma {:induction false} WindowWeight(f: Filter, x: int, y: int, m: nat)
    requires f.Valid() && 0 <= x < f.width && 0 <= y < f.height && f.GaussianWeights()
    ensures WindowSums(f, x, y, m).w >= 0.0
    ensures 0 <= f.radius < m ==> WindowSums(f, x, y, m).w >= 1.0
  {
    if m > 0 {
      var ky := Offset(f.radius, m - 1);
      assert WindowSums(f, x, y, m).w == WindowSums(f, x, y, m - 1).w + RowSums(f, x, y, ky, Span(f.radius)).w;
      WindowWeight(f, x, y, m - 1);
      RowWeight(f, x, y, ky, Span(f.radius));
    }
  }

  /**
   * The weight sum is positive exactly when the radius is not negative: the
   * centre is always in the image and weighs 1. So the fallback that copies
   * the centre fires only for a negative kernel size.
   */
  lemma WeightSumPositive(f: Filter, x: int, y: int)
    requires f.Valid() && 0 <= x < f.width && 0 <= y < f.height && f.GaussianWeights()
    ensures PixelSums(f, x, y).w > 0.0 <==> f.radius >= 0
    ensures PixelSums(f, x, y).w > 0.0 ==> PixelSums(f, x, y).w >= 1.0
  {
    WindowWeight(f, x, y, Span(f.radius));
  }

  /** With a negative radius the loops run zero times and the centre pixel is copied. */
  lemma FallbackCopiesCentre(f: Filter, x: int, y: int)
    requires f.Valid() && 0 <= x < f.width && 0 <= y < f.height && f.radius < 0
    ensures PixelSums(f, x, y) == Zero
    ensures FilteredPixel(f, x, y) == PixelOf(f.data, f.width, f.height, x, y)
  {
  }

  // ---------------------------------------------------------------------------
  // The weighted average stays within the window's values

  /** Channel c of the sums is between lo and hi times the weight sum. */
  predicate SumsBetween(s: Sums, c: int, lo: real, hi: real) {
    lo * s.w <= s.Channel(c) <= hi * s.w
  }

  lemma PlusBetween(s: Sums, t: Sums, c: int, lo: real, hi: real)
    requires SumsBetween(s, c, lo, hi) && SumsBetween(t, c, lo, hi)
    ensures SumsBetween(s.Plus(t), c, lo, hi)
  {
    assert s.Plus(t).Channel(c) == s.Channel(c) + t.Channel(c);
    assert lo * (s.w + t.w) == lo * s.w + lo * t.w;
    assert hi * (s.w + t.w) == hi * s.w + hi * t.w;
  }

  /** A neighbour whose channel c lies in [lo, hi] adds sums within those bounds. */
  lemma WeightedBetween(n: Rgba, w: real, c: int, lo: real, hi: real)
    requires w >= 0.0 && lo <= n.Channel(c) as real <= hi
    ensures SumsBetween(Weighted(n, w), c, lo, hi)
  {
    var v := n.Channel(c) as real;
    WeightedChannel(n, w, c);
    ScaleMonotone(lo, v, w);
    ScaleMonotone(v, hi, w);
  }

  /** Each channel of the weighted sums is that channel of the pixel times the weight. */
  lemma WeightedChannel(n: Rgba, w: real, c: int)
    ensures Weighted(n, w).Channel(c) == n.Channel(c) as real * w
  {
  }

  lemma ScaleMonotone(a: real, b: real, w: real)
    requires a <= b && w >= 0.0
    ensures a * w <= b * w
  {
    assert b * w - a * w == (b - a) * w;
    MulNonNegative(b - a, w);
  }

  lemma DivBetween(lo: real, s: real, hi: real, w: real)
    requires w > 0.0 && lo * w <= s <= hi * w
    ensures lo <= s / w <= hi
  {
    assert s / w * w == s;
  }

  /** Rounding a value between two bytes stays between them. */
  lemma RoundBetween(lo: Byte, v: real, hi: Byte)
    requires lo as real <= v <= hi as real
    ensures lo <= RoundStore(v) <= hi
  {
    var n := Round(v);
    assert lo <= n <= hi;
    Uint8ClampByte(n);
  }

  /** The window hypothesis of the range lemmas: channel c of every window pixel lies in [lo, hi]. */
  ghost predicate WindowBetween(f: Filter, x: int, y: int, c: int, lo: Byte, hi: Byte)
    requires f.Valid()
  {
    forall nx, ny :: InWindow(f, x, y, nx, ny) ==>
      lo <= PixelOf(f.data, f.width, f.height, nx, ny).Channel(c) <= hi
  }

  lemma ContributionBetween(f: Filter, x: int, y: int, kx: int, ky: int, c: int, lo: Byte, hi: Byte)
    requires f.Valid() && 0 <= x < f.width && 0 <= y < f.height && f.GaussianWeights()
    requires -f.radius <= kx <= f.radius && -f.radius <= ky <= f.radius
    requires WindowBetween(f, x, y, c, lo, hi)
    ensures SumsBetween(Contribution(f, x, y, kx, ky), c, lo as real, hi as real)
  {
    if 0 <= y + ky < f.height && 0 <= x + kx < f.width {
      NeighbourBetween(f, x, y, kx, ky, c, lo, hi);
    } else {
      assert Contribution(f, x, y, kx, ky) == Zero;
    }
  }

  lemma NeighbourBetween(f: Filter, x: int, y: int, kx: int, ky: int, c: int, lo: Byte, hi: Byte)
    requires f.Valid() && 0 <= x < f.width && 0 <= y < f.height && f.GaussianWeights()
    requires -f.radius <= kx <= f.radius && -f.radius <= ky <= f.radius
    requires 0 <= y + ky < f.height && 0 <= x + kx < f.width
    requires WindowBetween(f, x, y, c, lo, hi)
    ensures SumsBetween(Contribution(f, x, y, kx, ky), c, lo as real, hi as real)
  {
    var nx, ny := x + kx, y + ky;
    assert InWindow(f, x, y, nx, ny);
    var centre := PixelOf(f.data, f.width, f.height, x, y);
    var n := PixelOf(f.data, f.width, f.height, nx, ny);
    var w := Weight(f, centre, n, kx, ky);
    assert Contribution(f, x, y, kx, ky) == Weighted(n, w);
    WeightNonNegative(f, centre, n, kx, ky);
    WeightedBetween(n, w, c, lo as real, hi as real);
  }

  lemma {:induction false} RowBetween(f: Filter, x: int, y: int, ky: int, n: nat, c: int, lo: Byte, hi: Byte)
    requires f.Valid() && 0 <= x < f.width && 0 <= y < f.height && f.GaussianWeights()
    requires -f.radius <= ky <= f.radius && n <= Span(f.radius)
    requires WindowBetween(f, x, y, c, lo, hi)
    ensures SumsBetween(RowSums(f, x, y, ky, n), c, lo as real, hi as real)
  {
    if n > 0 {
      RowBetween(f, x, y, ky, n - 1, c, lo, hi);
      ContributionBetween(f, x, y, Offset(f.radius, n - 1), ky, c, lo, hi);
      PlusBetween(RowSums(f, x, y, ky, n - 1), Contribution(f, x, y, Offset(f.radius, n - 1), ky), c, lo as real, hi as real);
    }
  }

  lemma {:induction false} WindowSumsBetween(f: Filter, x: int, y: int, m: nat, c: int, lo: Byte, hi: Byte)
    requires f.Valid() && 0 <= x < f.width && 0 <= y < f.height && f.GaussianWeights()
    requires m <= Span(f.radius)
    requires WindowBetween(f, x, y, c, lo, hi)
    ensures SumsBetween(WindowSums(f, x, y, m), c, lo as real, hi as real)
  {
    if m > 0 {
      WindowSumsBetween(f, x, y, m - 1, c, lo, hi);
      RowBetween(f, x, y, Offset(f.radius, m - 1), Span(f.radius), c, lo, hi);
      PlusBetween(WindowSums(f, x, y, m - 1), RowSums(f, x, y, Offset(f.radius, m - 1), Span(f.radius)), c, lo as real, hi as real);
    }
  }

  /**
   * With a kernel that is not empty, every output channel lies between the
   * smallest and the largest value of that channel in the window.
   */
  lemma FilteredBetween(f: Filter, x: int, y: int, c: int, lo: Byte, hi: Byte)
    requires f.Valid() && 0 <= x < f.width && 0 <= y < f.height && f.GaussianWeights()
    requires f.radius >= 0 && 0 <= c < 4
    requires WindowBetween(f, x, y, c, lo, hi)
    ensures lo <= FilteredPixel(f, x, y).Channel(c) <= hi
  {
    WeightSumPositive(f, x, y);
    WindowSumsBetween(f, x, y, Span(f.radius), c, lo, hi);
    AverageBetween(PixelSums(f, x, y), c, lo, hi);
  }

  /** The rounded average of sums whose channel c lies within [lo, hi] times the weight. */
  lemma AverageBetween(s: Sums, c: int, lo: Byte, hi: Byte)
    requires s.w > 0.0 && 0 <= c < 4 && SumsBetween(s, c, lo as real, hi as real)
    ensures lo <= Average(s).Channel(c) <= hi
  {
    DivBetween(lo as real, s.Channel(c), hi as real, s.w);
    RoundBetween(lo, s.Channel(c) / s.w, hi);
    assert Average(s).Channel(c) == RoundStore(s.Channel(c) / s.w);
  }

  // ---------------------------------------------------------------------------
  // Locality

  /** The pixels of the window of (x, y), and the centre, are the same in two images. */
  ghost predicate SameWindow(f: Filter, data2: seq<Byte>, x: int, y: int)
    requires f.Valid() && |data2| == |f.data| && 0 <= x < f.width && 0 <= y < f.height
  {
    PixelOf(f.data, f.width, f.height, x, y) == PixelOf(data2, f.width, f.height, x, y) &&
    forall nx, ny :: InWindow(f, x, y, nx, ny) ==>
      PixelOf(f.data, f.width, f.height, nx, ny) == PixelOf(data2, f.width, f.height, nx, ny)
  }

  lemma ContributionLocal(f: Filter, data2: seq<Byte>, x: int, y: int, kx: int, ky: int)
    requires f.Valid() && |data2| == |f.data| && 0 <= x < f.width && 0 <= y < f.height
    requires -f.radius <= kx <= f.radius && -f.radius <= ky <= f.radius
    requires SameWindow(f, data2, x, y)
    ensures Contribution(f, x, y, kx, ky) == Contribution(f.(data := data2), x, y, kx, ky)
  {
    if 0 <= y + ky < f.height && 0 <= x + kx < f.width {
      NeighbourLocal(f, data2, x, y, kx, ky);
    }
  }

  lemma NeighbourLocal(f: Filter, data2: seq<Byte>, x: int, y: int, kx: int, ky: int)
    requires f.Valid() && |data2| == |f.data| && 0 <= x < f.width && 0 <= y < f.height
    requires -f.radius <= kx <= f.radius && -f.radius <= ky <= f.radius
    requires 0 <= y + ky < f.height && 0 <= x + kx < f.width
    requires SameWindow(f, data2, x, y)
    ensures Contribution(f, x, y, kx, ky) == Contribution(f.(data := data2), x, y, kx, ky)
  {
    assert InWindow(f, x, y, x + kx, y + ky);
  }

  lemma {:induction false} RowLocal(f: Filter, data2: seq<Byte>, x: int, y: int, ky: int, n: nat)
    requires f.Valid() && |data2| == |f.data| && 0 <= x < f.width && 0 <= y < f.height
    requires -f.radius <= ky <= f.radius && n <= Span(f.radius)
    requires SameWindow(f, data2, x, y)
    ensures RowSums(f, x, y, ky, n) == RowSums(f.(data := data2), x, y, ky, n)
  {
    if n > 0 {
      RowLocal(f, data2, x, y, ky, n - 1);
      ContributionLocal(f, data2, x, y, Offset(f.radius, n - 1), ky);
    }
  }

  lemma {:induction false} WindowLocal(f: Filter, data2: seq<Byte>, x: int, y: int, m: nat)
    requires f.Valid() && |data2| == |f.data| && 0 <= x < f.width && 0 <= y < f.height
    requires m <= Span(f.radius)
    requires SameWindow(f, data2, x, y)
    ensures WindowSums(f, x, y, m) == WindowSums(f.(data := data2), x, y, m)
  {
    if m > 0 {
      WindowLocal(f, data2, x, y, m - 1);
      RowLocal(f, data2, x, y, Offset(f.radius, m - 1), Span(f.radius));
    }
  }

  /**
   * An output pixel depends only on the input pixels inside the image and
   * inside its window (and on the centre): changing any other pixel leaves
   * it alone. Offsets outside the image are skipped, never padded or wrapped.
   */
  lemma FilteredLocal(f: Filter, data2: seq<Byte>, x: int, y: int)
    requires f.Valid() && |data2| == |f.data| && 0 <= x < f.width && 0 <= y < f.height
    requires SameWindow(f, data2, x, y)
    ensures FilteredPixel(f, x, y) == FilteredPixel(f.(data := data2), x, y)
  {
    WindowLocal(f, data2, x, y, Span(f.radius));
  }

  // ---------------------------------------------------------------------------
  // The loops

  /**
   * The loop body for offset (kx, ky): when the neighbour lies inside the
   * image, its weight and weighted channels are added to the sums.
   */
  method AddNeighbour(f: Filter, x: nat, y: nat, centre: Rgba, kx: int, ky: int,
                      weightSum: real, rSum: real, gSum: real, bSum: real, aSum: real)
    returns (weightSum': real, rSum': real, gSum': real, bSum': real, aSum': real)
    requires f.Valid() && x < f.width && y < f.height
    requires centre == PixelOf(f.data, f.width, f.height, x, y)
    ensures Sums(weightSum', rSum', gSum', bSum', aSum') ==
      Sums(weightSum, rSum, gSum, bSum, aSum).Plus(Contribution(f, x, y, kx, ky))
  {
    weightSum', rSum', gSum', bSum', aSum' := weightSum, rSum, gSum, bSum, aSum;
    var ny := y + ky;
    var nx := x + kx;
    if ny >= 0 && ny < f.height && nx >= 0 && nx < f.width {
      var neighborIdx := PixelCell(f.width, f.height, nx, ny);  // (ny * width + nx) * 4
      var neighborR := f.data[neighborIdx];
      var neighborG := f.data[neighborIdx + 1];
      var neighborB := f.data[neighborIdx + 2];
      var neighborA := f.data[neighborIdx + 3];
      var n := Rgba(neighborR, neighborG, neighborB, neighborA);
      assert n == PixelOf(f.data, f.width, f.height, nx, ny);

      var spatialDist := SpatialDist(kx, ky);
      var spatialWeight := f.gauss(spatialDist as real, f.sigmaSpace);  // Math.exp(-spatialDist / (2 * sigmaSpaceSq)), sigmaSpaceSq = sigmaSpace * sigmaSpace
      var colorDist := ColorDist(centre, n);
      var colorWeight := f.gauss(colorDist as real, f.sigmaColor);  // Math.exp(-colorDist / (2 * sigmaColorSq)), sigmaColorSq = sigmaColor * sigmaColor

      var weight := spatialWeight * colorWeight;
      var weighted := Weighted(n, weight);  // weight and neighborR * weight, ..., neighborA * weight
      assert Contribution(f, x, y, kx, ky) == weighted;
      weightSum' := weightSum + weighted.w;
      rSum' := rSum + weighted.r;
      gSum' := gSum + weighted.g;
      bSum' := bSum + weighted.b;
      aSum' := aSum + weighted.a;
    }
  }

  /** The two inner loops, over ky and kx, for pixel (x, y). */
  method WindowLoop(f: Filter, x: nat, y: nat, centre: Rgba)
    returns (weightSum: real, rSum: real, gSum: real, bSum: real, aSum: real)
    requires f.Valid() && x < f.width && y < f.height
    requires centre == PixelOf(f.data, f.width, f.height, x, y)
    ensures Sums(weightSum, rSum, gSum, bSum, aSum) == PixelSums(f, x, y)
  {
    var radius := f.radius;
    weightSum, rSum, gSum, bSum, aSum := 0.0, 0.0, 0.0, 0.0, 0.0;
    var ky := -radius;
    ghost var m := 0;  // rows done
    while ky <= radius
      invariant 0 <= m <= Span(radius) && ky == Offset(radius, m)
      invariant Sums(weightSum, rSum, gSum, bSum, aSum) == WindowSums(f, x, y, m)
    {
      ghost var before := Sums(weightSum, rSum, gSum, bSum, aSum);
      var kx := -radius;
      ghost var n := 0;  // offsets done in this row
      while kx <= radius
        invariant 0 <= n <= Span(radius) && kx == Offset(radius, n)
        invariant Sums(weightSum, rSum, gSum, bSum, aSum) == before.Plus(RowSums(f, x, y, ky, n))
      {
        weightSum, rSum, gSum, bSum, aSum := AddNeighbour(f, x, y, centre, kx, ky, weightSum, rSum, gSum, bSum, aSum);
        RowStep(f, x, y, ky, n);
        kx, n := kx + 1, n + 1;
      }
      WindowStep(f, x, y, m);
      ky, m := ky + 1, m + 1;
    }
  }

  /** Writes the four channels of px at idx. */
  function WriteRgba(out: seq<Byte>, idx: int, px: Rgba): (r: seq<Byte>)
    requires 0 <= idx && idx + 4 <= |out|
    ensures |r| == |out|
    ensures forall i :: 0 <= i < |out| ==> r[i] == if idx <= i < idx + 4 then px.Channel(i - idx) else out[i]
  {
    out[idx := px.r][idx + 1 := px.g][idx + 2 := px.b][idx + 3 := px.a]
  }

  /** The body of the two outer loops for pixel (x, y): its sums, then its four output cells. */
  method FilterPixel(f: Filter, output: array<Byte>, x: nat, y: nat)
    requires f.Valid() && x < f.width && y < f.height && output.Length == |f.data|
    modifies output
    ensures output[..] == WriteRgba(old(output[..]), PixelCell(f.width, f.height, x, y), FilteredPixel(f, x, y))
  {
    var centerIdx := PixelCell(f.width, f.height, x, y);  // (y * width + x) * 4
    var centerR := f.data[centerIdx];
    var centerG := f.data[centerIdx + 1];
    var centerB := f.data[centerIdx + 2];
    var centerA := f.data[centerIdx + 3];
    var centre := Rgba(centerR, centerG, centerB, centerA);

    var weightSum, rSum, gSum, bSum, aSum := WindowLoop(f, x, y, centre);

    if weightSum > 0.0 {
      output[centerIdx] := RoundStore(rSum / weightSum);
      output[centerIdx + 1] := RoundStore(gSum / weightSum);
      output[centerIdx + 2] := RoundStore(bSum / weightSum);
      output[centerIdx + 3] := RoundStore(aSum / weightSum);
    } else {
      output[centerIdx] := centerR;
      output[centerIdx + 1] := centerG;
      output[centerIdx + 2] := centerB;
      output[centerIdx + 3] := centerA;
    }
  }

  /** The first n pixels of out are those of the filtered image. */
  ghost predicate FilteredUpTo(f: Filter, out: seq<Byte>, n: nat)
    requires f.Valid()
  {
    |out| == |f.data| && 4 * n <= |out| && out[..4 * n] == Filtered(f)[..4 * n]
  }

  /** Writing filtered pixel n extends the filtered prefix by one pixel. */
  lemma WritePrefix(f: Filter, before: seq<Byte>, x: int, y: int, n: nat)
    requires f.Valid() && 0 <= x < f.width && 0 <= y < f.height && n == y * f.width + x
    requires FilteredUpTo(f, before, n)
    ensures PixelIndex(f.width, x, y) + 4 <= |before|
    ensures FilteredUpTo(f, WriteRgba(before, PixelIndex(f.width, x, y), FilteredPixel(f, x, y)), n + 1)
  {
    PixelCells(f, x, y, n);
    PrefixGrows(Filtered(f), before, n, FilteredPixel(f, x, y));
  }

  /** Pixel n = (x, y) fills cells 4 * n to 4 * n + 3 of the filtered image. */
  lemma PixelCells(f: Filter, x: int, y: int, n: nat)
    requires f.Valid() && 0 <= x < f.width && 0 <= y < f.height && n == y * f.width + x
    ensures PixelIndex(f.width, x, y) == 4 * n && 4 * n + 4 <= |f.data|
    ensures forall c :: 0 <= c < 4 ==> Filtered(f)[4 * n + c] == FilteredPixel(f, x, y).Channel(c)
  {
    PixelIndexInBounds(f.width, f.height, x, y);
    forall c | 0 <= c < 4 ensures Filtered(f)[4 * n + c] == FilteredPixel(f, x, y).Channel(c) {
      CellOfPixel(f, x, y, n, c);
    }
  }

  /** A prefix of target, followed by the next four cells of target, is a longer prefix of target. */
  lemma PrefixGrows(target: seq<Byte>, before: seq<Byte>, n: nat, px: Rgba)
    requires |before| == |target| && 4 * n + 4 <= |target| && before[..4 * n] == target[..4 * n]
    requires forall c :: 0 <= c < 4 ==> target[4 * n + c] == px.Channel(c)
    ensures WriteRgba(before, 4 * n, px)[..4 * (n + 1)] == target[..4 * (n + 1)]
  {
    var after := WriteRgba(before, 4 * n, px);
    forall i | 0 <= i < 4 * (n + 1) ensures after[i] == target[i] {
      if i < 4 * n {
        assert before[i] == before[..4 * n][i];
      }
    }
  }

  /** The x loop over row y, whose first pixel is pixel number p. */
  method FilterRow(f: Filter, output: array<Byte>, y: nat, ghost p: nat) returns (ghost next: nat)
    requires f.Valid() && y < f.height && output.Length == |f.data| && p == y * f.width
    requires FilteredUpTo(f, output[..], p)
    modifies output
    ensures next == p + f.width
    ensures FilteredUpTo(f, output[..], next)
  {
    ghost var n := p;
    for x := 0 to f.width
      invariant n == p + x
      invariant FilteredUpTo(f, output[..], n)
    {
      ghost var before := output[..];
      FilterPixel(f, output, x, y);
      WritePrefix(f, before, x, y, n);
      n := n + 1;
    }
    next := n;
  }

  /**
   * The filter: a zeroed output of the input's length, then every pixel in
   * row-major order, in a single pass.
   */
  method FilterImage(f: Filter) returns (output: array<Byte>)
    requires f.Valid()
    ensures fresh(output)
    ensures output[..] == Filtered(f)
  {
    output := new Byte[|f.data|](_ => 0);
    ghost var p := 0;
    for y := 0 to f.height
      invariant p == y * f.width && p <= f.width * f.height
      invariant FilteredUpTo(f, output[..], p)
    {
      RowEnd(f.width, f.height, y);
      p := FilterRow(f, output, y, p);
    }
    assert output[..] == output[..4 * p];
  }
}

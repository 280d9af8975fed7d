/**
 * QuantizationService.fallbackDithering: a row-major scan over a real-valued
 * copy of the image (the Float32Array accumulator). Each pixel takes the
 * palette colour nearest to its accumulated value, and the difference
 * between the accumulated value and that colour is pushed onto later pixels
 * through the algorithm's tap table.
 */
module Dithering {
  import W = Wrappers
  import opened Raster
  import opened ProcessingModels
  import opened NearestColor
  import opened ErrorDiffusion
  import opened QuantizationService

  /** The accumulator and the output buffer during the scan. */
  datatype DitherState = DitherState(acc: seq<real>, out: seq<Byte>)

  /**
   * What stays fixed during one scan: the image size, the palette colours,
   * the rule that picks a palette colour for a pixel colour, and the tap
   * table. The lemmas below hold for any picking rule that stays inside the
   * palette and any table of forward taps.
   */
  datatype Scan = Scan(width: nat, height: nat, palette: seq<Rgb>, choose: Rgb -> Rgb, taps: seq<Tap>) {
    ghost predicate Valid() {
      width > 0 && palette != [] &&
      (forall k :: choose(k) in palette) &&
      (forall t :: 0 <= t < |taps| ==> Forward(taps[t]))
    }
  }

  /** The scan of fallbackDithering: findNearestColor picks, the algorithm's matrix spreads. */
  function ScanOf(pow: Pow, width: nat, height: nat, palette: seq<Rgb>, algorithm: DitheringAlgorithm): (sc: Scan)
    requires width > 0 && palette != []
    ensures sc.Valid() && sc.width == width && sc.height == height && sc.palette == palette
    ensures forall k :: sc.choose(k) == NearestKey(pow, palette, k)
    ensures sc.taps == ErrorDistributionMatrix(algorithm)
  {
    Scan(width, height, palette, k => NearestKey(pow, palette, k), ErrorDistributionMatrix(algorithm))
  }

  /** Before the first pixel: the accumulator holds the image, the new output is all zeros. */
  function InitialState(data: seq<Byte>): DitherState {
    DitherState(AsNumbers(data), seq(|data|, _ => 0))
  }

  ghost predicate Sized(s: DitherState, sc: Scan) {
    |s.acc| == sc.width * sc.height * 4 && |s.out| == sc.width * sc.height * 4
  }

  /** The colour `new Color(oldR, oldG, oldB, oldA)` gets from the accumulator cells of pixel p. */
  function CurrentKey(acc: seq<real>, p: nat): Rgb
    requires 4 * p + 4 <= |acc|
  {
    Rgb(ClampRound(acc[4 * p]), ClampRound(acc[4 * p + 1]), ClampRound(acc[4 * p + 2]))
  }

  /** The colour an output buffer holds at pixel p. */
  function PixelAt(out: seq<Byte>, p: nat): Rgb
    requires 4 * p + 4 <= |out|
  {
    Rgb(out[4 * p], out[4 * p + 1], out[4 * p + 2])
  }

  /** The error once colour c is chosen for pixel p: accumulated value minus colour, unscaled. */
  function PixelError(acc: seq<real>, p: nat, c: Rgb): ChannelError
    requires 4 * p + 4 <= |acc|
  {
    ChannelError(acc[4 * p] - c.r as real, acc[4 * p + 1] - c.g as real, acc[4 * p + 2] - c.b as real)
  }

  /**
   * The visit of pixel p, at column p % width of row p / width: it takes the
   * palette entry picked for its accumulated colour, its alpha is stored
   * through the Uint8ClampedArray conversion, and the error goes through the
   * taps.
   */
  function Visit(sc: Scan, s: DitherState, p: nat): (t: DitherState)
    requires sc.Valid() && Sized(s, sc) && p < sc.width * sc.height
    ensures Sized(t, sc)
  {
    var nearest := sc.choose(CurrentKey(s.acc, p));
    DitherState(
      ApplyTaps(s.acc, sc.width, sc.height, p % sc.width, p / sc.width, PixelError(s.acc, p, nearest), sc.taps),
      SetPixel(s.out, 4 * p, nearest, Uint8Clamp(s.acc[4 * p + 3])))
  }

  /** The state once the first n pixels, in row-major order, are visited. */
  function DitherUpTo(sc: Scan, data: seq<Byte>, n: nat): (s: DitherState)
    requires sc.Valid() && |data| == sc.width * sc.height * 4 && n <= sc.width * sc.height
    ensures Sized(s, sc)
    decreases n, 1
  {
    if n == 0 then InitialState(data) else AfterPixel(sc, data, n - 1)
  }

  /** The state right after pixel p is visited. */
  function AfterPixel(sc: Scan, data: seq<Byte>, p: nat): (s: DitherState)
    requires sc.Valid() && |data| == sc.width * sc.height * 4 && p < sc.width * sc.height
    ensures Sized(s, sc)
    decreases p + 1, 0
  {
    Visit(sc, DitherUpTo(sc, data, p), p)
  }

  /** One more step of the scan is one more visit. */
  lemma DitherStep(sc: Scan, data: seq<Byte>, n: nat)
    requires sc.Valid() && |data| == sc.width * sc.height * 4 && 0 < n <= sc.width * sc.height
    ensures DitherUpTo(sc, data, n) == Visit(sc, DitherUpTo(sc, data, n - 1), n - 1)
  {
    assert DitherUpTo(sc, data, n) == AfterPixel(sc, data, n - 1);
  }

  /** A state reached after n pixels is the state after m pixels when n == m. */
  lemma SameCount(sc: Scan, data: seq<Byte>, n: nat, m: nat, s: DitherState)
    requires sc.Valid() && |data| == sc.width * sc.height * 4 && n <= sc.width * sc.height && n == m
    requires s == DitherUpTo(sc, data, n)
    ensures s == DitherUpTo(sc, data, m)
  {
  }

  /** s is the state once the first n pixels are visited. */
  ghost predicate Reached(sc: Scan, data: seq<Byte>, n: nat, s: DitherState) {
    sc.Valid() && |data| == sc.width * sc.height * 4 && n <= sc.width * sc.height && s == DitherUpTo(sc, data, n)
  }

  /** The finished scan. */
  function Dithered(sc: Scan, data: seq<Byte>): (s: DitherState)
    requires sc.Valid() && |data| == sc.width * sc.height * 4
    ensures Sized(s, sc)
  {
    DitherUpTo(sc, data, sc.width * sc.height)
  }

  // ---------------------------------------------------------------------------
  // What one visit changes

  /**
   * A visit leaves the accumulator of its own pixel and of every earlier pixel
   * alone (the taps only point forward), writes no output cell before its
   * pixel, and keeps every alpha cell of the accumulator.
   */
  lemma VisitFrame(sc: Scan, s: DitherState, p: nat)
    requires sc.Valid() && Sized(s, sc) && p < sc.width * sc.height
    ensures forall i :: 0 <= i < 4 * p + 4 ==> Visit(sc, s, p).acc[i] == s.acc[i]
    ensures forall i :: 0 <= i < 4 * p ==> Visit(sc, s, p).out[i] == s.out[i]
    ensures forall i :: 0 <= i < |s.acc| && i % 4 == 3 ==> Visit(sc, s, p).acc[i] == s.acc[i]
  {
    var e := PixelError(s.acc, p, sc.choose(CurrentKey(s.acc, p)));
    PixelOfNumber(sc.width, sc.height, p);
    ForwardOnly(s.acc, sc.width, sc.height, p % sc.width, p / sc.width, e, sc.taps);
    AlphaUnchanged(s.acc, sc.width, sc.height, p % sc.width, p / sc.width, e, sc.taps);
  }

  // ---------------------------------------------------------------------------
  // Properties of the whole scan

  /** Once a pixel is visited, its accumulator and output cells never change again. */
  lemma {:induction false} Frozen(sc: Scan, data: seq<Byte>, n: nat, m: nat)
    requires sc.Valid() && |data| == sc.width * sc.height * 4
    requires n <= m <= sc.width * sc.height
    ensures forall i :: 0 <= i < 4 * n ==>
      DitherUpTo(sc, data, m).acc[i] == DitherUpTo(sc, data, n).acc[i] &&
      DitherUpTo(sc, data, m).out[i] == DitherUpTo(sc, data, n).out[i]
    decreases m
  {
    if m > n {
      var prev := DitherUpTo(sc, data, m - 1);
      DitherStep(sc, data, m);
      Frozen(sc, data, n, m - 1);
      VisitFrame(sc, prev, m - 1);
    }
  }

  /** No alpha cell of the accumulator ever changes. */
  lemma {:induction false} AlphaKept(sc: Scan, data: seq<Byte>, n: nat)
    requires sc.Valid() && |data| == sc.width * sc.height * 4 && n <= sc.width * sc.height
    ensures forall i :: 0 <= i < |data| && i % 4 == 3 ==> DitherUpTo(sc, data, n).acc[i] == data[i] as real
  {
    if n > 0 {
      AlphaKept(sc, data, n - 1);
      DitherStep(sc, data, n);
      VisitFrame(sc, DitherUpTo(sc, data, n - 1), n - 1);
    }
  }

  /** The fourth cell of pixel p is an alpha cell. */
  lemma AlphaCellOf(p: nat)
    ensures (4 * p + 3) % 4 == 3
  {
  }

  /**
   * Pixel p of the finished scan: its accumulator cells hold what they held
   * when the pixel was visited, its colour is the palette entry picked for
   * that value, and its alpha is the source alpha.
   */
  lemma DitheredPixel(sc: Scan, data: seq<Byte>, p: nat)
    requires sc.Valid() && |data| == sc.width * sc.height * 4 && p < sc.width * sc.height
    ensures var fin := Dithered(sc, data);
      var before := DitherUpTo(sc, data, p);
      before.acc[4 * p] == fin.acc[4 * p] && before.acc[4 * p + 1] == fin.acc[4 * p + 1] &&
      before.acc[4 * p + 2] == fin.acc[4 * p + 2] &&
      PixelAt(fin.out, p) == sc.choose(CurrentKey(fin.acc, p)) &&
      fin.out[4 * p + 3] == data[4 * p + 3]
  {
    var before := DitherUpTo(sc, data, p);
    var after := DitherUpTo(sc, data, p + 1);
    var fin := Dithered(sc, data);
    DitherStep(sc, data, p + 1);
    VisitFrame(sc, before, p);
    Frozen(sc, data, p + 1, sc.width * sc.height);
    AlphaKept(sc, data, p);
    AlphaCellOf(p);
    Uint8ClampByte(data[4 * p + 3]);
    assert CurrentKey(fin.acc, p) == CurrentKey(before.acc, p);
    assert PixelAt(fin.out, p) == PixelAt(after.out, p);
  }

  /**
   * Every output pixel is a palette colour, namely the one picked for its
   * final accumulated value, and every output alpha is the source alpha.
   */
  lemma DitheredOutput(sc: Scan, data: seq<Byte>)
    requires sc.Valid() && |data| == sc.width * sc.height * 4
    ensures forall p :: 0 <= p < sc.width * sc.height ==>
      PixelAt(Dithered(sc, data).out, p) == sc.choose(CurrentKey(Dithered(sc, data).acc, p)) &&
      PixelAt(Dithered(sc, data).out, p) in sc.palette
    ensures forall i :: 0 <= i < |data| && i % 4 == 3 ==> Dithered(sc, data).out[i] == data[i]
  {
    var fin := Dithered(sc, data);
    forall p | 0 <= p < sc.width * sc.height
      ensures PixelAt(fin.out, p) == sc.choose(CurrentKey(fin.acc, p))
    {
      DitheredPixel(sc, data, p);
    }
    forall i | 0 <= i < |data| && i % 4 == 3 ensures fin.out[i] == data[i] {
      DitheredPixel(sc, data, i / 4);
    }
  }

  /**
   * The error pushed from pixel p is its final accumulated value minus its
   * final output colour, with no intensity scaling.
   */
  lemma ErrorIsAccumulatorMinusOutput(sc: Scan, data: seq<Byte>, p: nat)
    requires sc.Valid() && |data| == sc.width * sc.height * 4 && p < sc.width * sc.height
    ensures var fin := Dithered(sc, data);
      DitherUpTo(sc, data, p + 1).acc ==
        ApplyTaps(DitherUpTo(sc, data, p).acc, sc.width, sc.height, p % sc.width, p / sc.width,
                  PixelError(fin.acc, p, PixelAt(fin.out, p)), sc.taps)
  {
    DitheredPixel(sc, data, p);
    DitherStep(sc, data, p + 1);
  }

  // ---------------------------------------------------------------------------
  // fallbackDithering

  /** A state built from the picked colour, the written pixel and the spread error is the visit. */
  lemma VisitOf(sc: Scan, s: DitherState, p: nat, nearest: Rgb, acc: seq<real>, out: seq<Byte>)
    requires sc.Valid() && Sized(s, sc) && p < sc.width * sc.height
    requires nearest == sc.choose(CurrentKey(s.acc, p))
    requires out == SetPixel(s.out, 4 * p, nearest, Uint8Clamp(s.acc[4 * p + 3]))
    requires acc == ApplyTaps(s.acc, sc.width, sc.height, p % sc.width, p / sc.width, PixelError(s.acc, p, nearest), sc.taps)
    ensures DitherState(acc, out) == Visit(sc, s, p)
  {
  }

  /** `new Color(oldR, oldG, oldB, oldA)` on accumulator values. */
  method CellColor(oldR: real, oldG: real, oldB: real, oldA: real) returns (c: Color)
    ensures fresh(c) && c.lab == W.None
    ensures c.Key() == Rgb(ClampRound(oldR), ClampRound(oldG), ClampRound(oldB))
  {
    c := new Color(oldR, oldG, oldB, oldA);
  }

  /** The colour of pixel p's accumulator cells, then findNearestColor. */
  method NearestForPixel(pow: Pow, data: array<real>, ghost p: nat, idx: nat, palette: seq<Color>)
    returns (nearest: Rgb)
    requires idx == 4 * p && idx + 4 <= data.Length
    requires palette != [] && forall k :: 0 <= k < |palette| ==> palette[k].Valid(pow)
    modifies palette
    ensures forall k :: 0 <= k < |palette| ==> palette[k].Valid(pow)
    ensures nearest == NearestKey(pow, Keys(palette), CurrentKey(data[..], p))
  {
    var oldR := data[idx];
    var oldG := data[idx + 1];
    var oldB := data[idx + 2];
    var oldA := data[idx + 3];
    var currentColor := CellColor(oldR, oldG, oldB, oldA);
    assert currentColor.Key() == CurrentKey(data[..], p);
    assert currentColor.Valid(pow);
    var nearestColor := FindNearestColor(pow, currentColor, palette);
    nearest := nearestColor.Key();
  }

  /**
   * The loop body for pixel (x, y), pixel number p of the scan: read the
   * accumulator, pick the nearest palette colour, write the output pixel and
   * distribute the error.
   */
  method VisitPixel(pow: Pow, data: array<real>, outData: array<Byte>, width: nat, height: nat,
                    x: nat, y: nat, ghost p: nat, algorithm: DitheringAlgorithm, palette: seq<Color>)
    requires data.Length == width * height * 4 && outData.Length == width * height * 4
    requires x < width && y < height && p == y * width + x && p < width * height
    requires palette != [] && forall k :: 0 <= k < |palette| ==> palette[k].Valid(pow)
    modifies data, outData, palette
    ensures forall k :: 0 <= k < |palette| ==> palette[k].Valid(pow)
    ensures DitherState(data[..], outData[..]) ==
      Visit(ScanOf(pow, width, height, Keys(palette), algorithm), DitherState(old(data[..]), old(outData[..])), p)
  {
    var idx := PixelCell(width, height, x, y);  // (y * width + x) * 4
    ghost var s := DitherState(data[..], outData[..]);
    var nearest := NearestForPixel(pow, data, p, idx, palette);
    ghost var sc := ScanOf(pow, width, height, Keys(palette), algorithm);
    var oldA := data[idx + 3];
    WritePixel(outData, idx, nearest, Uint8Clamp(oldA));
    ghost var out := outData[..];
    assert out == SetPixel(s.out, 4 * p, nearest, Uint8Clamp(s.acc[4 * p + 3]));
    var errorR := data[idx] - nearest.r as real;
    var errorG := data[idx + 1] - nearest.g as real;
    var errorB := data[idx + 2] - nearest.b as real;
    ghost var e := ChannelError(errorR, errorG, errorB);
    assert e == PixelError(s.acc, p, nearest);
    PixelCoordinates(width, x, y);
    assert p % width == x && p / width == y;
    DistributeError(data, width, height, x, y, errorR, errorG, errorB, algorithm);
    assert data[..] == ApplyTaps(s.acc, width, height, x, y, e, sc.taps);
    VisitOf(sc, s, p, nearest, data[..], out);
  }

  /** VisitPixel as one step of the scan: n pixels visited before, n + 1 after. */
  method ScanPixel(pow: Pow, data: array<real>, outData: array<Byte>, width: nat, height: nat, x: nat, y: nat,
                   ghost n: nat, algorithm: DitheringAlgorithm, palette: seq<Color>, ghost sc: Scan, ghost src: seq<Byte>)
    requires data.Length == width * height * 4 && outData.Length == width * height * 4 && |src| == width * height * 4
    requires x < width && y < height && n == y * width + x && n < width * height
    requires palette != [] && forall k :: 0 <= k < |palette| ==> palette[k].Valid(pow)
    requires sc == ScanOf(pow, width, height, Keys(palette), algorithm)
    requires Reached(sc, src, n, DitherState(data[..], outData[..]))
    modifies data, outData, palette
    ensures forall k :: 0 <= k < |palette| ==> palette[k].Valid(pow)
    ensures Reached(sc, src, n + 1, DitherState(data[..], outData[..]))
  {
    ghost var before := DitherState(data[..], outData[..]);
    VisitPixel(pow, data, outData, width, height, x, y, n, algorithm, palette);
    assert DitherState(data[..], outData[..]) == Visit(sc, before, n);
    DitherStep(sc, src, n + 1);
  }

  /** The inner loop of the scan: row y, whose first pixel is pixel number p. */
  method DitherRow(pow: Pow, data: array<real>, outData: array<Byte>, width: nat, height: nat, y: nat,
                   ghost p: nat, algorithm: DitheringAlgorithm, palette: seq<Color>, ghost sc: Scan, ghost src: seq<Byte>)
    returns (ghost next: nat)
    requires data.Length == width * height * 4 && outData.Length == width * height * 4 && |src| == width * height * 4
    requires 0 < width && y < height && p == y * width && p + width <= width * height
    requires palette != [] && forall k :: 0 <= k < |palette| ==> palette[k].Valid(pow)
    requires sc == ScanOf(pow, width, height, Keys(palette), algorithm)
    requires Reached(sc, src, p, DitherState(data[..], outData[..]))
    modifies data, outData, palette
    ensures forall k :: 0 <= k < |palette| ==> palette[k].Valid(pow)
    ensures next == p + width
    ensures Reached(sc, src, next, DitherState(data[..], outData[..]))
  {
    ghost var n := p;
    for x := 0 to width
      invariant n == p + x
      invariant forall k :: 0 <= k < |palette| ==> palette[k].Valid(pow)
      invariant Reached(sc, src, n, DitherState(data[..], outData[..]))
    {
      ScanPixel(pow, data, outData, width, height, x, y, n, algorithm, palette, sc, src);
      n := n + 1;
    }
    next := n;
    SameCount(sc, src, n, next, DitherState(data[..], outData[..]));
  }

  /** `new Float32Array(imageData.data)` and the zeroed output of `new ImageData`. */
  method StartBuffers(src: seq<Byte>) returns (data: array<real>, outData: array<Byte>)
    ensures fresh(data) && fresh(outData)
    ensures DitherState(data[..], outData[..]) == InitialState(src)
  {
    data := new real[|src|](i requires 0 <= i < |src| => src[i] as real);
    outData := new Byte[|src|](_ => 0);
  }

  /** The outer loop of the scan, over the rows. */
  method DitherRows(pow: Pow, data: array<real>, outData: array<Byte>, width: nat, height: nat,
                    algorithm: DitheringAlgorithm, palette: seq<Color>, ghost sc: Scan, ghost src: seq<Byte>)
    requires data.Length == width * height * 4 && outData.Length == width * height * 4 && |src| == width * height * 4
    requires 0 < width
    requires palette != [] && forall k :: 0 <= k < |palette| ==> palette[k].Valid(pow)
    requires sc == ScanOf(pow, width, height, Keys(palette), algorithm)
    requires Reached(sc, src, 0, DitherState(data[..], outData[..]))
    modifies data, outData, palette
    ensures forall k :: 0 <= k < |palette| ==> palette[k].Valid(pow)
    ensures DitherState(data[..], outData[..]) == Dithered(sc, src)
  {
    ghost var p := 0;
    for y := 0 to height
      invariant forall k :: 0 <= k < |palette| ==> palette[k].Valid(pow)
      invariant p == y * width && p <= width * height
      invariant Reached(sc, src, p, DitherState(data[..], outData[..]))
    {
      RowEnd(width, height, y);
      p := DitherRow(pow, data, outData, width, height, y, p, algorithm, palette, sc, src);
    }
    SameCount(sc, src, p, width * height, DitherState(data[..], outData[..]));
  }

  /**
   * The two nested loops of fallbackDithering over a Float32Array copy of the
   * source and a fresh output buffer.
   */
  method DitherImage(pow: Pow, src: seq<Byte>, width: nat, height: nat, algorithm: DitheringAlgorithm, palette: seq<Color>)
    returns (out: seq<Byte>)
    requires 0 < width && 0 < height && |src| == width * height * 4
    requires palette != [] && forall k :: 0 <= k < |palette| ==> palette[k].Valid(pow)
    modifies palette
    ensures forall k :: 0 <= k < |palette| ==> palette[k].Valid(pow)
    ensures out == Dithered(ScanOf(pow, width, height, Keys(palette), algorithm), src).out
  {
    var data, outData := StartBuffers(src);
    ghost var sc := ScanOf(pow, width, height, Keys(palette), algorithm);
    assert Reached(sc, src, 0, DitherState(data[..], outData[..]));
    DitherRows(pow, data, outData, width, height, algorithm, palette, sc, src);
    out := outData[..];
  }

  /**
   * fallbackDithering: None maps the palette without dithering; any other
   * algorithm runs the error-diffusion scan. It fails exactly when
   * fallbackApplyPalette would. With an empty palette the source fails on
   * the first pixel, reading a channel of the missing nearest colour, before
   * any visible write; the model fails at the same point, ahead of the scan.
   */
  method FallbackDithering(pow: Pow, imageData: ImageData, algorithm: DitheringAlgorithm, palette: seq<Color>)
    returns (result: W.Result<ImageData>)
    requires imageData.Valid()
    requires forall k :: 0 <= k < |palette| ==> palette[k].Valid(pow)
    modifies palette
    ensures forall k :: 0 <= k < |palette| ==> palette[k].Valid(pow)
    ensures result.Ok? <==> imageData.width > 0 && imageData.height > 0 && palette != []
    ensures result.Ok? && algorithm == DitheringAlgorithm.None ==>
      result.value == ImageData(imageData.width, imageData.height, MappedImage(pow, imageData.data, Keys(palette)))
    ensures result.Ok? && algorithm != DitheringAlgorithm.None ==>
      result.value == ImageData(imageData.width, imageData.height,
        Dithered(ScanOf(pow, imageData.width, imageData.height, Keys(palette), algorithm), imageData.data).out)
  {
    if algorithm == DitheringAlgorithm.None {
      result := FallbackApplyPalette(pow, imageData, palette);
      return;
    }
    var width := imageData.width;
    var height := imageData.height;
    if width == 0 || height == 0 {
      return W.Err(EmptyImageError);
    }
    if palette == [] {
      return W.Err(EmptyPaletteError);
    }
    var out := DitherImage(pow, imageData.data, width, height, algorithm, palette);
    result := W.Ok(ImageData(width, height, out));
  }
}

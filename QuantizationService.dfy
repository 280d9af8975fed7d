/**
 * The library-free parts of QuantizationService: the dithering-kernel names,
 * the embroidery tuning of a configuration, palette conversion, and the
 * fallback path that builds a palette and maps every pixel to its nearest
 * palette colour.
 */
module QuantizationService {
  import W = Wrappers
  import opened Raster
  import opened ProcessingModels
  import opened NearestColor
  import opened PaletteGeneration

  // ---------------------------------------------------------------------------
  // getDitheringKernel

  /** The kernel name handed to the quantizer library; None means no dithering (null). */
  function GetDitheringKernel(algorithm: DitheringAlgorithm): (kernel: W.Option<string>)
    ensures kernel.None? <==> algorithm == DitheringAlgorithm.None
    ensures kernel.Some? ==> kernel.value == algorithm.Value()
  {
    match algorithm
    case None => W.None
    case FloydSteinberg => W.Some("FloydSteinberg")
    case Atkinson => W.Some("Atkinson")
    case Burkes => W.Some("Burkes")
    case Stucki => W.Some("Stucki")
    case Sierra2 => W.Some("Sierra2")
    case Sierra3 => W.Some("Sierra3")
    case SierraLite => W.Some("SierraLite")
  }

  /** Distinct algorithms get distinct kernels. */
  lemma KernelsDistinct(a1: DitheringAlgorithm, a2: DitheringAlgorithm)
    requires GetDitheringKernel(a1) == GetDitheringKernel(a2)
    ensures a1 == a2
  {
  }

  // ---------------------------------------------------------------------------
  // optimizeForEmbroidery

  /**
   * A copy of the configuration with method 2, serpentine scanning, a
   * `minHueCols` own property of max(2, floor(colorCount / 8)), and the
   * dithering intensity capped at 0.05 for at most 16 colours. The
   * `minHueColors` field that the library options read is not touched.
   */
  function OptimizeForEmbroidery(config: QuantizationConfig): (optimized: QuantizationConfig)
    ensures optimized.quantMethod == 2 && optimized.serpentineMode
    ensures optimized.minHueCols.Some? && optimized.minHueCols.value >= 2
    ensures optimized.minHueCols.value >= config.colorCount / 8
    ensures optimized.minHueCols.value == 2 || optimized.minHueCols.value == config.colorCount / 8
    ensures config.colorCount <= 16 ==>
      optimized.ditheringIntensity <= 0.05 && optimized.ditheringIntensity <= config.ditheringIntensity &&
      (optimized.ditheringIntensity == 0.05 || optimized.ditheringIntensity == config.ditheringIntensity)
    ensures config.colorCount > 16 ==> optimized.ditheringIntensity == config.ditheringIntensity
    ensures optimized.colorCount == config.colorCount
    ensures optimized.ditheringAlgorithm == config.ditheringAlgorithm
    ensures optimized.minHueColors == config.minHueColors
    ensures optimized.preserveAlpha == config.preserveAlpha
    ensures optimized.embroideryOptimized == config.embroideryOptimized
  {
    var copy := NewQuantizationConfig(W.Some(OwnProperties(config)));
    CopyConfig(config);
    var hueCols := if 2 >= copy.colorCount / 8 then 2 else copy.colorCount / 8;
    var copy' := copy.(quantMethod := 2, minHueCols := W.Some(hueCols));
    var copy'' :=
      if config.colorCount <= 16 then copy'.(ditheringIntensity := Min(0.05, config.ditheringIntensity))
      else copy';
    copy''.(serpentineMode := true)
  }

  /** Optimizing an optimized configuration changes nothing. */
  lemma OptimizeIdempotent(config: QuantizationConfig)
    ensures OptimizeForEmbroidery(OptimizeForEmbroidery(config)) == OptimizeForEmbroidery(config)
  {
  }

  // ---------------------------------------------------------------------------
  // convertPalette

  /** The colour key of a palette row: each of its first three numbers clamped and rounded. */
  function RowKey(rgb: seq<real>): Rgb
    requires |rgb| >= 3
  {
    Rgb(ClampRound(rgb[0]), ClampRound(rgb[1]), ClampRound(rgb[2]))
  }

  /** A row of byte values keeps its values. */
  lemma RowKeyBytes(rgb: seq<real>, c: Rgb)
    requires rgb == [c.r as real, c.g as real, c.b as real]
    ensures RowKey(rgb) == c
  {
    ClampRoundByte(c.r);
    ClampRoundByte(c.g);
    ClampRoundByte(c.b);
  }

  /** `new Color(rgb[0], rgb[1], rgb[2])`. */
  method RowColor(rgb: seq<real>) returns (c: Color)
    requires |rgb| >= 3
    ensures c.Key() == RowKey(rgb) && c.a == 255 && c.lab.None? && fresh(c)
  {
    c := new Color(rgb[0], rgb[1], rgb[2]);
  }

  /** One Color per [r, g, b] row of the library's palette, clamped and rounded, alpha 255. */
  method ConvertPalette(rgbQuantPalette: seq<seq<real>>) returns (colors: seq<Color>)
    requires forall i :: 0 <= i < |rgbQuantPalette| ==> |rgbQuantPalette[i]| >= 3
    ensures |colors| == |rgbQuantPalette|
    ensures forall i :: 0 <= i < |colors| ==>
      colors[i].Key() == RowKey(rgbQuantPalette[i]) && colors[i].a == 255 && colors[i].lab.None? && fresh(colors[i])
  {
    colors := [];
    for i := 0 to |rgbQuantPalette|
      invariant |colors| == i
      invariant forall j :: 0 <= j < i ==>
        colors[j].Key() == RowKey(rgbQuantPalette[j]) && colors[j].a == 255 && colors[j].lab.None? && fresh(colors[j])
    {
      var c := RowColor(rgbQuantPalette[i]);
      colors := colors + [c];
    }
  }

  // ---------------------------------------------------------------------------
  // Writing one pixel of an output buffer

  /** The buffer with pixel cells idx .. idx + 3 set to (c.r, c.g, c.b, a). */
  function SetPixel(out: seq<Byte>, idx: int, c: Rgb, a: Byte): (r: seq<Byte>)
    requires 0 <= idx && idx + 4 <= |out|
    ensures |r| == |out|
  {
    out[idx := c.r][idx + 1 := c.g][idx + 2 := c.b][idx + 3 := a]
  }

  /** Writing the next pixel's cells extends a prefix shared with a target buffer. */
  lemma SetPixelPrefix(before: seq<Byte>, target: seq<Byte>, idx: nat, c: Rgb, a: Byte)
    requires |before| == |target| && idx + 4 <= |target|
    requires before[..idx] == target[..idx]
    requires target[idx] == c.r && target[idx + 1] == c.g && target[idx + 2] == c.b && target[idx + 3] == a
    ensures SetPixel(before, idx, c, a)[..idx + 4] == target[..idx + 4]
  {
    var after := SetPixel(before, idx, c, a);
    forall j | 0 <= j < idx + 4 ensures after[j] == target[j] {
      if j < idx {
        assert before[j] == before[..idx][j];
      }
    }
  }

  /** The four stores outData[idx] .. outData[idx + 3] of one pixel. */
  method WritePixel(outData: array<Byte>, idx: int, c: Rgb, a: Byte)
    requires 0 <= idx && idx + 4 <= outData.Length
    modifies outData
    ensures outData[..] == SetPixel(old(outData[..]), idx, c, a)
  {
    outData[idx] := c.r;
    outData[idx + 1] := c.g;
    outData[idx + 2] := c.b;
    outData[idx + 3] := a;
  }

  // ---------------------------------------------------------------------------
  // fallbackApplyPalette

  /** The palette entry findNearestColor picks for a pixel of colour k. */
  function NearestKey(pow: Pow, palette: seq<Rgb>, k: Rgb): (c: Rgb)
    requires palette != []
    ensures c in palette
  {
    palette[NearestIndex(pow, k, palette)]
  }

  /** Channel ch (0 red, 1 green, 2 blue) of a colour. */
  function ChannelOf(c: Rgb, ch: int): Byte {
    if ch == 0 then c.r else if ch == 1 then c.g else c.b
  }

  /**
   * Cell i of the mapped image: the alpha cell is copied, a colour cell takes
   * the channel of the palette entry nearest to its pixel's colour.
   */
  function MappedCell(pow: Pow, data: seq<Byte>, palette: seq<Rgb>, i: int): Byte
    requires palette != [] && |data| % 4 == 0 && 0 <= i < |data|
  {
    if i % 4 == 3 then data[i] else ChannelOf(NearestKey(pow, palette, PixelKeys(data)[i / 4]), i % 4)
  }

  /** The image fallbackApplyPalette produces, cell by cell. */
  function MappedImage(pow: Pow, data: seq<Byte>, palette: seq<Rgb>): (out: seq<Byte>)
    requires palette != [] && |data| % 4 == 0
    ensures |out| == |data|
    ensures forall i :: 0 <= i < |data| ==> out[i] == MappedCell(pow, data, palette, i)
  {
    seq(|data|, i requires 0 <= i < |data| => MappedCell(pow, data, palette, i))
  }

  /** The four cells of pixel p of the mapped image. */
  lemma MappedPixelCells(pow: Pow, data: seq<Byte>, palette: seq<Rgb>, p: nat)
    requires palette != [] && |data| % 4 == 0 && 4 * p + 4 <= |data|
    ensures var c := NearestKey(pow, palette, Rgb(data[4 * p], data[4 * p + 1], data[4 * p + 2]));
      MappedImage(pow, data, palette)[4 * p] == c.r &&
      MappedImage(pow, data, palette)[4 * p + 1] == c.g &&
      MappedImage(pow, data, palette)[4 * p + 2] == c.b &&
      MappedImage(pow, data, palette)[4 * p + 3] == data[4 * p + 3]
  {
    var k := PixelKeys(data)[p];
    assert (4 * p) / 4 == p && (4 * p + 1) / 4 == p && (4 * p + 2) / 4 == p;
    assert (4 * p) % 4 == 0 && (4 * p + 1) % 4 == 1 && (4 * p + 2) % 4 == 2 && (4 * p + 3) % 4 == 3;
  }

  /**
   * Every pixel of the mapped image is the palette entry nearest to the
   * source pixel (a palette colour), and every alpha cell is the source's.
   */
  lemma MappedImagePixels(pow: Pow, data: seq<Byte>, palette: seq<Rgb>)
    requires palette != [] && |data| % 4 == 0
    ensures forall p :: 0 <= p < |data| / 4 ==>
      PixelKeys(MappedImage(pow, data, palette))[p] == NearestKey(pow, palette, PixelKeys(data)[p])
    ensures forall i :: 0 <= i < |data| && i % 4 == 3 ==> MappedImage(pow, data, palette)[i] == data[i]
  {
    forall p | 0 <= p < |data| / 4
      ensures PixelKeys(MappedImage(pow, data, palette))[p] == NearestKey(pow, palette, PixelKeys(data)[p])
    {
      MappedPixelCells(pow, data, palette, p);
    }
  }

  /** A cell of two images laid end to end maps like the cell of the image it comes from. */
  lemma ConcatCell(pow: Pow, d1: seq<Byte>, d2: seq<Byte>, palette: seq<Rgb>, i: nat)
    requires palette != [] && |d1| % 4 == 0 && |d2| % 4 == 0 && i < |d1| + |d2|
    ensures MappedCell(pow, d1 + d2, palette, i) ==
      if i < |d1| then MappedCell(pow, d1, palette, i) else MappedCell(pow, d2, palette, i - |d1|)
  {
    if i >= |d1| {
      var j := i - |d1|;
      assert i % 4 == j % 4 && i / 4 == |d1| / 4 + j / 4;
      assert PixelKeys(d1 + d2)[i / 4] == PixelKeys(d2)[j / 4];
    } else {
      assert PixelKeys(d1 + d2)[i / 4] == PixelKeys(d1)[i / 4];
    }
  }

  /** Pixels are mapped independently: mapping two images laid end to end maps each on its own. */
  lemma MappedImageConcat(pow: Pow, d1: seq<Byte>, d2: seq<Byte>, palette: seq<Rgb>)
    requires palette != [] && |d1| % 4 == 0 && |d2| % 4 == 0
    ensures MappedImage(pow, d1 + d2, palette) == MappedImage(pow, d1, palette) + MappedImage(pow, d2, palette)
  {
    var lhs := MappedImage(pow, d1 + d2, palette);
    var rhs := MappedImage(pow, d1, palette) + MappedImage(pow, d2, palette);
    forall i | 0 <= i < |lhs| ensures lhs[i] == rhs[i] {
      ConcatCell(pow, d1, d2, palette, i);
    }
  }

  /** Error message of the TypeError raised when the palette is empty. */
  const EmptyPaletteError := "TypeError: Cannot read properties of undefined (reading 'r')"

  /** The first i cells of out are those of the mapped image. */
  ghost predicate MappedUpTo(pow: Pow, data: seq<Byte>, palette: seq<Rgb>, out: seq<Byte>, i: nat) {
    palette != [] && |data| % 4 == 0 && |out| == |data| && i <= |data| &&
    out[..i] == MappedImage(pow, data, palette)[..i]
  }

  /** The loop body of fallbackApplyPalette for the pixel at cell i, pixel number n. */
  method MapPixel(pow: Pow, data: seq<Byte>, outData: array<Byte>, i: nat, ghost n: nat, palette: seq<Color>)
    requires i == 4 * n && i + 4 <= |data|
    requires palette != [] && forall k :: 0 <= k < |palette| ==> palette[k].Valid(pow)
    requires MappedUpTo(pow, data, Keys(palette), outData[..], i)
    modifies outData, palette
    ensures forall k :: 0 <= k < |palette| ==> palette[k].Valid(pow)
    ensures MappedUpTo(pow, data, Keys(palette), outData[..], i + 4)
  {
    var r := data[i];
    var g := data[i + 1];
    var b := data[i + 2];
    var a := data[i + 3];
    var currentColor := NewColor(r, g, b, a);
    var nearestColor := FindNearestColor(pow, currentColor, palette);
    ghost var before := outData[..];
    WritePixel(outData, i, nearestColor.Key(), a);
    ghost var mapped := MappedImage(pow, data, Keys(palette));
    MappedPixelCells(pow, data, Keys(palette), n);
    assert nearestColor.Key() == NearestKey(pow, Keys(palette), Rgb(r, g, b));
    SetPixelPrefix(before, mapped, i, nearestColor.Key(), a);
  }

  /**
   * fallbackApplyPalette: a new image of the same size whose pixels are the
   * nearest palette colours of the source pixels, alpha copied. A zero-sized
   * image cannot be allocated. With an empty palette the source fails on the
   * first pixel, reading a channel of the missing nearest colour, before any
   * visible write; the model fails at the same point, ahead of the loop.
   */
  method FallbackApplyPalette(pow: Pow, imageData: ImageData, palette: seq<Color>) returns (result: W.Result<ImageData>)
    requires imageData.Valid()
    requires forall k :: 0 <= k < |palette| ==> palette[k].Valid(pow)
    modifies palette
    ensures forall k :: 0 <= k < |palette| ==> palette[k].Valid(pow)
    ensures result.Ok? <==> imageData.width > 0 && imageData.height > 0 && palette != []
    ensures result.Ok? ==>
      result.value == ImageData(imageData.width, imageData.height, MappedImage(pow, imageData.data, Keys(palette)))
  {
    if imageData.width == 0 || imageData.height == 0 {
      return W.Err(EmptyImageError);
    }
    if palette == [] {
      return W.Err(EmptyPaletteError);
    }
    var data := imageData.data;
    DataLengthMultipleOfFour(imageData);
    var outData := new Byte[|data|](_ => 0);
    var i := 0;
    ghost var n := 0;  // pixels written so far
    while i < |data|
      invariant i == 4 * n
      invariant forall k :: 0 <= k < |palette| ==> palette[k].Valid(pow)
      invariant MappedUpTo(pow, data, Keys(palette), outData[..], i)
    {
      MapPixel(pow, data, outData, i, n, palette);
      i, n := i + 4, n + 1;
    }
    assert outData[..] == outData[..|data|];
    result := W.Ok(ImageData(imageData.width, imageData.height, outData[..]));
  }

  // ---------------------------------------------------------------------------
  // fallbackQuantization

  /** The quantizer's result: the image, its palette and the elapsed time in milliseconds. */
  datatype QuantizedResult = QuantizedResult(imageData: ImageData, palette: seq<Color>, processingTime: real)

  /**
   * fallbackQuantization: the fallback palette of config.colorCount colours,
   * then the image mapped onto it. The two readings of performance.now()
   * are parameters.
   */
  method FallbackQuantization(pow: Pow, imageData: ImageData, config: QuantizationConfig,
                              startTime: real, endTime: real)
    returns (result: W.Result<QuantizedResult>)
    requires imageData.Valid()
    ensures result.Ok? <==>
      imageData.width > 0 && imageData.height > 0 && TopBuckets(PixelKeys(imageData.data), config.colorCount) != []
    ensures result.Ok? ==>
      var top := TopBuckets(PixelKeys(imageData.data), config.colorCount);
      Keys(result.value.palette) == KeysOf(top) &&
      result.value.imageData == ImageData(imageData.width, imageData.height, MappedImage(pow, imageData.data, KeysOf(top))) &&
      result.value.processingTime == endTime - startTime
  {
    var palette := FallbackPaletteGeneration(imageData, config.colorCount);
    ghost var top := TopBuckets(PixelKeys(imageData.data), config.colorCount);
    assert Keys(palette) == KeysOf(top);
    var quantized := FallbackApplyPalette(pow, imageData, palette);
    if quantized.Err? {
      return W.Err(quantized.message);
    }
    result := W.Ok(QuantizedResult(quantized.value, palette, endTime - startTime));
  }
}

/**
 * The value types of the processing pipeline: the Color class with its
 * clamping constructor, hex form and lazily cached Lab value, the bilateral
 * filter parameters, the dithering algorithm enumeration and the quantization
 * configuration.
 */
module ProcessingModels {
  import W = Wrappers
  import opened Raster

  /** Math.pow(base, exponent). The model does not interpret it. */
  type Pow = (real, real) -> real

  datatype LabColor = LabColor(l: real, a: real, b: real)

  /**
   * An (r, g, b) triple of bytes. It is also the key `${r},${g},${b}` under
   * which the fallback palette builder counts pixels.
   */
  datatype Rgb = Rgb(r: Byte, g: Byte, b: Byte)

  function Min(x: real, y: real): real { if x <= y then x else y }
  function Max(x: real, y: real): real { if x >= y then x else y }

  /** Math.round: the nearest integer, half-way cases going towards +infinity. */
  function Round(v: real): (n: int)
    ensures -0.5 < n as real - v <= 0.5
  {
    (v + 0.5).Floor
  }

  /** Math.round(Math.max(0, Math.min(255, v))), as the Color constructor applies to each channel. */
  function ClampRound(v: real): (c: Byte)
    ensures v <= 0.0 ==> c == 0
    ensures v >= 255.0 ==> c == 255
  {
    Round(Max(0.0, Min(255.0, v)))
  }

  /** Inside [0, 255] the clamp does nothing and the result is the nearest integer. */
  lemma ClampRoundNearest(v: real)
    requires 0.0 <= v <= 255.0
    ensures -0.5 < ClampRound(v) as real - v <= 0.5
  {
  }

  /** A byte value passes through the constructor's clamp-and-round unchanged. */
  lemma ClampRoundByte(b: Byte)
    ensures ClampRound(b as real) == b
  {
    assert (b as real).Floor == b;
  }

  // ---------------------------------------------------------------------------
  // sRGB -> CIE-Lab (D65), with Math.pow left abstract

  /** sRGB companding inverse of one channel scaled to [0, 1]. */
  function Linearize(pow: Pow, c: real): real {
    if c > 0.04045 then pow((c + 0.055) / 1.055, 2.4) else c / 12.92
  }

  /** The Lab transfer function f(t). */
  function LabTransfer(pow: Pow, t: real): real {
    if t > 0.008856 then pow(t, 1.0 / 3.0) else 7.787 * t + 16.0 / 116.0
  }

  function RgbToLab(pow: Pow, c: Rgb): LabColor {
    var r := Linearize(pow, c.r as real / 255.0);
    var g := Linearize(pow, c.g as real / 255.0);
    var b := Linearize(pow, c.b as real / 255.0);
    var x := LabTransfer(pow, (r * 0.4124 + g * 0.3576 + b * 0.1805) / 0.95047);
    var y := LabTransfer(pow, (r * 0.2126 + g * 0.7152 + b * 0.0722) / 1.00000);
    var z := LabTransfer(pow, (r * 0.0193 + g * 0.1192 + b * 0.9505) / 1.08883);
    LabColor(116.0 * y - 16.0, 500.0 * (x - y), 200.0 * (y - z))
  }

  /**
   * Squared Euclidean distance in Lab space. Color.distance returns its square
   * root; the root is monotone, so every comparison of distances made by the
   * pipeline has the same outcome on the squares.
   */
  function LabDistance(p: LabColor, q: LabColor): (d: real)
    ensures 0.0 <= d
    ensures p == q ==> d == 0.0
  {
    var dl, da, db := p.l - q.l, p.a - q.a, p.b - q.b;
    dl * dl + da * da + db * db
  }

  function ColorDistance(pow: Pow, c1: Rgb, c2: Rgb): (d: real)
    ensures 0.0 <= d
    ensures c1 == c2 ==> d == 0.0
  {
    LabDistance(RgbToLab(pow, c1), RgbToLab(pow, c2))
  }

  lemma DistanceSymmetric(pow: Pow, c1: Rgb, c2: Rgb)
    ensures ColorDistance(pow, c1, c2) == ColorDistance(pow, c2, c1)
  {
    var p, q := RgbToLab(pow, c1), RgbToLab(pow, c2);
    assert (p.l - q.l) * (p.l - q.l) == (q.l - p.l) * (q.l - p.l);
    assert (p.a - q.a) * (p.a - q.a) == (q.a - p.a) * (q.a - p.a);
    assert (p.b - q.b) * (p.b - q.b) == (q.b - p.b) * (q.b - p.b);
  }

  // ---------------------------------------------------------------------------
  // Hex form: '#' and two lower-case digits per channel

  /** The digit Number.prototype.toString(16) writes for 0 <= n < 16: 0-9, then a-f. */
  function HexDigit(n: nat): (ch: char)
    requires n < 16
    ensures LowerHexDigit(ch)
  {
    if n < 10 then ('0' as int + n) as char else ('a' as int + (n - 10)) as char
  }

  /** Number.prototype.toString(16) on a non-negative integer. */
  function Radix16(n: nat): (s: string)
    ensures 1 <= |s|
    ensures n < 16 ==> |s| == 1
    ensures 16 <= n < 256 ==> |s| == 2
    decreases n
  {
    if n < 16 then [HexDigit(n)] else Radix16(n / 16) + [HexDigit(n % 16)]
  }

  /** String.prototype.padStart with a one-character filler. */
  function PadStart(s: string, targetLength: nat, fill: char): (t: string)
    ensures |t| == if |s| < targetLength then targetLength else |s|
    ensures t[|t| - |s|..] == s
    ensures forall i :: 0 <= i < |t| - |s| ==> t[i] == fill
  {
    if |s| >= targetLength then s else seq(targetLength - |s|, _ => fill) + s
  }

  /** c.toString(16).padStart(2, '0'): the high and the low hexadecimal digit of the channel. */
  function HexComponent(c: Byte): (s: string)
    ensures s == [HexDigit(c / 16), HexDigit(c % 16)]
  {
    PaddedRadix16(c);
    PadStart(Radix16(c), 2, '0')
  }

  /** The `#rrggbb` form: '#' and two digits per channel, alpha left out. */
  function HexString(c: Rgb): (s: string)
    ensures s == ['#', HexDigit(c.r / 16), HexDigit(c.r % 16),
      HexDigit(c.g / 16), HexDigit(c.g % 16), HexDigit(c.b / 16), HexDigit(c.b % 16)]
  {
    var r, g, b := HexComponent(c.r), HexComponent(c.g), HexComponent(c.b);
    Concat7('#', r, g, b);
    "#" + r + g + b
  }

  lemma Concat7(h: char, r: string, g: string, b: string)
    requires |r| == |g| == |b| == 2
    ensures [h] + r + g + b == [h, r[0], r[1], g[0], g[1], b[0], b[1]]
  {
  }

  lemma PaddedRadix16(c: Byte)
    ensures PadStart(Radix16(c), 2, '0') == [HexDigit(c / 16), HexDigit(c % 16)]
  {
    var d := Radix16(c);
    if c < 16 {
      assert d == [HexDigit(c)];
      assert PadStart(d, 2, '0') == ['0'] + d;
      assert HexDigit(0) == '0';
    } else {
      assert Radix16(c / 16) == [HexDigit(c / 16)];
      assert d == [HexDigit(c / 16), HexDigit(c % 16)];
    }
  }

  predicate LowerHexDigit(ch: char) {
    '0' <= ch <= '9' || 'a' <= ch <= 'f'
  }

  /** Value of one hexadecimal digit, either case. */
  function HexDigitValue(ch: char): W.Option<nat> {
    if '0' <= ch <= '9' then W.Some(ch as int - '0' as int)
    else if 'a' <= ch <= 'f' then W.Some(ch as int - 'a' as int + 10)
    else if 'A' <= ch <= 'F' then W.Some(ch as int - 'A' as int + 10)
    else W.None
  }

  function ParseHexByte(hi: char, lo: char): W.Option<Byte> {
    match (HexDigitValue(hi), HexDigitValue(lo))
    case (Some(h), Some(l)) => if h * 16 + l < 256 then W.Some(h * 16 + l) else W.None
    case _ => W.None
  }

  /** Reads a colour back from the `#rrggbb` form. */
  function ParseHex(s: string): W.Option<Rgb> {
    if |s| != 7 || s[0] != '#' then W.None
    else match (ParseHexByte(s[1], s[2]), ParseHexByte(s[3], s[4]), ParseHexByte(s[5], s[6]))
      case (Some(r), Some(g), Some(b)) => W.Some(Rgb(r, g, b))
      case _ => W.None
  }

  lemma DigitValue(i: nat)
    requires i < 16
    ensures HexDigitValue(HexDigit(i)) == W.Some(i)
  {
  }

  /** toHex gives seven characters, lower-case digits, and parses back to the colour. */
  lemma HexRoundTrip(c: Rgb)
    ensures |HexString(c)| == 7 && HexString(c)[0] == '#'
    ensures forall i :: 1 <= i < 7 ==> LowerHexDigit(HexString(c)[i])
    ensures ParseHex(HexString(c)) == W.Some(c)
  {
    var s := HexString(c);
    DigitsLower(s);
    assert ParseHex(s) == W.Some(c) by {
      HexPairValue(c.r);
      HexPairValue(c.g);
      HexPairValue(c.b);
      ParseSeven(s, c);
    }
  }

  lemma DigitsLower(s: string)
    requires |s| == 7
    requires LowerHexDigit(s[1]) && LowerHexDigit(s[2]) && LowerHexDigit(s[3])
    requires LowerHexDigit(s[4]) && LowerHexDigit(s[5]) && LowerHexDigit(s[6])
    ensures forall i :: 1 <= i < 7 ==> LowerHexDigit(s[i])
  {
  }

  lemma ParseSeven(s: string, c: Rgb)
    requires |s| == 7 && s[0] == '#'
    requires ParseHexByte(s[1], s[2]) == W.Some(c.r)
    requires ParseHexByte(s[3], s[4]) == W.Some(c.g)
    requires ParseHexByte(s[5], s[6]) == W.Some(c.b)
    ensures ParseHex(s) == W.Some(c)
  {
  }

  lemma HexPairValue(v: Byte)
    ensures ParseHexByte(HexDigit(v / 16), HexDigit(v % 16)) == W.Some(v)
  {
    DigitValue(v / 16);
    DigitValue(v % 16);
  }

  // ---------------------------------------------------------------------------
  // Color

  class Color {
    const r: Byte
    const g: Byte
    const b: Byte
    const a: Byte
    const hex: string
    /** The Lab value, computed on the first call of ToLab. */
    var lab: W.Option<LabColor>

    function Key(): Rgb {
      Rgb(r, g, b)
    }

    /**
     * A cached Lab value is the conversion of the channels. (The hex string
     * is a constant fixed by the constructor, so it needs no invariant.)
     */
    ghost predicate Valid(pow: Pow)
      reads this
    {
      lab.Some? ==> lab.value == RgbToLab(pow, Key())
    }

    /** Each channel is clamped to [0, 255] and rounded; alpha defaults to 255. */
    constructor (r: real, g: real, b: real, a: real := 255.0)
      ensures this.r == ClampRound(r) && this.g == ClampRound(g) && this.b == ClampRound(b)
      ensures this.a == ClampRound(a)
      ensures hex == HexString(Key()) && lab == W.None
    {
      var cr, cg, cb := ClampRound(r), ClampRound(g), ClampRound(b);
      this.r, this.g, this.b := cr, cg, cb;
      this.a := ClampRound(a);
      this.hex := HexString(Rgb(cr, cg, cb));
      this.lab := W.None;
    }

    function ToHex(): (s: string)
      ensures |s| == 7 && s[0] == '#'
      ensures ParseHex(s) == W.Some(Key())
    {
      HexRoundTrip(Key());
      HexString(Key())
    }

    /** Computes the Lab value on the first call and returns the cached one afterwards. */
    method ToLab(pow: Pow) returns (v: LabColor)
      requires Valid(pow)
      modifies this
      ensures Valid(pow) && lab == W.Some(v)
      ensures v == RgbToLab(pow, Key())
      ensures old(lab).Some? ==> lab == old(lab)
    {
      if lab.None? {
        lab := W.Some(RgbToLab(pow, Key()));
      }
      v := lab.value;
    }

    /** Distance in Lab space (squared, see LabDistance); fills both caches. */
    method Distance(pow: Pow, other: Color) returns (d: real)
      requires Valid(pow) && other.Valid(pow)
      modifies this, other
      ensures Valid(pow) && other.Valid(pow)
      ensures lab.Some? && other.lab.Some?
      ensures d == ColorDistance(pow, Key(), other.Key())
    {
      var lab1 := ToLab(pow);
      var lab2 := other.ToLab(pow);
      d := LabDistance(lab1, lab2);
    }
  }

  /** A second call of ToLab returns what the first returned. */
  method ToLabTwice(pow: Pow, c: Color) returns (first: LabColor, second: LabColor)
    requires c.Valid(pow)
    modifies c
    ensures first == second == RgbToLab(pow, c.Key())
  {
    first := c.ToLab(pow);
    second := c.ToLab(pow);
  }

  /** new Color(r, g, b, a) on byte channels: the channels are kept exactly. */
  method NewColor(r: Byte, g: Byte, b: Byte, a: Byte := 255) returns (c: Color)
    ensures fresh(c) && c.Key() == Rgb(r, g, b) && c.a == a && c.lab.None?
  {
    ClampRoundByte(r);
    ClampRoundByte(g);
    ClampRoundByte(b);
    ClampRoundByte(a);
    c := new Color(r as real, g as real, b as real, a as real);
  }

  // ---------------------------------------------------------------------------
  // Parameters

  /** Bilateral filter parameters; the field initialisers and the constructor defaults agree. */
  datatype BilateralParams = BilateralParams(
    sigmaSpace: real := 15.0,
    sigmaColor: real := 30.0,
    kernelSize: int := 9,
    iterations: int := 1)

  datatype DitheringAlgorithm =
    | None | FloydSteinberg | Atkinson | Burkes | Stucki | Sierra2 | Sierra3 | SierraLite
  {
    /** The string value of the enumeration member. */
    function Value(): string {
      match this
      case None => "none"
      case FloydSteinberg => "FloydSteinberg"
      case Atkinson => "Atkinson"
      case Burkes => "Burkes"
      case Stucki => "Stucki"
      case Sierra2 => "Sierra2"
      case Sierra3 => "Sierra3"
      case SierraLite => "SierraLite"
    }
  }

  /**
   * A QuantizationConfig object. Besides its declared fields it may carry an
   * own property `minHueCols`, which Object.assign copies along and which
   * optimizeForEmbroidery and the presets write.
   */
  datatype QuantizationConfig = QuantizationConfig(
    colorCount: int := 16,
    quantMethod: int := 2,  // the `method` property
    ditheringAlgorithm: DitheringAlgorithm := DitheringAlgorithm.FloydSteinberg,
    ditheringIntensity: real := 0.05,
    serpentineMode: bool := true,
    minHueColors: int := 2,
    preserveAlpha: bool := true,
    embroideryOptimized: bool := true,
    minHueCols: W.Option<int> := W.None)

  /** A Partial<QuantizationConfig>: the properties the caller supplied. */
  datatype ConfigFields = ConfigFields(
    colorCount: W.Option<int>,
    quantMethod: W.Option<int>,
    ditheringAlgorithm: W.Option<DitheringAlgorithm>,
    ditheringIntensity: W.Option<real>,
    serpentineMode: W.Option<bool>,
    minHueColors: W.Option<int>,
    preserveAlpha: W.Option<bool>,
    embroideryOptimized: W.Option<bool>,
    minHueCols: W.Option<int>)

  function Override<T>(current: T, supplied: W.Option<T>): T {
    if supplied.Some? then supplied.value else current
  }

  /** `new QuantizationConfig(config)`: the defaults, then Object.assign of the supplied properties. */
  function NewQuantizationConfig(config: W.Option<ConfigFields>): (c: QuantizationConfig)
    ensures config.None? ==> c == QuantizationConfig()
    ensures config.Some? && config.value.colorCount.None? ==> c.colorCount == 16
    ensures config.Some? && config.value.colorCount.Some? ==> c.colorCount == config.value.colorCount.value
  {
    var d := QuantizationConfig();
    if config.None? then d
    else
      var f := config.value;
      QuantizationConfig(
        Override(d.colorCount, f.colorCount),
        Override(d.quantMethod, f.quantMethod),
        Override(d.ditheringAlgorithm, f.ditheringAlgorithm),
        Override(d.ditheringIntensity, f.ditheringIntensity),
        Override(d.serpentineMode, f.serpentineMode),
        Override(d.minHueColors, f.minHueColors),
        Override(d.preserveAlpha, f.preserveAlpha),
        Override(d.embroideryOptimized, f.embroideryOptimized),
        if f.minHueCols.Some? then f.minHueCols else d.minHueCols)
  }

  /** Each property the caller supplies is taken; each one left out keeps its default. */
  lemma SuppliedFieldsOnly(f: ConfigFields)
    ensures var c := NewQuantizationConfig(W.Some(f));
      (c.quantMethod == if f.quantMethod.Some? then f.quantMethod.value else 2) &&
      (c.ditheringAlgorithm == if f.ditheringAlgorithm.Some? then f.ditheringAlgorithm.value else FloydSteinberg) &&
      (c.ditheringIntensity == if f.ditheringIntensity.Some? then f.ditheringIntensity.value else 0.05) &&
      (c.serpentineMode == if f.serpentineMode.Some? then f.serpentineMode.value else true) &&
      (c.minHueColors == if f.minHueColors.Some? then f.minHueColors.value else 2) &&
      (c.preserveAlpha == if f.preserveAlpha.Some? then f.preserveAlpha.value else true) &&
      (c.embroideryOptimized == if f.embroideryOptimized.Some? then f.embroideryOptimized.value else true) &&
      c.minHueCols == f.minHueCols
  {
  }

  /** The own properties of a configuration object, as Object.assign sees them. */
  function OwnProperties(c: QuantizationConfig): ConfigFields {
    ConfigFields(
      W.Some(c.colorCount), W.Some(c.quantMethod), W.Some(c.ditheringAlgorithm),
      W.Some(c.ditheringIntensity), W.Some(c.serpentineMode), W.Some(c.minHueColors),
      W.Some(c.preserveAlpha), W.Some(c.embroideryOptimized), c.minHueCols)
  }

  /** Copying a configuration through the constructor gives the same configuration. */
  lemma CopyConfig(c: QuantizationConfig)
    ensures NewQuantizationConfig(W.Some(OwnProperties(c))) == c
  {
  }
}

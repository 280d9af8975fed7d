/**
 * QuantizationService.getErrorDistributionMatrix and distributeError: the tap
 * tables of the fallback ditherer and the in-place addition of a pixel's
 * quantization error into the accumulator buffer. The buffer is a
 * Float32Array in the source; here its cells are exact reals.
 */
module ErrorDiffusion {
  import opened Raster
  import opened ProcessingModels

  /** One entry [dx, dy, factor] of a distribution matrix. */
  datatype Tap = Tap(dx: int, dy: int, factor: real)

  /** The quantization error of one pixel, per colour channel. */
  datatype ChannelError = ChannelError(r: real, g: real, b: real)

  /** A tap points at a pixel the row-major scan has not reached yet. */
  predicate Forward(t: Tap) {
    t.dy > 0 || (t.dy == 0 && t.dx > 0)
  }

  /** Sum of the factors of a list of taps. */
  function TotalWeight(taps: seq<Tap>): real
    decreases |taps|
  {
    if taps == [] then 0.0 else TotalWeight(taps[..|taps| - 1]) + taps[|taps| - 1].factor
  }

  /** No two taps of the list aim at the same offset. */
  predicate DistinctOffsets(taps: seq<Tap>) {
    forall j, k :: 0 <= j < k < |taps| ==> (taps[j].dx, taps[j].dy) != (taps[k].dx, taps[k].dy)
  }

  /**
   * Floyd-Steinberg and Atkinson have their own tables; every other algorithm
   * (including None, and Burkes, Stucki and the Sierra variants) gets the
   * generic two-tap table. All taps are forward, positive and at distinct
   * offsets; Floyd-Steinberg and the generic table pass on the whole error,
   * Atkinson six eighths of it.
   */
  function ErrorDistributionMatrix(algorithm: DitheringAlgorithm): (m: seq<Tap>)
    ensures forall k :: 0 <= k < |m| ==> Forward(m[k]) && m[k].factor > 0.0
    ensures forall k :: 0 <= k < |m| ==> -1 <= m[k].dx <= 2 && 0 <= m[k].dy <= 2
  {
    match algorithm
    case FloydSteinberg =>
      [Tap(1, 0, 7.0 / 16.0), Tap(-1, 1, 3.0 / 16.0), Tap(0, 1, 5.0 / 16.0), Tap(1, 1, 1.0 / 16.0)]
    case Atkinson =>
      [Tap(1, 0, 1.0 / 8.0), Tap(2, 0, 1.0 / 8.0), Tap(-1, 1, 1.0 / 8.0),
       Tap(0, 1, 1.0 / 8.0), Tap(1, 1, 1.0 / 8.0), Tap(0, 2, 1.0 / 8.0)]
    case _ =>
      [Tap(1, 0, 0.5), Tap(0, 1, 0.5)]
  }

  lemma WeightStep(s: seq<Tap>, k: nat)
    requires k < |s|
    ensures TotalWeight(s[..k + 1]) == TotalWeight(s[..k]) + s[k].factor
  {
    assert s[..k + 1][..k] == s[..k];
  }

  /**
   * The tables aim at distinct offsets; Floyd-Steinberg and the generic table
   * pass on the whole error, Atkinson six eighths of it.
   */
  lemma MatrixWeights(algorithm: DitheringAlgorithm)
    ensures DistinctOffsets(ErrorDistributionMatrix(algorithm))
    ensures TotalWeight(ErrorDistributionMatrix(algorithm)) == if algorithm == Atkinson then 6.0 / 8.0 else 1.0
  {
    var m := ErrorDistributionMatrix(algorithm);
    assert m[..0] == [];
    WeightStep(m, 0);
    WeightStep(m, 1);
    if |m| > 2 {
      WeightStep(m, 2);
      WeightStep(m, 3);
    }
    if |m| > 4 {
      WeightStep(m, 4);
      WeightStep(m, 5);
    }
    assert m[..|m|] == m;
  }

  // ---------------------------------------------------------------------------
  // What distributeError does to the buffer

  /** The tap from (x, y) lands inside the image. */
  predicate InBounds(width: int, height: int, x: int, y: int, t: Tap) {
    0 <= x + t.dx < width && 0 <= y + t.dy < height
  }

  /** Pixel number (row-major) of the tap's target. */
  function TargetPixel(width: int, x: int, y: int, t: Tap): int {
    (y + t.dy) * width + (x + t.dx)
  }

  /** Index of the red cell of an in-bounds target. */
  function TargetCell(width: nat, height: nat, x: int, y: int, t: Tap): (c: int)
    requires InBounds(width, height, x, y, t)
    ensures 0 <= c && c + 4 <= width * height * 4 && c % 4 == 0
  {
    PixelIndexInBounds(width, height, x + t.dx, y + t.dy);
    TargetPixel(width, x, y, t) * 4
  }

  /** The error scaled by a tap's factor. */
  function Scale(e: ChannelError, f: real): ChannelError {
    ChannelError(e.r * f, e.g * f, e.b * f)
  }

  /** Adds d to the three colour cells starting at idx. */
  function AddAt(acc: seq<real>, idx: int, d: ChannelError): (r: seq<real>)
    requires 0 <= idx && idx + 3 <= |acc|
    ensures |r| == |acc|
  {
    acc[idx := acc[idx] + d.r][idx + 1 := acc[idx + 1] + d.g][idx + 2 := acc[idx + 2] + d.b]
  }

  /** One tap: add error * factor to the R, G and B cells of an in-bounds target. */
  function AddTap(acc: seq<real>, width: nat, height: nat, x: int, y: int, e: ChannelError, t: Tap): (r: seq<real>)
    requires |acc| == width * height * 4
    ensures |r| == |acc|
  {
    if InBounds(width, height, x, y, t) then AddAt(acc, TargetCell(width, height, x, y, t), Scale(e, t.factor)) else acc
  }

  /** The taps applied in order. */
  function ApplyTaps(acc: seq<real>, width: nat, height: nat, x: int, y: int, e: ChannelError, taps: seq<Tap>): (r: seq<real>)
    requires |acc| == width * height * 4
    ensures |r| == |acc|
    decreases |taps|
  {
    if taps == [] then acc
    else AddTap(ApplyTaps(acc, width, height, x, y, e, taps[..|taps| - 1]), width, height, x, y, e, taps[|taps| - 1])
  }

  /** Cell i is one of the colour cells of the target of t. */
  predicate Hits(width: nat, height: nat, x: int, y: int, t: Tap, i: int) {
    InBounds(width, height, x, y, t) && TargetCell(width, height, x, y, t) <= i < TargetCell(width, height, x, y, t) + 3
  }

  lemma AddTapFrame(acc: seq<real>, width: nat, height: nat, x: int, y: int, e: ChannelError, t: Tap, i: int)
    requires |acc| == width * height * 4
    requires 0 <= i < |acc| && !Hits(width, height, x, y, t, i)
    ensures AddTap(acc, width, height, x, y, e, t)[i] == acc[i]
  {
  }

  /**
   * distributeError changes only the R, G and B cells of in-bounds tap
   * targets: every other cell, out-of-bounds taps included, is left as it was.
   */
  lemma {:induction false} OnlyTargetsChange(acc: seq<real>, width: nat, height: nat, x: int, y: int, e: ChannelError, taps: seq<Tap>)
    requires |acc| == width * height * 4
    ensures forall i :: 0 <= i < |acc| && (forall k :: 0 <= k < |taps| ==> !Hits(width, height, x, y, taps[k], i)) ==>
      ApplyTaps(acc, width, height, x, y, e, taps)[i] == acc[i]
    decreases |taps|
  {
    if taps != [] {
      var init := taps[..|taps| - 1];
      var r0 := ApplyTaps(acc, width, height, x, y, e, init);
      OnlyTargetsChange(acc, width, height, x, y, e, init);
      forall i | 0 <= i < |acc| && (forall k :: 0 <= k < |taps| ==> !Hits(width, height, x, y, taps[k], i))
        ensures ApplyTaps(acc, width, height, x, y, e, taps)[i] == acc[i]
      {
        forall k | 0 <= k < |init| ensures !Hits(width, height, x, y, init[k], i) {
          assert init[k] == taps[k];
        }
        AddTapFrame(r0, width, height, x, y, e, taps[|taps| - 1], i);
      }
    }
  }

  /** Alpha cells are never hit. */
  lemma AlphaNotHit(width: nat, height: nat, x: int, y: int, t: Tap, i: int)
    requires i % 4 == 3
    ensures !Hits(width, height, x, y, t, i)
  {
  }

  /** No alpha cell of the buffer changes. */
  lemma AlphaUnchanged(acc: seq<real>, width: nat, height: nat, x: int, y: int, e: ChannelError, taps: seq<Tap>)
    requires |acc| == width * height * 4
    ensures forall i :: 0 <= i < |acc| && i % 4 == 3 ==> ApplyTaps(acc, width, height, x, y, e, taps)[i] == acc[i]
  {
    OnlyTargetsChange(acc, width, height, x, y, e, taps);
    forall i, k | 0 <= i < |acc| && i % 4 == 3 && 0 <= k < |taps| ensures !Hits(width, height, x, y, taps[k], i) {
      AlphaNotHit(width, height, x, y, taps[k], i);
    }
  }

  /** A forward tap from an in-image pixel lands on a later pixel. */
  lemma ForwardTargetLater(width: nat, height: nat, x: int, y: int, t: Tap)
    requires Forward(t) && 0 <= x < width && 0 <= y && InBounds(width, height, x, y, t)
    ensures TargetCell(width, height, x, y, t) >= PixelIndex(width, x, y) + 4
  {
    var p := TargetPixel(width, x, y, t);
    if t.dy > 0 {
      MulMonotone(y + 1, y + t.dy, width);
      assert (y + 1) * width == y * width + width;
    }
    assert p >= y * width + x + 1;
  }

  /**
   * With forward taps, the cells of the current pixel and of every pixel
   * before it in row-major order are left unchanged.
   */
  lemma ForwardOnly(acc: seq<real>, width: nat, height: nat, x: int, y: int, e: ChannelError, taps: seq<Tap>)
    requires |acc| == width * height * 4
    requires 0 <= x < width && 0 <= y
    requires forall k :: 0 <= k < |taps| ==> Forward(taps[k])
    ensures forall i :: 0 <= i < |acc| && i < PixelIndex(width, x, y) + 4 ==>
      ApplyTaps(acc, width, height, x, y, e, taps)[i] == acc[i]
  {
    OnlyTargetsChange(acc, width, height, x, y, e, taps);
    forall i, k | 0 <= i < |acc| && i < PixelIndex(width, x, y) + 4 && 0 <= k < |taps|
      ensures !Hits(width, height, x, y, taps[k], i)
    {
      if InBounds(width, height, x, y, taps[k]) {
        ForwardTargetLater(width, height, x, y, taps[k]);
      }
    }
  }

  /** Two in-bounds taps at different offsets hit disjoint cells. */
  lemma DistinctTargets(width: nat, height: nat, x: int, y: int, s: Tap, t: Tap)
    requires InBounds(width, height, x, y, s) && InBounds(width, height, x, y, t)
    requires (s.dx, s.dy) != (t.dx, t.dy)
    ensures TargetCell(width, height, x, y, s) + 4 <= TargetCell(width, height, x, y, t) ||
            TargetCell(width, height, x, y, t) + 4 <= TargetCell(width, height, x, y, s)
  {
    PixelCoordinates(width, x + s.dx, y + s.dy);
    PixelCoordinates(width, x + t.dx, y + t.dy);
    assert TargetPixel(width, x, y, s) != TargetPixel(width, x, y, t);
  }

  /** Channel c (0 red, 1 green, 2 blue) of an error. */
  function Channel(e: ChannelError, c: int): real {
    if c == 0 then e.r else if c == 1 then e.g else e.b
  }

  lemma AddTapHit(acc: seq<real>, width: nat, height: nat, x: int, y: int, e: ChannelError, t: Tap, c: int)
    requires |acc| == width * height * 4
    requires InBounds(width, height, x, y, t) && 0 <= c < 3
    ensures AddTap(acc, width, height, x, y, e, t)[TargetCell(width, height, x, y, t) + c] ==
      acc[TargetCell(width, height, x, y, t) + c] + Channel(Scale(e, t.factor), c)
  {
  }

  /** A tap at another offset leaves the colour cells of an in-bounds target alone. */
  lemma AddTapKeeps(acc: seq<real>, width: nat, height: nat, x: int, y: int, e: ChannelError, s: Tap, t: Tap, c: int)
    requires |acc| == width * height * 4
    requires InBounds(width, height, x, y, s) && (s.dx, s.dy) != (t.dx, t.dy) && 0 <= c < 3
    ensures AddTap(acc, width, height, x, y, e, t)[TargetCell(width, height, x, y, s) + c] ==
      acc[TargetCell(width, height, x, y, s) + c]
  {
    if InBounds(width, height, x, y, t) {
      DistinctTargets(width, height, x, y, s, t);
    }
    AddTapFrame(acc, width, height, x, y, e, t, TargetCell(width, height, x, y, s) + c);
  }

  /** The last tap's target receives its share, untouched by the taps before it. */
  lemma ReceiveLast(acc: seq<real>, width: nat, height: nat, x: int, y: int, e: ChannelError, taps: seq<Tap>, c: int)
    requires |acc| == width * height * 4
    requires DistinctOffsets(taps) && |taps| > 0 && 0 <= c < 3
    requires InBounds(width, height, x, y, taps[|taps| - 1])
    ensures ApplyTaps(acc, width, height, x, y, e, taps)[TargetCell(width, height, x, y, taps[|taps| - 1]) + c] ==
      acc[TargetCell(width, height, x, y, taps[|taps| - 1]) + c] + Channel(Scale(e, taps[|taps| - 1].factor), c)
  {
    var init, last := taps[..|taps| - 1], taps[|taps| - 1];
    var i := TargetCell(width, height, x, y, last) + c;
    OnlyTargetsChange(acc, width, height, x, y, e, init);
    forall j | 0 <= j < |init| ensures !Hits(width, height, x, y, init[j], i) {
      assert init[j] == taps[j];
      if InBounds(width, height, x, y, init[j]) {
        DistinctTargets(width, height, x, y, init[j], last);
      }
    }
    AddTapHit(ApplyTaps(acc, width, height, x, y, e, init), width, height, x, y, e, last, c);
  }

  /**
   * With taps at distinct offsets, channel c of each in-bounds target
   * receives exactly channel c of the error times its tap's factor.
   */
  lemma {:induction false} TargetsReceive(acc: seq<real>, width: nat, height: nat, x: int, y: int, e: ChannelError, taps: seq<Tap>)
    requires |acc| == width * height * 4
    requires DistinctOffsets(taps)
    ensures forall k, c :: 0 <= k < |taps| && InBounds(width, height, x, y, taps[k]) && 0 <= c < 3 ==>
      ApplyTaps(acc, width, height, x, y, e, taps)[TargetCell(width, height, x, y, taps[k]) + c] ==
      acc[TargetCell(width, height, x, y, taps[k]) + c] + Channel(Scale(e, taps[k].factor), c)
    decreases |taps|
  {
    if taps != [] {
      var n := |taps| - 1;
      var init := taps[..n];
      assert DistinctOffsets(init) by {
        forall j, k | 0 <= j < k < |init| ensures (init[j].dx, init[j].dy) != (init[k].dx, init[k].dy) {
          assert init[j] == taps[j] && init[k] == taps[k];
        }
      }
      TargetsReceive(acc, width, height, x, y, e, init);
      forall k, c | 0 <= k < |taps| && InBounds(width, height, x, y, taps[k]) && 0 <= c < 3
        ensures ApplyTaps(acc, width, height, x, y, e, taps)[TargetCell(width, height, x, y, taps[k]) + c] ==
          acc[TargetCell(width, height, x, y, taps[k]) + c] + Channel(Scale(e, taps[k].factor), c)
      {
        if k < n {
          assert init[k] == taps[k];
          AddTapKeeps(ApplyTaps(acc, width, height, x, y, e, init), width, height, x, y, e, taps[k], taps[n], c);
        } else {
          ReceiveLast(acc, width, height, x, y, e, taps, c);
        }
      }
    }
  }

  // ---------------------------------------------------------------------------
  // distributeError

  /** `data[idx] += dr; data[idx + 1] += dg; data[idx + 2] += db` */
  method AddCells(data: array<real>, idx: nat, dr: real, dg: real, db: real)
    requires idx + 3 <= data.Length
    modifies data
    ensures data[..] == AddAt(old(data[..]), idx, ChannelError(dr, dg, db))
  {
    ghost var before := data[..];
    data[idx] := data[idx] + dr;
    assert data[..] == before[idx := before[idx] + dr];
    data[idx + 1] := data[idx + 1] + dg;
    assert data[..] == before[idx := before[idx] + dr][idx + 1 := before[idx + 1] + dg];
    data[idx + 2] := data[idx + 2] + db;
  }

  /** One tap of the loop: when the tap lands inside the image, its share of the error is added in place. */
  method DistributeTap(data: array<real>, width: nat, height: nat, x: int, y: int,
                       errorR: real, errorG: real, errorB: real, tap: Tap)
    requires data.Length == width * height * 4
    modifies data
    ensures data[..] == AddTap(old(data[..]), width, height, x, y, ChannelError(errorR, errorG, errorB), tap)
  {
    var nx := x + tap.dx;
    var ny := y + tap.dy;
    if nx >= 0 && nx < width && ny >= 0 && ny < height {
      var idx := TargetCell(width, height, x, y, tap);  // (ny * width + nx) * 4
      AddCells(data, idx, errorR * tap.factor, errorG * tap.factor, errorB * tap.factor);
      assert ChannelError(errorR * tap.factor, errorG * tap.factor, errorB * tap.factor) ==
        Scale(ChannelError(errorR, errorG, errorB), tap.factor);
    }
  }

  /** Adds the error of pixel (x, y) into the accumulator, tap by tap, in place. */
  method DistributeError(data: array<real>, width: nat, height: nat, x: int, y: int,
                         errorR: real, errorG: real, errorB: real, algorithm: DitheringAlgorithm)
    requires data.Length == width * height * 4
    modifies data
    ensures data[..] == ApplyTaps(old(data[..]), width, height, x, y,
      ChannelError(errorR, errorG, errorB), ErrorDistributionMatrix(algorithm))
  {
    var distributionMatrix := ErrorDistributionMatrix(algorithm);
    ghost var e := ChannelError(errorR, errorG, errorB);
    for k := 0 to |distributionMatrix|
      invariant data[..] == ApplyTaps(old(data[..]), width, height, x, y, e, distributionMatrix[..k])
    {
      assert distributionMatrix[..k + 1][..k] == distributionMatrix[..k];
      DistributeTap(data, width, height, x, y, errorR, errorG, errorB, distributionMatrix[k]);
    }
    assert distributionMatrix[..|distributionMatrix|] == distributionMatrix;
  }
}

/**
 * Flat RGBA rasters as the browser's ImageData holds them: `width * height`
 * pixels, four channels each, pixel (x, y) starting at index (y * width + x) * 4.
 */
module Raster {

  /** One channel of a Uint8ClampedArray. */
  type Byte = b: int | 0 <= b < 256

  datatype ImageData = ImageData(width: nat, height: nat, data: seq<Byte>) {
    /** The ImageData invariant: four bytes per pixel. */
    predicate Valid() {
      |data| == width * height * 4
    }
  }

  /** Error message of `new ImageData` with a zero width or height, which throws. */
  const EmptyImageError := "IndexSizeError: The source width or height is zero."

  /**
   * Storing a number into a Uint8ClampedArray: clamp to [0, 255], then round
   * to the nearest integer, ties to even. (NaN, stored as 0, does not arise
   * with exact reals.)
   */
  function Uint8Clamp(v: real): (b: Byte)
    ensures v <= 0.0 ==> b == 0
    ensures v >= 255.0 ==> b == 255
    ensures 0.0 <= v <= 255.0 ==> -0.5 <= b as real - v <= 0.5
  {
    if v <= 0.0 then 0
    else if v >= 255.0 then 255
    else
      var f := v.Floor;
      var frac := v - f as real;
      if frac < 0.5 then f
      else if frac > 0.5 then f + 1
      else if f % 2 == 0 then f else f + 1
  }

  /** A byte value is stored unchanged. */
  lemma Uint8ClampByte(b: Byte)
    ensures Uint8Clamp(b as real) == b
  {
    assert (b as real).Floor == b;
  }

  /**
   * Bytes read as plain numbers: what `new Float32Array(bytes)` holds (with
   * exact reals for 32-bit floats), and what a posted Uint8ClampedArray is.
   */
  function AsNumbers(bytes: seq<Byte>): (numbers: seq<real>)
    ensures |numbers| == |bytes|
    ensures forall i :: 0 <= i < |bytes| ==> numbers[i] == bytes[i] as real
  {
    seq(|bytes|, i requires 0 <= i < |bytes| => bytes[i] as real)
  }

  /** Index of the red channel of pixel (x, y). */
  function PixelIndex(width: int, x: int, y: int): int {
    (y * width + x) * 4
  }

  /** PixelIndex of an in-image pixel, with the bounds that make its four cells readable. */
  function PixelCell(width: nat, height: nat, x: int, y: int): (c: nat)
    requires 0 <= x < width && 0 <= y < height
    ensures c == PixelIndex(width, x, y) && c + 4 <= width * height * 4
  {
    PixelIndexInBounds(width, height, x, y);
    PixelIndex(width, x, y)
  }

  /** Row-major order: pixel (x1, y1) comes no later than (x2, y2), where x2 may be width (the end of row y2). */
  lemma PixelOrder(width: nat, x1: int, y1: int, x2: int, y2: int)
    requires 0 <= x1 <= width && 0 <= x2 <= width && 0 <= y1
    requires y1 < y2 || (y1 == y2 && x1 <= x2)
    ensures PixelIndex(width, x1, y1) <= PixelIndex(width, x2, y2)
  {
    if y1 < y2 {
      MulMonotone(y1 + 1, y2, width);
      assert (y1 + 1) * width == y1 * width + width;
    }
  }

  lemma PixelIndexInBounds(width: int, height: int, x: int, y: int)
    requires 0 <= x < width && 0 <= y < height
    ensures 0 <= y * width + x < width * height
    ensures 0 <= PixelIndex(width, x, y) && PixelIndex(width, x, y) + 4 <= width * height * 4
  {
    assert y * width + x < (y + 1) * width by {
      assert (y + 1) * width == y * width + width;
    }
    assert (y + 1) * width <= height * width by {
      MulMonotone(y + 1, height, width);
    }
  }

  /** The pixel number after row y is (y + 1) * width, which stays inside the image. */
  lemma RowEnd(width: nat, height: nat, y: nat)
    requires y < height
    ensures (y + 1) * width == y * width + width
    ensures y * width + width <= width * height
  {
    MulMonotone(y + 1, height, width);
  }

  lemma MulMonotone(a: int, b: int, c: int)
    requires a <= b && 0 <= c
    ensures a * c <= b * c
  {
    assert b * c - a * c == (b - a) * c;
  }

  /** Pixel number p, counted in row-major order, is pixel (p % width, p / width). */
  lemma PixelOfNumber(width: int, height: int, p: int)
    requires 0 <= p < width * height && 0 < width
    ensures 0 <= p % width < width && 0 <= p / width < height
    ensures PixelIndex(width, p % width, p / width) == 4 * p
  {
    var x, y := p % width, p / width;
    assert p == y * width + x;
    if y >= height {
      MulMonotone(height, y, width);
      assert false;
    }
  }

  /** Pixel number p = y * width + x gives back its column and row. */
  lemma PixelCoordinates(width: int, x: int, y: int)
    requires 0 <= x < width && 0 <= y
    ensures (y * width + x) % width == x && (y * width + x) / width == y
  {
    var p := y * width + x;
    var q, r := p / width, p % width;
    assert p == q * width + r;
    assert (y + 1) * width == y * width + width;
    assert (q + 1) * width == q * width + width;
    if q > y {
      MulMonotone(y + 1, q, width);
      assert false;
    } else if q < y {
      MulMonotone(q + 1, y, width);
      assert false;
    }
  }
}

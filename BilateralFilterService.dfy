/**
 * The bilateral filter service: the parameter rule, the parameter presets by
 * image size, the choice between running in a worker and running inline, and
 * the filter itself.
 */
module BilateralFilterService {
  import opened Wrappers
  import opened Raster
  import opened ProcessingModels
  import opened Bilateral
  import BilateralFilterWorker

  /**
   * JavaScript's `n % 2` on an integer: the remainder of division truncated
   * towards zero, so it takes the sign of n.
   */
  function JsRemainder2(n: int): (r: int)
    ensures -2 < r < 2
    ensures n >= 0 ==> r >= 0
    ensures n <= 0 ==> r <= 0
    ensures (n - r) % 2 == 0
  {
    if n >= 0 then n % 2 else -((-n) % 2)
  }

  /** validateParameters: positive sigmas, a positive odd kernel size, at least one iteration. */
  function ValidateParameters(params: BilateralParams): bool {
    params.sigmaSpace > 0.0 &&
    params.sigmaColor > 0.0 &&
    params.kernelSize > 0 &&
    JsRemainder2(params.kernelSize) == 1 &&
    params.iterations > 0
  }

  /**
   * The rule accepts exactly the parameters whose window, from -radius to
   * radius, is as wide as the kernel size (with positive sigmas and
   * iterations).
   */
  lemma ValidParametersWindow(params: BilateralParams)
    ensures ValidateParameters(params) <==>
      params.sigmaSpace > 0.0 && params.sigmaColor > 0.0 && params.iterations > 0 &&
      params.kernelSize >= 1 && Span(Radius(params.kernelSize)) == params.kernelSize
  {
    var k := params.kernelSize;
    if k > 0 {
      assert JsRemainder2(k) == k % 2;
      assert Span(Radius(k)) == 2 * (k / 2) + 1;
    }
  }

  /** A positive even kernel size gives a window one pixel wider than asked for. */
  lemma EvenKernelWiderWindow(kernelSize: int)
    requires kernelSize > 0 && kernelSize % 2 == 0
    ensures Span(Radius(kernelSize)) == kernelSize + 1
  {
  }

  /** Valid parameters and Math.exp give Gaussian weights: the hypothesis of the filter's lemmas. */
  lemma ValidParametersGaussian(exp: Exp, data: seq<Byte>, width: nat, height: nat, params: BilateralParams)
    requires ExpLike(exp) && ValidateParameters(params)
    ensures FilterFor(exp, data, width, height, params).GaussianWeights()
    ensures FilterFor(exp, data, width, height, params).radius >= 0
  {
  }

  /** The defaults of BilateralParams, (15, 30, 9, 1), pass the rule. */
  lemma DefaultParamsValid()
    ensures ValidateParameters(BilateralParams())
    ensures Radius(BilateralParams().kernelSize) == 4
  {
    assert JsRemainder2(9) == 1;
  }

  function PixelCount(image: ImageData): int {
    image.width * image.height
  }

  /** getOptimalParameters: smaller kernels and sigmas for larger images. */
  function GetOptimalParameters(image: ImageData): (params: BilateralParams)
    ensures ValidateParameters(params)
    ensures params.iterations == 1
    ensures params.kernelSize in {7, 9, 11}
  {
    var pixelCount := PixelCount(image);
    assert JsRemainder2(7) == 1 && JsRemainder2(9) == 1 && JsRemainder2(11) == 1;
    if pixelCount > 1000000 then BilateralParams(10.0, 25.0, 7, 1)
    else if pixelCount > 500000 then BilateralParams(12.0, 30.0, 9, 1)
    else BilateralParams(15.0, 35.0, 11, 1)
  }

  /** A larger image never gets a larger kernel or larger sigmas. */
  lemma OptimalParametersShrink(small: ImageData, large: ImageData)
    requires PixelCount(small) <= PixelCount(large)
    ensures GetOptimalParameters(large).kernelSize <= GetOptimalParameters(small).kernelSize
    ensures GetOptimalParameters(large).sigmaSpace <= GetOptimalParameters(small).sigmaSpace
    ensures GetOptimalParameters(large).sigmaColor <= GetOptimalParameters(small).sigmaColor
  {
  }

  /**
   * The three presets by pixel count: (10, 25, 7, 1) above 1000000 pixels,
   * (12, 30, 9, 1) above 500000, and (15, 35, 11, 1) otherwise.
   */
  lemma OptimalPresets(image: ImageData)
    ensures PixelCount(image) > 1000000 ==> GetOptimalParameters(image) == BilateralParams(10.0, 25.0, 7, 1)
    ensures 500000 < PixelCount(image) <= 1000000 ==> GetOptimalParameters(image) == BilateralParams(12.0, 30.0, 9, 1)
    ensures PixelCount(image) <= 500000 ==> GetOptimalParameters(image) == BilateralParams(15.0, 35.0, 11, 1)
  {
  }

  /** The preset by pixel count: 7 above 1000000 pixels, 9 above 500000, 11 otherwise. */
  lemma OptimalKernelSize(image: ImageData)
    ensures GetOptimalParameters(image).kernelSize == 7 <==> PixelCount(image) > 1000000
    ensures GetOptimalParameters(image).kernelSize == 11 <==> PixelCount(image) <= 500000
  {
  }

  /** shouldUseWebWorker: more than 262144 (512 x 512) pixels. */
  function ShouldUseWebWorker(pixelCount: int): bool {
    pixelCount > 262144
  }

  /** Images of at most 512 x 512 pixels are filtered inline, and 512 x 513 goes to the worker. */
  lemma WorkerThreshold(width: nat, height: nat)
    ensures width <= 512 && height <= 512 ==> !ShouldUseWebWorker(width * height)
    ensures ShouldUseWebWorker(512 * 513)
  {
    if width <= 512 && height <= 512 {
      MulMonotone(width, 512, height);
      MulMonotone(height, 512, 512);
    }
  }

  /**
   * bilateralFilterCore: the filter over the image's pixels, in a single pass
   * whatever `iterations` says. The final `new ImageData(output, width,
   * height)` throws when the image has no pixels.
   */
  method BilateralFilterCore(exp: Exp, image: ImageData, params: BilateralParams) returns (result: Result<ImageData>)
    requires image.Valid()
    ensures result.Err? <==> image.width == 0 || image.height == 0
    ensures result.Err? ==> result.message == EmptyImageError
    ensures result.Ok? ==> result.value.Valid()
    ensures result.Ok? ==> result.value.width == image.width && result.value.height == image.height
    ensures result.Ok? ==> result.value.data == Filtered(FilterFor(exp, image.data, image.width, image.height, params))
  {
    var output := FilterImage(FilterFor(exp, image.data, image.width, image.height, params));
    if image.width == 0 || image.height == 0 {
      return Err(EmptyImageError);
    }
    result := Ok(ImageData(image.width, image.height, output[..]));
  }

  /** The rejection of processWithWebWorker when no image is resolved within 30 seconds. */
  const WorkerTimeout := "Worker timeout"

  /**
   * processWithWebWorker on a reply that arrives: the image is posted as
   * numbers, and the reply's bytes, copied into a new Uint8ClampedArray, and
   * its dimensions become the new ImageData. When the reply has no pixels
   * that `new ImageData` throws inside the message handler, the promise is
   * never resolved, and the timeout rejects it.
   */
  method ProcessWithWebWorker(exp: Exp, image: ImageData, params: BilateralParams) returns (result: Result<ImageData>)
    requires image.Valid()
    ensures result.Err? <==> image.width == 0 || image.height == 0
    ensures result.Err? ==> result.message == WorkerTimeout
    ensures result.Ok? ==> result.value.Valid()
    ensures result.Ok? ==> result.value.width == image.width && result.value.height == image.height
    ensures result.Ok? ==> result.value.data == Filtered(FilterFor(exp, image.data, image.width, image.height, params))
  {
    var numbers := AsNumbers(image.data);
    var message := BilateralFilterWorker.WorkerMessage(
      BilateralFilterWorker.WorkerImageData(numbers, image.width, image.height), params);
    BilateralFilterWorker.BytesArriveUnchanged(image.data);
    var reply := BilateralFilterWorker.OnMessage(exp, message);
    var received := BilateralFilterWorker.ToUint8Clamped(AsNumbers(reply.data));
    BilateralFilterWorker.BytesArriveUnchanged(reply.data);
    if reply.width == 0 || reply.height == 0 {
      return Err(WorkerTimeout);
    }
    result := Ok(ImageData(reply.width, reply.height, received));
  }

  /**
   * applyFilter: rejects invalid parameters before any pixel is read;
   * otherwise large images go to the worker when one is available and the
   * rest are filtered inline, with the same result either way. An image with
   * no pixels is never large, so it is filtered inline and rejected there.
   */
  method ApplyFilter(exp: Exp, image: ImageData, params: BilateralParams, workerAvailable: bool)
    returns (result: Result<ImageData>)
    requires image.Valid()
    ensures result.Err? <==> !ValidateParameters(params) || image.width == 0 || image.height == 0
    ensures !ValidateParameters(params) ==> result == Err("Invalid bilateral filter parameters")
    ensures ValidateParameters(params) && (image.width == 0 || image.height == 0) ==> result == Err(EmptyImageError)
    ensures result.Ok? ==> result.value.Valid()
    ensures result.Ok? ==> result.value.width == image.width && result.value.height == image.height
    ensures result.Ok? ==> result.value.data == Filtered(FilterFor(exp, image.data, image.width, image.height, params))
  {
    if !ValidateParameters(params) {
      return Err("Invalid bilateral filter parameters");
    }
    var shouldUseWorker := ShouldUseWebWorker(image.width * image.height);
    if shouldUseWorker && workerAvailable {
      result := ProcessWithWebWorker(exp, image, params);
    } else {
      result := BilateralFilterCore(exp, image, params);
    }
  }

  /** With valid parameters and kernel size 1 the service returns its input unchanged. */
  lemma KernelOneIsIdentity(exp: Exp, image: ImageData, params: BilateralParams)
    requires image.Valid() && ExpLike(exp) && ValidateParameters(params) && params.kernelSize == 1
    ensures Filtered(FilterFor(exp, image.data, image.width, image.height, params)) == image.data
  {
    IdentityKernel(FilterFor(exp, image.data, image.width, image.height, params));
  }
}

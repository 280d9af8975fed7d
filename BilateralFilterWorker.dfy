/**
 * The bilateral filter's web worker: a message carries the pixels, the
 * dimensions and the parameters; the worker filters the pixels with the same
 * algorithm as the service and posts back the result with the input's width
 * and height.
 */
module BilateralFilterWorker {
  import opened Raster
  import opened ProcessingModels
  import opened Bilateral

  /** The image part of a message: the pixels as plain numbers, and the dimensions. */
  datatype WorkerImageData = WorkerImageData(data: seq<real>, width: nat, height: nat)

  datatype WorkerMessage = WorkerMessage(imageData: WorkerImageData, params: BilateralParams)

  /** The posted reply: the filtered Uint8ClampedArray, and the dimensions. */
  datatype Reply = Reply(data: seq<Byte>, width: nat, height: nat)

  /** new Uint8ClampedArray(numbers): every number is clamped and rounded to a byte. */
  function ToUint8Clamped(numbers: seq<real>): (bytes: seq<Byte>)
    ensures |bytes| == |numbers|
    ensures forall i :: 0 <= i < |numbers| ==> bytes[i] == Uint8Clamp(numbers[i])
  {
    seq(|numbers|, i requires 0 <= i < |numbers| => Uint8Clamp(numbers[i]))
  }

  /** Numbers that are already bytes, as the service sends them, arrive unchanged. */
  lemma BytesArriveUnchanged(bytes: seq<Byte>)
    ensures ToUint8Clamped(AsNumbers(bytes)) == bytes
  {
    var numbers := AsNumbers(bytes);
    forall i | 0 <= i < |bytes| ensures ToUint8Clamped(numbers)[i] == bytes[i] {
      Uint8ClampByte(bytes[i]);
    }
  }

  /**
   * bilateralFilter: a fresh output array of the input's length, every pixel
   * replaced by its weighted window average in one pass.
   */
  method BilateralFilter(exp: Exp, data: seq<Byte>, width: nat, height: nat, params: BilateralParams)
    returns (output: array<Byte>)
    requires |data| == width * height * 4
    ensures fresh(output)
    ensures output[..] == Filtered(FilterFor(exp, data, width, height, params))
  {
    output := FilterImage(FilterFor(exp, data, width, height, params));
  }

  /**
   * The message listener: converts the numbers to bytes, filters them and
   * replies with the filtered bytes and the same width and height.
   */
  method OnMessage(exp: Exp, message: WorkerMessage) returns (reply: Reply)
    requires |message.imageData.data| == message.imageData.width * message.imageData.height * 4
    ensures reply.width == message.imageData.width && reply.height == message.imageData.height
    ensures |reply.data| == |message.imageData.data|
    ensures reply.data == Filtered(FilterFor(exp, ToUint8Clamped(message.imageData.data),
      message.imageData.width, message.imageData.height, message.params))
  {
    var image := message.imageData;
    var inputData := ToUint8Clamped(image.data);
    var filteredData := BilateralFilter(exp, inputData, image.width, image.height, message.params);
    reply := Reply(filteredData[..], image.width, image.height);
  }
}

/**
 * The upload validator of the canvas service: a file is accepted when its
 * MIME type is JPEG, PNG or WebP and it is at most 5 MiB; files over 1 MiB
 * draw a performance warning either way.
 */
module CanvasService {
  import opened Wrappers

  /** The File properties the validator reads. */
  datatype File = File(name: string, size: nat, fileType: string)

  datatype Dimensions = Dimensions(width: nat, height: nat)

  datatype FileInfo = FileInfo(name: string, size: nat, fileType: string,
                               dimensions: Dimensions, hasTransparency: bool)

  datatype ValidationResult = ValidationResult(isValid: bool, errors: seq<string>,
                                               warnings: seq<string>, fileInfo: Option<FileInfo>)

  /** formatBytes, which renders a byte count for people; the model does not interpret it. */
  type FormatBytes = nat -> string

  const SupportedTypes: seq<string> := ["image/jpeg", "image/png", "image/webp"]
  const MaxFileSize: nat := 5 * 1024 * 1024
  const LargeFileSize: nat := 1024 * 1024

  const LargeFileWarning: string := "Large file size may affect performance"

  /** Array.prototype.join: the items with the separator between each two. */
  function Join(items: seq<string>, separator: string): (s: string)
    ensures items == [] ==> s == ""
    ensures |items| == 1 ==> s == items[0]
  {
    if |items| == 0 then ""
    else if |items| == 1 then items[0]
    else Join(items[..|items| - 1], separator) + separator + items[|items| - 1]
  }

  lemma SupportedTypesJoined()
    ensures Join(SupportedTypes, ", ") == "image/jpeg, image/png, image/webp"
  {
    assert SupportedTypes[..2] == ["image/jpeg", "image/png"];
    assert SupportedTypes[..2][..1] == ["image/jpeg"];
  }

  function TypeError(fileType: string): string {
    "Unsupported file type: " + fileType + ". Supported types: " + Join(SupportedTypes, ", ")
  }

  function SizeError(formatBytes: FormatBytes, size: nat): string {
    "File size (" + formatBytes(size) + ") exceeds maximum allowed size (" + formatBytes(MaxFileSize) + ")"
  }

  predicate Supported(fileType: string) {
    fileType in SupportedTypes
  }

  /** The type error names the file's type. */
  lemma TypeErrorNamesType(fileType: string)
    ensures TypeError(fileType)[..23] == "Unsupported file type: "
    ensures TypeError(fileType)[23..23 + |fileType|] == fileType
  {
  }

  /**
   * validateImageFile: one error for an unsupported type, then one for a size
   * over the maximum; one warning for a size over 1 MiB; the file is valid
   * when there is no error. The dimensions stay 0 x 0 until the image loads.
   */
  method ValidateImageFile(file: File, formatBytes: FormatBytes) returns (result: ValidationResult)
    ensures result.isValid <==> Supported(file.fileType) && file.size <= MaxFileSize
    ensures result.isValid <==> result.errors == []
    ensures |result.errors| == (if Supported(file.fileType) then 0 else 1) + (if file.size > MaxFileSize then 1 else 0)
    ensures !Supported(file.fileType) ==> result.errors[0] == TypeError(file.fileType)
    ensures file.size > MaxFileSize ==> result.errors[|result.errors| - 1] == SizeError(formatBytes, file.size)
    ensures result.warnings == if file.size > LargeFileSize then [LargeFileWarning] else []
    ensures result.fileInfo.Some?
    ensures result.fileInfo.value.name == file.name && result.fileInfo.value.size == file.size
    ensures result.fileInfo.value.fileType == file.fileType
    ensures result.fileInfo.value.dimensions == Dimensions(0, 0)
    ensures result.fileInfo.value.hasTransparency <==> file.fileType == "image/png" || file.fileType == "image/webp"
  {
    var errors: seq<string> := [];
    var warnings: seq<string> := [];

    if !(file.fileType in SupportedTypes) {
      errors := errors + [TypeError(file.fileType)];
    }
    if file.size > MaxFileSize {
      errors := errors + [SizeError(formatBytes, file.size)];
    }
    if file.size > 1024 * 1024 {
      warnings := warnings + [LargeFileWarning];
    }

    var info := FileInfo(file.name, file.size, file.fileType, Dimensions(0, 0),
                         file.fileType == "image/png" || file.fileType == "image/webp");
    result := ValidationResult(|errors| == 0, errors, warnings, Some(info));
  }
}

# embroidery-quant: a verified model of the image-processing core

embroidery-quant is a browser application. It prepares photographs for
machine embroidery in two steps: an edge-preserving bilateral filter, then
colour quantization to a small thread palette. The quantization normally
runs in a third-party library. When that library is missing, the
application runs its own fallback code.

This project is a Dafny model of the parts the repository implements itself:

- **The fallback quantizer** (`QuantizationService`, `NearestColor`,
  `PaletteGeneration`, `ErrorDiffusion`, `Dithering`):
  - a histogram palette of the most frequent exact RGB colours;
  - a first-minimum nearest-colour search;
  - per-pixel palette mapping;
  - row-major error diffusion into a copied accumulator, with the tap tables
    of each algorithm;
  - the small configuration rules `optimizeForEmbroidery` and
    `getDitheringKernel`.
- **The bilateral filter** (`Bilateral`, `BilateralFilterService`,
  `BilateralFilterWorker`). The service and the worker carry identical copies
  of the filter, so both run the one definition in `Bilateral`. The module
  also covers the parameter rule, the size-dependent presets, the choice
  between the worker and inline processing, and the guard that rejects bad
  parameters.
- **The value types** (`ProcessingModels`):
  - `Color`, with its clamping constructor, `#rrggbb` form, lazily cached
    Lab value and distance;
  - `BilateralParams`, `QuantizationConfig` and `DitheringAlgorithm`.
- **The upload validator** (`CanvasService.ValidateImageFile`).
- **Shared pieces** (`Raster`, `Wrappers`): RGBA raster indexing,
  `Uint8ClampedArray` stores, and `Option`/`Result`.

Code that updates state in place is written as methods over arrays and
classes. Each method is proved against a function that specifies its result:

- the filter's output buffer;
- the dithering accumulator;
- the error-diffusion taps;
- the histogram `Map`;
- the `Color` Lab cache.

The pure rules are functions with lemmas.

`Math.exp` and `Math.pow` cannot be modelled exactly, so they are parameters:

- **`exp`.** The filter lemmas assume only that `exp(0) = 1` and that
  `exp` is never negative.
- **`pow`.** The Lab conversion passes `pow` through without interpreting
  it.

The model follows the code where the documentation describes an idealised
pipeline. In particular:

- the fallback ditherer has neither a serpentine scan nor intensity scaling;
- Burkes, Stucki and the Sierra variants all fall through to the generic
  two-tap table;
- `iterations` is validated, but the filter always makes exactly one pass.

## Model

| member | source | states |
|---|---|---|
| Raster.Uint8Clamp | embroidery-quant/src/app/services/bilateral-filter.service.ts:149-152 | A store into a Uint8ClampedArray gives 0 for values at or below 0, 255 at or above 255, and a byte within 1/2 of the value in between. |
| Raster.Uint8ClampByte | embroidery-quant/src/app/services/quantization.service.ts:302-305 | Storing a byte value leaves it unchanged. |
| Raster.AsNumbers | embroidery-quant/src/app/services/quantization.service.ts:319 | The Float32Array copy, and the pixels posted to the worker, hold the source bytes as numbers, one per cell. |
| Raster.PixelCell | embroidery-quant/src/app/services/bilateral-filter.service.ts:108 | Pixel (x, y) starts at (y·width + x)·4, and its four cells lie inside the raster. |
| Raster.PixelOrder | embroidery-quant/src/app/services/quantization.service.ts:323-325 | Row-major order: a pixel earlier in the scan has a smaller cell index. |
| ProcessingModels.Round | embroidery-quant/src/app/models/processing.models.ts:78 | Math.round returns an integer n with −1/2 < n − v ≤ 1/2. |
| ProcessingModels.ClampRound | embroidery-quant/src/app/models/processing.models.ts:78-81 | Clamp-and-round gives 0 at or below 0 and 255 at or above 255. |
| ProcessingModels.ClampRoundNearest | embroidery-quant/src/app/models/processing.models.ts:78-81 | Inside [0, 255] the channel is the nearest integer to the argument. |
| ProcessingModels.ClampRoundByte | embroidery-quant/src/app/models/processing.models.ts:78-81 | In-range integer channels are kept exactly. |
| ProcessingModels.LabDistance | embroidery-quant/src/app/models/processing.models.ts:101-105 | The squared Lab distance is non-negative and zero for equal Lab values. |
| ProcessingModels.ColorDistance | embroidery-quant/src/app/models/processing.models.ts:97-106 | The colour distance is non-negative and zero for equal r, g, b. |
| ProcessingModels.DistanceSymmetric | embroidery-quant/src/app/models/processing.models.ts:97-106 | The colour distance is symmetric. |
| ProcessingModels.HexDigit | embroidery-quant/src/app/models/processing.models.ts:86 | toString(16) writes a lower-case hexadecimal digit. |
| ProcessingModels.Radix16 | embroidery-quant/src/app/models/processing.models.ts:86 | toString(16) of a byte has one digit below 16 and two digits from 16 to 255. |
| ProcessingModels.PadStart | embroidery-quant/src/app/models/processing.models.ts:86 | padStart reaches the target length, ends with the original string and fills the front with the filler. |
| ProcessingModels.HexComponent | embroidery-quant/src/app/models/processing.models.ts:86 | A channel becomes its high and its low hexadecimal digit, zero-padded. |
| ProcessingModels.PaddedRadix16 | embroidery-quant/src/app/models/processing.models.ts:86 | Padding the radix-16 form of a byte to two characters gives its high and low digit. |
| ProcessingModels.HexString | embroidery-quant/src/app/models/processing.models.ts:85-88 | toHex is '#' followed by two digits each for r, g and b; alpha is left out. |
| ProcessingModels.HexRoundTrip | embroidery-quant/src/app/models/processing.models.ts:85-88 | toHex has seven characters, a leading '#' and lower-case digits, and parsing it back gives r, g and b. |
| ProcessingModels.Color.constructor | embroidery-quant/src/app/models/processing.models.ts:73-83 | Each channel is clamped and rounded, alpha defaults to 255, hex is set, and no Lab value is cached. |
| ProcessingModels.Color.ToHex | embroidery-quant/src/app/models/processing.models.ts:85-88 | The hex form parses back to the colour's channels. |
| ProcessingModels.Color.ToLab | embroidery-quant/src/app/models/processing.models.ts:90-95 | toLAB returns the Lab conversion of the channels; after the call it is cached, and an existing cache entry is not recomputed. |
| ProcessingModels.ToLabTwice | embroidery-quant/src/app/models/processing.models.ts:90-95 | Two calls of toLAB return the same value. |
| ProcessingModels.Color.Distance | embroidery-quant/src/app/models/processing.models.ts:97-106 | distance fills both Lab caches and returns the distance of the two channel triples. |
| ProcessingModels.NewColor | embroidery-quant/src/app/models/processing.models.ts:77-83 | A colour built from bytes has exactly those channels and no cached Lab value. |
| ProcessingModels.NewQuantizationConfig | embroidery-quant/src/app/models/processing.models.ts:44-59 | Without an argument the configuration holds the defaults; a supplied colour count replaces the default 16. |
| ProcessingModels.SuppliedFieldsOnly | embroidery-quant/src/app/models/processing.models.ts:45-58 | The constructor takes every supplied property and keeps the default (2, FloydSteinberg, 0.05, true, 2, true, true) of every other one. |
| ProcessingModels.CopyConfig | embroidery-quant/src/app/models/processing.models.ts:54-58 | Copying a configuration through the constructor gives the same configuration. |
| NearestColor.FirstMinimumSnoc | embroidery-quant/src/app/services/quantization.service.ts:358-361 | A later entry takes over the running minimum only when strictly smaller, which keeps it the first minimum. |
| NearestColor.FirstMinimumUnique | embroidery-quant/src/app/services/quantization.service.ts:352-365 | There is only one first minimum. |
| NearestColor.Keys | embroidery-quant/src/app/services/quantization.service.ts:356-357 | The channel triples of the palette, in palette order. |
| NearestColor.Distances | embroidery-quant/src/app/services/quantization.service.ts:357 | The distance to each palette entry, in palette order. |
| NearestColor.NearestIndex | embroidery-quant/src/app/services/quantization.service.ts:353-362 | The running minimum picks an index inside the palette. |
| NearestColor.NearestIsFirstMinimum | embroidery-quant/src/app/services/quantization.service.ts:353-362 | The running minimum is the first index at minimal distance. |
| NearestColor.NearestIsClosest | embroidery-quant/src/app/services/quantization.service.ts:352-365 | The chosen entry is no farther than any entry and strictly closer than every entry before it, so ties go to the lowest index. |
| NearestColor.ExactFirstEntry | embroidery-quant/src/app/services/quantization.service.ts:354-361 | A colour with the Lab value of the first entry maps to the first entry. |
| NearestColor.FindNearestColor | embroidery-quant/src/app/services/quantization.service.ts:352-365 | findNearestColor returns null for an empty palette and otherwise the first closest entry; the Lab caches stay consistent. |
| PaletteGeneration.PixelKeys | embroidery-quant/src/app/services/quantization.service.ts:265-269 | One `r,g,b` key per pixel, in pixel order, with alpha ignored. |
| PaletteGeneration.KeyIndex | embroidery-quant/src/app/services/quantization.service.ts:271-272 | Map.has/get finds the one bucket of a key or reports that there is none. |
| PaletteGeneration.FirstAppearance | embroidery-quant/src/app/services/quantization.service.ts:265-275 | The first pixel that carries a colour. |
| PaletteGeneration.FirstAppearanceSnoc | embroidery-quant/src/app/services/quantization.service.ts:265-275 | Counting more pixels does not move a colour's first appearance. |
| PaletteGeneration.HistogramCounts | embroidery-quant/src/app/services/quantization.service.ts:263-276 | Every bucket is a distinct colour of the image with its exact pixel count, and every colour of the image has a bucket. |
| PaletteGeneration.CountStepNew | embroidery-quant/src/app/services/quantization.service.ts:273-275 | A colour seen for the first time gets a new bucket of count 1, keeping the counts exact. |
| PaletteGeneration.CountStepExisting | embroidery-quant/src/app/services/quantization.service.ts:271-272 | A colour seen before has its count incremented, keeping the counts exact. |
| PaletteGeneration.HistogramOrder | embroidery-quant/src/app/services/quantization.service.ts:263-278 | Map iteration order is the order in which colours first appear. |
| PaletteGeneration.AbsentKey | embroidery-quant/src/app/services/quantization.service.ts:271 | A colour without a bucket has not been seen. |
| PaletteGeneration.OrderStep | embroidery-quant/src/app/services/quantization.service.ts:271-275 | Counting one more pixel keeps the buckets in first-appearance order. |
| PaletteGeneration.OrderStepNew | embroidery-quant/src/app/services/quantization.service.ts:273-275 | A new bucket goes last, as its colour is the last to appear. |
| PaletteGeneration.InsertByCount | embroidery-quant/src/app/services/quantization.service.ts:279 | Insertion keeps every bucket: the result is a permutation of the input plus the inserted bucket. |
| PaletteGeneration.SortByCount | embroidery-quant/src/app/services/quantization.service.ts:278-279 | The sort is a permutation of its input. |
| PaletteGeneration.InsertOrdered | embroidery-quant/src/app/services/quantization.service.ts:279 | Inserting a bucket that appeared last into a sorted list keeps it sorted by count, with ties by first appearance. |
| PaletteGeneration.ConsOrdered | embroidery-quant/src/app/services/quantization.service.ts:279 | A bucket that precedes every element can go in front of a sorted list. |
| PaletteGeneration.InsertFrontOrdered | embroidery-quant/src/app/services/quantization.service.ts:279 | A bucket with a larger count than the head goes first. |
| PaletteGeneration.InsertAfterOrdered | embroidery-quant/src/app/services/quantization.service.ts:279 | A bucket whose count is at most the head's goes after the head. |
| PaletteGeneration.HeadPrecedes | embroidery-quant/src/app/services/quantization.service.ts:279 | In that case the head precedes everything after it. |
| PaletteGeneration.SortOrdered | embroidery-quant/src/app/services/quantization.service.ts:278-279 | The stable descending sort of buckets in first-appearance order gives non-increasing counts with ties in first-appearance order. |
| PaletteGeneration.SliceEnd | embroidery-quant/src/app/services/quantization.service.ts:280 | slice(0, end) keeps `end` items when 0 ≤ end ≤ length, everything when end ≥ length, and counts a negative end back from the length. |
| PaletteGeneration.SortedHistogram | embroidery-quant/src/app/services/quantization.service.ts:263-279 | The sorted histogram has one bucket per distinct colour, with exact counts, in count order. |
| PaletteGeneration.SortedPosition | embroidery-quant/src/app/services/quantization.service.ts:263-279 | Every colour of the image sits in the sorted histogram with its pixel count. |
| PaletteGeneration.TopBucketsContents | embroidery-quant/src/app/services/quantization.service.ts:278-281 | The palette has min(colorCount, number of distinct colours) entries for a non-negative colorCount; these are distinct colours of the image with exact counts. |
| PaletteGeneration.TopBucketsOrdered | embroidery-quant/src/app/services/quantization.service.ts:278-281 | The palette is in non-increasing count order, with ties in first-appearance order. |
| PaletteGeneration.TopBucketsMostFrequent | embroidery-quant/src/app/services/quantization.service.ts:278-281 | No colour left out is more frequent than any colour kept. |
| PaletteGeneration.LeftOutNotMoreFrequent | embroidery-quant/src/app/services/quantization.service.ts:278-281 | The same fact for one left-out colour and one kept entry. |
| PaletteGeneration.TopBucketsComplete | embroidery-quant/src/app/services/quantization.service.ts:280 | A colorCount at least the number of distinct colours keeps every colour. |
| PaletteGeneration.Buckets | embroidery-quant/src/app/services/quantization.service.ts:263-278 | Map.values() in insertion order, as (colour, count) buckets. |
| PaletteGeneration.HistogramDistinct | embroidery-quant/src/app/services/quantization.service.ts:263-276 | The histogram has no two buckets of the same colour. |
| PaletteGeneration.HistogramPrefix | embroidery-quant/src/app/services/quantization.service.ts:265-276 | One more pixel is one more counting step. |
| PaletteGeneration.CountExisting | embroidery-quant/src/app/services/quantization.service.ts:271-272 | Incrementing a stored counter bumps that colour's bucket. |
| PaletteGeneration.CountNew | embroidery-quant/src/app/services/quantization.service.ts:273-274 | Setting a new key appends a bucket of count 1. |
| PaletteGeneration.CountPixel | embroidery-quant/src/app/services/quantization.service.ts:266-275 | The loop body counts one pixel; stored Colors are kept, and a new one is a fresh Color of its key with alpha 255. |
| PaletteGeneration.CountColors | embroidery-quant/src/app/services/quantization.service.ts:259-276 | After the counting loop the Map describes the histogram of the image, and each value holds a fresh Color of its key. |
| PaletteGeneration.ColorsOf | embroidery-quant/src/app/services/quantization.service.ts:281 | `.map(item => item.color)` gives the stored Color of each bucket. |
| PaletteGeneration.SortedKeysInMap | embroidery-quant/src/app/services/quantization.service.ts:278-281 | Every sorted bucket still has its Map entry. |
| PaletteGeneration.FallbackPaletteGeneration | embroidery-quant/src/app/services/quantization.service.ts:257-285 | fallbackPaletteGeneration returns one fresh Color (alpha 255) per kept bucket, in palette order. |
| ErrorDiffusion.ErrorDistributionMatrix | embroidery-quant/src/app/services/quantization.service.ts:393-414 | Every tap points forward in row-major order, has a positive factor, and reaches at most two columns and two rows. |
| ErrorDiffusion.MatrixWeights | embroidery-quant/src/app/services/quantization.service.ts:393-414 | The taps aim at distinct offsets; the factors sum to 1 for Floyd-Steinberg and the generic table, and to 6/8 for Atkinson. |
| ErrorDiffusion.TargetCell | embroidery-quant/src/app/services/quantization.service.ts:384-385 | An in-bounds tap target starts at a pixel boundary inside the buffer. |
| ErrorDiffusion.AddTapFrame | embroidery-quant/src/app/services/quantization.service.ts:384-389 | A tap changes no cell other than the colour cells of its target. |
| ErrorDiffusion.OnlyTargetsChange | embroidery-quant/src/app/services/quantization.service.ts:380-390 | distributeError changes only the R, G and B cells of in-bounds targets, and out-of-bounds taps are dropped. |
| ErrorDiffusion.AlphaNotHit | embroidery-quant/src/app/services/quantization.service.ts:386-388 | No tap writes an alpha cell. |
| ErrorDiffusion.AlphaUnchanged | embroidery-quant/src/app/services/quantization.service.ts:386-388 | No alpha cell of the accumulator changes. |
| ErrorDiffusion.ForwardTargetLater | embroidery-quant/src/app/services/quantization.service.ts:381-385 | A forward tap lands on a later pixel. |
| ErrorDiffusion.ForwardOnly | embroidery-quant/src/app/services/quantization.service.ts:380-390 | The current pixel and every earlier pixel are left unchanged. |
| ErrorDiffusion.DistinctTargets | embroidery-quant/src/app/services/quantization.service.ts:381-385 | Taps at different offsets hit disjoint cells. |
| ErrorDiffusion.AddTapHit | embroidery-quant/src/app/services/quantization.service.ts:386-388 | An in-bounds tap adds error·factor to each colour cell of its target. |
| ErrorDiffusion.AddTapKeeps | embroidery-quant/src/app/services/quantization.service.ts:384-389 | A tap at another offset leaves the target's cells alone. |
| ErrorDiffusion.ReceiveLast | embroidery-quant/src/app/services/quantization.service.ts:380-390 | The last tap's target receives exactly its share. |
| ErrorDiffusion.TargetsReceive | embroidery-quant/src/app/services/quantization.service.ts:380-390 | Each in-bounds target receives exactly error·factor in each colour channel. |
| ErrorDiffusion.AddCells | embroidery-quant/src/app/services/quantization.service.ts:386-388 | The three in-place additions. |
| ErrorDiffusion.DistributeTap | embroidery-quant/src/app/services/quantization.service.ts:381-389 | One iteration of the tap loop, in place. |
| ErrorDiffusion.DistributeError | embroidery-quant/src/app/services/quantization.service.ts:367-391 | distributeError updates the accumulator in place to the taps of the algorithm's matrix applied in order. |
| QuantizationService.GetDitheringKernel | embroidery-quant/src/app/services/quantization.service.ts:223-236 | None maps to null; every other algorithm maps to its own name. |
| QuantizationService.KernelsDistinct | embroidery-quant/src/app/services/quantization.service.ts:223-236 | Distinct algorithms get distinct kernels. |
| QuantizationService.OptimizeForEmbroidery | embroidery-quant/src/app/services/quantization.service.ts:189-202 | The optimized configuration has method 2, serpentine on, `minHueCols` = max(2, ⌊colorCount/8⌋), and dithering intensity capped at 0.05 for at most 16 colours; `minHueColors`, colour count and algorithm are unchanged. |
| QuantizationService.OptimizeIdempotent | embroidery-quant/src/app/services/quantization.service.ts:189-202 | Optimizing twice is optimizing once. |
| QuantizationService.RowKeyBytes | embroidery-quant/src/app/services/quantization.service.ts:239 | A palette row of byte values keeps its values. |
| QuantizationService.RowColor | embroidery-quant/src/app/services/quantization.service.ts:239 | A palette row becomes a fresh Color of its clamped, rounded values with alpha 255. |
| QuantizationService.ConvertPalette | embroidery-quant/src/app/services/quantization.service.ts:238-240 | convertPalette gives one such Color per row, in order. |
| QuantizationService.SetPixel | embroidery-quant/src/app/services/quantization.service.ts:302-305 | Writing a pixel keeps the buffer's length. |
| QuantizationService.SetPixelPrefix | embroidery-quant/src/app/services/quantization.service.ts:293-306 | Writing the next pixel extends the prefix that matches the target image. |
| QuantizationService.WritePixel | embroidery-quant/src/app/services/quantization.service.ts:302-305 | The four stores of one pixel. |
| QuantizationService.NearestKey | embroidery-quant/src/app/services/quantization.service.ts:300 | The chosen colour is a palette colour. |
| QuantizationService.MappedImage | embroidery-quant/src/app/services/quantization.service.ts:287-310 | The mapped image has the input's length and is defined cell by cell. |
| QuantizationService.MappedPixelCells | embroidery-quant/src/app/services/quantization.service.ts:294-305 | A pixel's RGB is the nearest palette colour and its alpha is the source alpha. |
| QuantizationService.MappedImagePixels | embroidery-quant/src/app/services/quantization.service.ts:293-306 | Every output pixel is the nearest palette colour of its source pixel, and every alpha is copied. |
| QuantizationService.ConcatCell | embroidery-quant/src/app/services/quantization.service.ts:293-306 | A cell of two images laid end to end maps as it does in its own image. |
| QuantizationService.MappedImageConcat | embroidery-quant/src/app/services/quantization.service.ts:293-306 | Pixels are mapped independently: mapping a concatenation is concatenating the mappings. |
| QuantizationService.MapPixel | embroidery-quant/src/app/services/quantization.service.ts:293-306 | The loop body extends the mapped prefix by one pixel. |
| QuantizationService.FallbackApplyPalette | embroidery-quant/src/app/services/quantization.service.ts:287-310 | fallbackApplyPalette succeeds exactly for a non-empty image and palette, and then returns the mapped image with the input's width and height. |
| QuantizationService.FallbackQuantization | embroidery-quant/src/app/services/quantization.service.ts:242-255 | fallbackQuantization returns the fallback palette, the image mapped onto it, and the elapsed time; it fails exactly when the image or the palette is empty. |
| Dithering.ScanOf | embroidery-quant/src/app/services/quantization.service.ts:333-344 | The scan picks with findNearestColor and spreads with the algorithm's matrix. |
| Dithering.Visit | embroidery-quant/src/app/services/quantization.service.ts:325-344 | Visiting a pixel keeps the buffer sizes. |
| Dithering.DitherUpTo | embroidery-quant/src/app/services/quantization.service.ts:323-346 | The state after the first n pixels has the buffer sizes. |
| Dithering.AfterPixel | embroidery-quant/src/app/services/quantization.service.ts:323-346 | The state just after a pixel's visit has the buffer sizes. |
| Dithering.Dithered | embroidery-quant/src/app/services/quantization.service.ts:323-346 | The finished scan has the buffer sizes. |
| Dithering.DitherStep | embroidery-quant/src/app/services/quantization.service.ts:323-346 | One more step of the scan is one more visit. |
| Dithering.VisitFrame | embroidery-quant/src/app/services/quantization.service.ts:325-344 | A visit changes neither the accumulator of its own pixel and earlier pixels, nor output before its pixel, nor any alpha cell. |
| Dithering.Frozen | embroidery-quant/src/app/services/quantization.service.ts:323-346 | A visited pixel's accumulator and output never change again. |
| Dithering.AlphaKept | embroidery-quant/src/app/services/quantization.service.ts:319-344 | Alpha cells of the accumulator keep their source values. |
| Dithering.DitheredPixel | embroidery-quant/src/app/services/quantization.service.ts:325-338 | Each output pixel is the colour picked for its final accumulated value, with the source alpha. |
| Dithering.DitheredOutput | embroidery-quant/src/app/services/quantization.service.ts:332-338 | Every output pixel is a palette colour, and every output alpha is the source alpha. |
| Dithering.ErrorIsAccumulatorMinusOutput | embroidery-quant/src/app/services/quantization.service.ts:340-344 | The error spread from a pixel is its unclamped accumulated value minus its output colour, unscaled. |
| Dithering.VisitOf | embroidery-quant/src/app/services/quantization.service.ts:325-344 | The chosen colour, the written pixel and the spread error make up the visit. |
| Dithering.CellColor | embroidery-quant/src/app/services/quantization.service.ts:332 | A Color of the accumulator values is clamped and rounded. |
| Dithering.NearestForPixel | embroidery-quant/src/app/services/quantization.service.ts:327-333 | It picks the nearest palette colour of the pixel's accumulated colour. |
| Dithering.VisitPixel | embroidery-quant/src/app/services/quantization.service.ts:325-344 | The loop body performs exactly one visit in place. |
| Dithering.ScanPixel | embroidery-quant/src/app/services/quantization.service.ts:325-344 | The loop body advances the scan by one pixel. |
| Dithering.DitherRow | embroidery-quant/src/app/services/quantization.service.ts:324-345 | The inner loop advances the scan by one row. |
| Dithering.StartBuffers | embroidery-quant/src/app/services/quantization.service.ts:318-320 | The initial accumulator and the zeroed output. |
| Dithering.DitherRows | embroidery-quant/src/app/services/quantization.service.ts:323-346 | The outer loop finishes the scan. |
| Dithering.DitherImage | embroidery-quant/src/app/services/quantization.service.ts:317-349 | The scan's output buffer is the finished scan's output. |
| Dithering.FallbackDithering | embroidery-quant/src/app/services/quantization.service.ts:312-350 | None gives fallbackApplyPalette's result, any other algorithm the error-diffusion scan; it fails exactly when the image or the palette is empty. |
| Bilateral.GaussianOfLike | embroidery-quant/src/app/services/bilateral-filter.service.ts:103-135 | Built on an exp with exp(0) = 1 and no negative values, each weight factor is 1 at distance 0 and never negative. |
| Bilateral.Radius | embroidery-quant/src/app/services/bilateral-filter.service.ts:101 | ⌊kernelSize/2⌋ is the r with 2r ≤ kernelSize < 2r + 2. |
| Bilateral.FilterFor | embroidery-quant/src/app/services/bilateral-filter.service.ts:99-104 | The filter for a parameter set uses the image and radius ⌊kernelSize/2⌋, and has Gaussian weights when both sigmas are non-zero. |
| Bilateral.SquareIsProduct | embroidery-quant/src/app/services/bilateral-filter.service.ts:129-134 | The square built from odd numbers is d·d. |
| Bilateral.DistancesAreSquares | embroidery-quant/src/app/services/bilateral-filter.service.ts:129-134 | The spatial distance is kx² + ky², and the colour distance is the sum of the squared RGB differences. |
| Bilateral.Filtered | embroidery-quant/src/app/services/bilateral-filter.service.ts:100-162 | The output has the input's length, and each cell is a channel of its pixel's filtered value. |
| Bilateral.CellOfPixel | embroidery-quant/src/app/services/bilateral-filter.service.ts:108-157 | Cell (y·width + x)·4 + c of the output is channel c of pixel (x, y). |
| Bilateral.CellChannel | embroidery-quant/src/app/services/bilateral-filter.service.ts:108-112 | An input cell is the matching channel of its pixel. |
| Bilateral.WeightNonNegative | embroidery-quant/src/app/services/bilateral-filter.service.ts:137 | No weight is negative. |
| Bilateral.CentreWeight | embroidery-quant/src/app/services/bilateral-filter.service.ts:129-137 | The centre weighs exactly exp(0)·exp(0) = 1. |
| Bilateral.ContributionNonNegative | embroidery-quant/src/app/services/bilateral-filter.service.ts:122-143 | No offset adds a negative weight. |
| Bilateral.CentreContribution | embroidery-quant/src/app/services/bilateral-filter.service.ts:122-143 | Offset (0, 0) adds the centre pixel with weight 1. |
| Bilateral.CentreSums | embroidery-quant/src/app/services/bilateral-filter.service.ts:114-146 | With radius 0 the sums are the centre pixel with weight 1. |
| Bilateral.IdentityPixel | embroidery-quant/src/app/services/bilateral-filter.service.ts:101-152 | With radius 0 each output pixel is its input pixel. |
| Bilateral.IdentityKernel | embroidery-quant/src/app/services/bilateral-filter.service.ts:101-158 | kernelSize 1 returns the input unchanged. |
| Bilateral.RowWeight | embroidery-quant/src/app/services/bilateral-filter.service.ts:118-144 | A window row's weight sum is non-negative, and at least 1 for the centre row. |
| Bilateral.WindowWeight | embroidery-quant/src/app/services/bilateral-filter.service.ts:117-146 | The window's weight sum is non-negative, and at least 1 once the centre row is in. |
| Bilateral.WeightSumPositive | embroidery-quant/src/app/services/bilateral-filter.service.ts:114-148 | The weight sum is positive exactly when the radius is non-negative, and then at least 1. |
| Bilateral.FallbackCopiesCentre | embroidery-quant/src/app/services/bilateral-filter.service.ts:148-158 | With an empty window the sums are zero and the centre pixel is copied. |
| Bilateral.WeightedBetween | embroidery-quant/src/app/services/bilateral-filter.service.ts:137-143 | A channel of a neighbour in [lo, hi] adds between lo and hi times its weight. |
| Bilateral.ContributionBetween | embroidery-quant/src/app/services/bilateral-filter.service.ts:122-143 | Each offset keeps the channel sum between lo and hi times the weight sum. |
| Bilateral.NeighbourBetween | embroidery-quant/src/app/services/bilateral-filter.service.ts:122-143 | The same for an offset inside the image. |
| Bilateral.RowBetween | embroidery-quant/src/app/services/bilateral-filter.service.ts:118-144 | A window row keeps the channel sum within the bounds times the weight. |
| Bilateral.WindowSumsBetween | embroidery-quant/src/app/services/bilateral-filter.service.ts:117-146 | The whole window keeps the channel sum within the bounds times the weight. |
| Bilateral.AverageBetween | embroidery-quant/src/app/services/bilateral-filter.service.ts:148-152 | The rounded average of such sums lies in [lo, hi]. |
| Bilateral.FilteredBetween | embroidery-quant/src/app/services/bilateral-filter.service.ts:137-152 | Each output channel lies between the smallest and the largest value of that channel in the window. |
| Bilateral.ContributionLocal | embroidery-quant/src/app/services/bilateral-filter.service.ts:119-122 | An offset's contribution depends only on pixels inside the window and the image. |
| Bilateral.NeighbourLocal | embroidery-quant/src/app/services/bilateral-filter.service.ts:119-143 | The same for an offset inside the image. |
| Bilateral.RowLocal | embroidery-quant/src/app/services/bilateral-filter.service.ts:118-144 | A window row's sums depend only on the window. |
| Bilateral.WindowLocal | embroidery-quant/src/app/services/bilateral-filter.service.ts:117-146 | The window's sums depend only on the window. |
| Bilateral.FilteredLocal | embroidery-quant/src/app/services/bilateral-filter.service.ts:117-158 | An output pixel depends only on in-bounds pixels of its window; out-of-image offsets are skipped, never padded or wrapped. |
| Bilateral.AddNeighbour | embroidery-quant/src/app/services/bilateral-filter.service.ts:119-144 | The loop body adds the neighbour's weight and weighted channels when the neighbour is inside the image, and adds nothing otherwise. |
| Bilateral.WindowLoop | embroidery-quant/src/app/services/bilateral-filter.service.ts:114-146 | The two inner loops compute the window sums. |
| Bilateral.WriteRgba | embroidery-quant/src/app/services/bilateral-filter.service.ts:149-157 | The four stores change exactly the pixel's four cells. |
| Bilateral.FilterPixel | embroidery-quant/src/app/services/bilateral-filter.service.ts:108-158 | One pixel's four output cells receive its filtered value, and nothing else changes. |
| Bilateral.WritePrefix | embroidery-quant/src/app/services/bilateral-filter.service.ts:106-160 | Writing pixel n extends the filtered prefix to n + 1 pixels. |
| Bilateral.PixelCells | embroidery-quant/src/app/services/bilateral-filter.service.ts:108-157 | Pixel n fills cells 4n to 4n + 3 of the filtered image. |
| Bilateral.PrefixGrows | embroidery-quant/src/app/services/bilateral-filter.service.ts:106-160 | Matching one more pixel extends a matching prefix. |
| Bilateral.FilterRow | embroidery-quant/src/app/services/bilateral-filter.service.ts:107-159 | The x loop filters one more row. |
| Bilateral.FilterImage | embroidery-quant/src/app/services/bilateral-filter.service.ts:98-163 | The loops fill a fresh buffer with exactly the filtered image, in one pass. |
| BilateralFilterWorker.ToUint8Clamped | embroidery-quant/src/app/workers/bilateral-filter.worker.ts:25 | The received numbers are clamped and rounded to bytes, one per number. |
| BilateralFilterWorker.BytesArriveUnchanged | embroidery-quant/src/app/workers/bilateral-filter.worker.ts:25 | Pixels posted as bytes arrive unchanged. |
| BilateralFilterWorker.BilateralFilter | embroidery-quant/src/app/workers/bilateral-filter.worker.ts:38-107 | The worker's copy computes the same filtered image as the service core, into a fresh array of the input's length. |
| BilateralFilterWorker.OnMessage | embroidery-quant/src/app/workers/bilateral-filter.worker.ts:21-32 | The reply holds the filtered pixels, as many as were sent, and echoes the input width and height. |
| BilateralFilterService.JsRemainder2 | embroidery-quant/src/app/services/bilateral-filter.service.ts:40 | `n % 2` is −1, 0 or 1, takes the sign of n, and leaves an even difference. |
| BilateralFilterService.ValidParametersWindow | embroidery-quant/src/app/services/bilateral-filter.service.ts:36-42 | validateParameters holds exactly when both sigmas and iterations are positive and the kernel size is positive and odd, that is, when the window from −radius to radius is exactly kernelSize wide. |
| BilateralFilterService.EvenKernelWiderWindow | embroidery-quant/src/app/services/bilateral-filter.service.ts:101-118 | A positive even kernel size, which the rule rejects, would give a window one pixel wider. |
| BilateralFilterService.ValidParametersGaussian | embroidery-quant/src/app/services/bilateral-filter.service.ts:36-42 | Valid parameters give Gaussian weights and a non-negative radius, which the filter lemmas assume. |
| BilateralFilterService.DefaultParamsValid | embroidery-quant/src/app/models/processing.models.ts:1-17 | The BilateralParams defaults (15, 30, 9, 1) pass the rule, with radius 4. |
| BilateralFilterService.GetOptimalParameters | embroidery-quant/src/app/services/bilateral-filter.service.ts:44-54 | Every preset passes the rule, has one iteration, and has kernel size 7, 9 or 11. |
| BilateralFilterService.OptimalPresets | embroidery-quant/src/app/services/bilateral-filter.service.ts:44-54 | The preset is exactly (10, 25, 7, 1) above 1,000,000 pixels, (12, 30, 9, 1) above 500,000, and (15, 35, 11, 1) otherwise. |
| BilateralFilterService.OptimalKernelSize | embroidery-quant/src/app/services/bilateral-filter.service.ts:44-54 | Kernel 7 exactly above 1,000,000 pixels, and kernel 11 exactly at or below 500,000. |
| BilateralFilterService.OptimalParametersShrink | embroidery-quant/src/app/services/bilateral-filter.service.ts:44-54 | A larger image never gets a larger kernel or larger sigmas. |
| BilateralFilterService.WorkerThreshold | embroidery-quant/src/app/services/bilateral-filter.service.ts:188-190 | Images up to 512×512 are filtered inline, and 512×513 goes to the worker. |
| BilateralFilterService.BilateralFilterCore | embroidery-quant/src/app/services/bilateral-filter.service.ts:98-163 | bilateralFilterCore fails with the `new ImageData` error exactly when the image has a zero width or height; otherwise it returns the filtered image with the input's width and height, in a single pass whatever `iterations` says. |
| BilateralFilterService.ProcessWithWebWorker | embroidery-quant/src/app/services/bilateral-filter.service.ts:63-84 | The reply's bytes, copied into a new Uint8ClampedArray, are the inline filter's output, with the input's width and height; a reply with no pixels makes `new ImageData` throw, so the promise ends in the timeout's rejection. |
| BilateralFilterService.ApplyFilter | embroidery-quant/src/app/services/bilateral-filter.service.ts:9-21 | applyFilter fails with "Invalid bilateral filter parameters" when the rule rejects the parameters, and otherwise with the `new ImageData` error exactly when the image has a zero width or height; every other call returns the filtered image with the input's width and height on both routes. |
| BilateralFilterService.KernelOneIsIdentity | embroidery-quant/src/app/services/bilateral-filter.service.ts:36-158 | With valid parameters and kernel size 1, the filter returns its input. |
| CanvasService.Join | embroidery-quant/src/app/services/canvas.service.ts:155 | join gives "" for no items and the item itself for one. |
| CanvasService.SupportedTypesJoined | embroidery-quant/src/app/services/canvas.service.ts:150-155 | The supported types join to "image/jpeg, image/png, image/webp". |
| CanvasService.TypeErrorNamesType | embroidery-quant/src/app/services/canvas.service.ts:155 | The type error names the rejected type. |
| CanvasService.ValidateImageFile | embroidery-quant/src/app/services/canvas.service.ts:146-178 | A file is valid exactly when its type is JPEG, PNG or WebP and its size is at most 5 MiB, which is exactly when there are no errors. There are at most two errors, the type error before the size error. There is one warning exactly when the size is over 1 MiB, whatever the validity. fileInfo copies name, size and type, reports 0×0 dimensions, and reports transparency exactly for PNG and WebP. |

## Left out

- Floating point: the Float32Array accumulator, the filter's sums and `Math.round` work on exact reals. NaN and infinities do not arise in the model.
- `Math.exp`, `Math.pow` and `Math.sqrt` are not interpreted:
  - the filter's exp is a parameter;
  - `rgbToLab`'s pow is a parameter;
  - `distance` is the squared Lab distance. The square root is monotone, so every comparison the code makes has the same outcome.
- Bilateral.GaussianOf: computes `exp(-dist / (2·sigma) / sigma)`, which equals `exp(-dist / (2·sigma²))`. A zero sigma yields weight 0 rather than the NaN the code would compute. The service rejects a zero sigma before filtering; the worker does not check.
- Bilateral.ColorDist: `Math.pow(d, 2)` is taken as the exact square d·d. Squares are built up from odd numbers, and SquareIsProduct proves the result equals d·d.
- BilateralFilterService.ValidateParameters: sigmas and kernel sizes that are not integers are not modelled. The kernel size is an `int`, the sigmas are reals.
- BilateralFilterWorker.OnMessage: the `catch` branch that posts an error message is not modelled. The filter throws nothing on valid input, and the message is required to hold width·height·4 numbers.
- BilateralFilterService.ProcessWithWebWorker: `onerror` and `terminate` are left out, and the 30-second timeout is modelled only as the rejection that follows a reply `new ImageData` cannot take; a reply that never arrives is not modelled. The worker's availability (`typeof Worker`) is the `workerAvailable` parameter of ApplyFilter.
- `generatePreview` and `scaleImageData` are not modelled: they resample through DOM canvases.
- The third-party quantizer paths are not modelled: `quantizeImage`, `generatePalette`, `applyCustomPalette`, `applyDithering` and `buildRgbQuantOptions`, including the serpentine and intensity options.
- `getEmbroideryPresets` is data only and is not modelled.
- ProcessingModels.NewQuantizationConfig and ProcessingModels.SuppliedFieldsOnly: a property supplied as `undefined` is not modelled. `Object.assign` would copy it over the default; the model's `Option` keeps the default. `colorCount` is an `int`, so a fractional count, as seen by `Math.floor(colorCount / 8)` and `slice(0, colorCount)`, is not modelled either.
- QuantizationService.FallbackQuantization: `performance.now()` is two parameters.
- QuantizationService.FallbackApplyPalette and Dithering.FallbackDithering: with an empty palette the code throws at the first pixel, reading a channel of the missing nearest colour. The model reports that failure up front, before any write. A zero-sized `new ImageData` also throws and is modelled as a failure.
- CanvasService.ValidateImageFile: `formatBytes` is a parameter; its `Math.log`/`toFixed` formatting is not modelled. The unused `maxDimensions` constant has no effect.
- `getImageDimensions` and the other canvas, blob and URL helpers are not modelled.
- Concurrency and Angular plumbing (promises, injection, components) are not modelled.

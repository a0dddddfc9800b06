# SmartColorizer buffer pipeline in Dafny

This project models the numeric buffer pipeline of SmartColorizer, an iOS app. The app colorizes a photograph with a CoreML model. The model covers the helper functions in `SmartColorizer/ContentView.swift` that move pixels between buffers:

- **Tensor encoder** (`MLMultiArray.fromPixelBuffer`): an interleaved 32-bit BGRA pixel buffer becomes a planar `[1, 3, H, W]` multi-array. It holds the R plane, then the G plane, then the B plane, each byte divided by 255. The multi-array is a class (`Tensors.MultiArray`) whose element storage the nested `y`/`x` loops fill in place.
- **Chrominance intake** (`multiArrayToUIImage`): the shape guard on the model's output, and the loop that copies its first 2·256·256 elements into `abData`.
- **LAB assembly** (`convertABtoRGB`):
  - the size guard;
  - lightness `L = gray / 255 * 100`;
  - the parity clamps `aNormalized` and `bNormalized`;
  - the stride-3 interleave into `labData`;
  - the loop that swaps bytes 0 and 2 of every pixel.
- **Per-pixel conversion** (`convertLABtoRGB`): CIE 1976 L\*a\*b\* to XYZ, XYZ to linear sRGB, the sRGB transfer function of IEC 61966-2-1, a clamp to [0, 1], `UInt8(c * 255)`, and alpha 255.

Swift `Float` is modelled as `real` and `UInt8` as the subset type `Byte`. The cube `pow(f, 3)` in the L\*a\*b\* inverse is exact in the model: it is the whole-number power `LabToRgb.Pow(f, 3)`. `pow(c, 1 / 2.4)` is transcendental, so it is a parameter `root`. Swift's Float-to-`UInt8` conversion truncates toward zero and traps outside (-1, 256). `LabToRgb.UInt8Of` models that trap as its precondition, and every use of it is proved to meet that precondition.

Modules, one per stage: `Common` (Byte, Result, Clamp), `Tensors`, `ChromaIntake`, `LabAssembly`, `LabToRgb`, `RgbaSwap`, `Colorizer` (the two composed helpers).

## Behaviour as written

The model follows the code. Where the code departs from the pipeline's design intent, the model keeps the code's behaviour and proves what that behaviour is:

- **Planar data read as pairs.** The chrominance tensor is planar (the a plane, then the b plane), but `convertABtoRGB` clamps by index parity and takes pixel i's a and b from elements 2i and 2i+1. `LabAssembly.PlanarChromaMisread` proves the consequence. In the first half of the image both values come from the a plane; in the second half both come from the b plane.
- **No-op white point.** Each D65 line multiplies and divides by the same constant (`WhitePointScaled` ensures the result is the input). `LabToRgb.NeutralInputIsTinted` proves the consequence: a neutral sample (a = b = 0) with positive lightness gives linear red > green > blue. Whether that tint survives quantization depends on the gray level. Gray bytes 0 and 1 still come out as equal color bytes: `[0, 0, 0]` and `[1, 1, 1]` (`LabToRgb.BlackStaysBlack`, `LabToRgb.GrayOneStaysGray`). Gray byte 2 already comes out as red 3, green 2, blue 2 (`LabToRgb.GrayTwoIsTinted`). For brighter levels the bytes depend on `pow`, so only the linear ordering is proved.
- **Red and blue exchanged.** `convertLABtoRGB` already writes red at byte 0. The "BGRA to RGBA" swap then moves blue into byte 0 (`Colorizer.ColorizedPixel`).
- **Truncation, not rounding.** `UInt8(c * 255)` takes the floor of the clamped value (`LabToRgb.Quantize`).
- **Dimension 0 is not checked.** The shape guard accepts `[d0, 2, 256, 256]` for any d0. With d0 = 0 the array is empty, so the copy's first subscript faults; the model returns `ReadOutOfBounds` there.
- **No zero-size check.** `fromPixelBuffer` does not reject a buffer with zero width or height; it yields an empty tensor.

## Model

| member | source | states |
|---|---|---|
| `Common.Clamp` | SmartColorizer/ContentView.swift:258 | `max(lo, min(v, hi))` lies in [lo, hi]: it is v inside the range and the nearer bound outside it |
| `Tensors.Plane` | SmartColorizer/ContentView.swift:481-483 | one channel plane of n pixels: each element lies in [0, 1] and times 255 equals the byte at that channel's offset in its 4-byte pixel |
| `Tensors.PackedPlacesEachPixel` | SmartColorizer/ContentView.swift:475-489 | for pixel p of n, the tensor has length 3n and holds byte 4p+2 / 255 at p, byte 4p+1 / 255 at n+p and byte 4p / 255 at 2n+p |
| `Tensors.PackedInUnitRange` | SmartColorizer/ContentView.swift:481-488 | every element of the packed tensor lies in [0, 1] |
| `Tensors.RowMajorBound` | SmartColorizer/ContentView.swift:478 | for y < H and x < W, the pixel index y·W + x is below W·H, and a full row ends at or before W·H |
| `Tensors.TensorIndexInjective` | SmartColorizer/ContentView.swift:486-488 | the three stores of different (channel, y, x) triples never hit the same index, so no element is written twice |
| `Tensors.TensorIndexCovers` | SmartColorizer/ContentView.swift:475-488 | every index in [0, 3·W·H) is written by some (channel, y, x) of the loops |
| `Tensors.StorePixel` | SmartColorizer/ContentView.swift:486-488 | the three stores put r at p, g at n+p and b at 2n+p, leave every other element unchanged, and extend the packed prefix by one pixel |
| `Tensors.PackPixels` | SmartColorizer/ContentView.swift:475-490 | the nested `y`/`x` loops leave the storage equal to the packed R, G and B planes of the pixel bytes |
| `Tensors.MultiArray.constructor` | SmartColorizer/ContentView.swift:468-469 | a fresh multi-array of the given shape whose storage holds exactly the product of the dimensions |
| `Tensors.MultiArray.FromPixelBuffer` | SmartColorizer/ContentView.swift:452-493 | a missing base address gives an error; otherwise a fresh `[1, 3, H, W]` array whose elements are exactly the packed R, G and B planes of the buffer |
| `ChromaIntake.ValidChromaShape` | SmartColorizer/ContentView.swift:189 | a shape passes the guard exactly when it is `[d0, 2, 256, 256]`, for any d0 |
| `ChromaIntake.AcceptedShapeCount` | SmartColorizer/ContentView.swift:189-201 | an accepted shape `[d0, 2, 256, 256]` holds d0·2·256·256 elements, so the copy stays in bounds exactly when d0 > 0 |
| `ChromaIntake.ExtractChroma` | SmartColorizer/ContentView.swift:185-201 | succeeds if and only if the shape has 4 dims with dims 1..3 = 2, 256, 256 and a non-empty dim 0; otherwise InvalidShape, or ReadOutOfBounds when d0 = 0; on success it returns the first 2·256·256 elements in order |
| `LabAssembly.LightnessPlane` | SmartColorizer/ContentView.swift:237-239 | n lightness values, each in [0, 100] and proportional to its gray byte (L·255 = gray·100) |
| `LabAssembly.ParityClamp` | SmartColorizer/ContentView.swift:257-262 | keeps the length; clamps every index of the chosen parity into [-100, 100] (unchanged inside, the bound outside) and leaves the other indices untouched |
| `LabAssembly.ParityClampIdempotent` | SmartColorizer/ContentView.swift:257-262 | applying `aNormalized`'s or `bNormalized`'s clamp a second time changes nothing |
| `LabAssembly.InterleavedAt` | SmartColorizer/ContentView.swift:265-270 | `labData[3i]` = L[i], `labData[3i+1]` = aNormalized[2i], `labData[3i+2]` = bNormalized[2i+1] |
| `LabAssembly.AssembleLab` | SmartColorizer/ContentView.swift:265-270 | the loop builds exactly the stride-3 interleave of length 3·pixelCount |
| `LabAssembly.LabSamples` | SmartColorizer/ContentView.swift:237-270 | pixel i's LAB sample has L in [0, 100] scaled from gray[i], and a, b equal to ab[2i], ab[2i+1] clamped to [-100, 100] |
| `LabAssembly.PlanarChromaMisread` | SmartColorizer/ContentView.swift:257-269 | on a planar a-then-b buffer, pixel i takes both a and b from the a plane when 2i+1 < n, and both from the b plane when 2i ≥ n |
| `LabToRgb.CubeIsProduct` | SmartColorizer/ContentView.swift:343-345 | `pow(f, 3)`, written as the whole-number power `Pow(f, 3)`, equals f · f · f |
| `LabToRgb.CubeBelowThreshold` | SmartColorizer/ContentView.swift:347-349 | for f in [0, 0.15] the cube stays at or below 0.008856, so the linear branch is taken |
| `LabToRgb.InverseCompandSign` | SmartColorizer/ContentView.swift:343-349 | the companding inverse is positive exactly when f exceeds 16/116, the f of zero lightness |
| `LabToRgb.WhitePointScaled` | SmartColorizer/ContentView.swift:352-354 | multiplying and dividing by the white-point constant returns the value unchanged |
| `LabToRgb.LabToXyzSigns` | SmartColorizer/ContentView.swift:339-354 | positive lightness gives positive Y, zero lightness gives zero Y, and a neutral sample gives X = Y = Z |
| `LabToRgb.XyzToLinearRgbScales` | SmartColorizer/ContentView.swift:362-364 | the XYZ to linear sRGB step is linear: scaling X, Y and Z scales red, green and blue alike |
| `LabToRgb.XyzToLinearRgbOfEqual` | SmartColorizer/ContentView.swift:362-364 | equal positive X, Y, Z give linear red > green > blue > 0, and zero gives black |
| `LabToRgb.GammaEncodeRanges` | SmartColorizer/ContentView.swift:367-369 | non-positive input stays non-positive; the linear segment maps [0, 0.0031308] into [0, 0.04045] and keeps order; input whose `pow` reaches 1 encodes to at least 1 |
| `LabToRgb.UInt8Of` | SmartColorizer/ContentView.swift:382-384 | for -1 < v < 256 the conversion yields a byte: the floor of v when v ≥ 0, and 0 for negative v |
| `LabToRgb.Quantize` | SmartColorizer/ContentView.swift:372-384 | the clamp to [0, 1] makes `UInt8(c * 255)` safe; the result is the floor of c·255 for c in [0, 1], 0 for c ≤ 0 and 255 for c ≥ 1 |
| `LabToRgb.RgbBufferAt` | SmartColorizer/ContentView.swift:381-385 | byte 4i+c of the buffer is byte c of pixel i's conversion |
| `LabToRgb.RgbBufferOfPixels` | SmartColorizer/ContentView.swift:331-386 | any buffer of 4·n bytes whose every pixel holds its sample's four converted bytes is the `rgbData` buffer |
| `LabToRgb.ConvertPixel` | SmartColorizer/ContentView.swift:334-385 | one iteration's red, green and blue bytes, with alpha 255, are exactly the pixel's conversion |
| `LabToRgb.RgbBufferLayout` | SmartColorizer/ContentView.swift:331-385 | pixel i's bytes are the quantized encoded red, green and blue of LAB sample i, then alpha 255 |
| `LabToRgb.ConvertLabToRgb` | SmartColorizer/ContentView.swift:329-389 | the loop always yields the buffer of 4·pixelCount bytes described by `RgbBufferLayout` |
| `LabToRgb.NeutralInputIsTinted` | SmartColorizer/ContentView.swift:339-364 | with the no-op white point, a = b = 0 and L > 0 give linear red > green > blue > 0 |
| `LabToRgb.DarkNeutralSample` | SmartColorizer/ContentView.swift:339-369 | a neutral sample with L in [0, 1] stays on both linear segments: each channel is 12.92 times its matrix row sum times L / (116 · 7.787) |
| `LabToRgb.BlackStaysBlack` | SmartColorizer/ContentView.swift:339-385 | L = 0 with a = b = 0 gives the bytes 0, 0, 0, 255 |
| `LabToRgb.GrayOneStaysGray` | SmartColorizer/ContentView.swift:339-385 | gray byte 1 (L = 100/255, a = b = 0) gives the bytes 1, 1, 1, 255 for any `pow` |
| `LabToRgb.GrayTwoIsTinted` | SmartColorizer/ContentView.swift:339-385 | gray byte 2 (L = 200/255, a = b = 0) gives the bytes 3, 2, 2, 255 for any `pow` |
| `RgbaSwap.SwappedAt` | SmartColorizer/ContentView.swift:283-287 | `rgba[4i]` = `rgb[4i+2]`, `rgba[4i+1]` = `rgb[4i+1]`, `rgba[4i+2]` = `rgb[4i]`, `rgba[4i+3]` = `rgb[4i+3]` |
| `RgbaSwap.SwappedInvolutive` | SmartColorizer/ContentView.swift:282-288 | swapping twice returns the original buffer |
| `RgbaSwap.SwapRedBlue` | SmartColorizer/ContentView.swift:282-288 | the loop builds exactly the swapped buffer, of the same length |
| `Colorizer.ColorizedPixel` | SmartColorizer/ContentView.swift:237-288 | output pixel i holds the converted (L[i], clamped ab[2i], clamped ab[2i+1]): blue at byte 0, green at 1, red at 2, alpha 255 at 3 |
| `Colorizer.ColorizedOpaque` | SmartColorizer/ContentView.swift:385-387 | every output pixel's alpha byte is 255 |
| `Colorizer.AChromaSaturates` | SmartColorizer/ContentView.swift:257-269 | an a value beyond ±100 (say a = 500), whatever b is, gives pixel i the blue, green and red bytes of the sample with a at the nearer limit |
| `Colorizer.BChromaSaturates` | SmartColorizer/ContentView.swift:257-269 | a b value beyond ±100, whatever a is, gives pixel i the blue, green and red bytes of the sample with b at the nearer limit |
| `Colorizer.ConvertABToRGB` | SmartColorizer/ContentView.swift:213-288 | InvalidABSize exactly when `abData.count != width·height·2`; GrayscaleUnavailable without a gray raster; otherwise the swapped RGBA buffer of the converted samples |
| `Colorizer.MultiArrayToImage` | SmartColorizer/ContentView.swift:185-207 | succeeds exactly for an accepted, non-empty shape with a gray raster, with the error of the first guard that fails otherwise; the result is `convertABtoRGB` at 256 × 256 on the copied elements |

## Left out

- The SwiftUI view, camera picker, app entry point and `@State` flags: user interface and lifecycle code.
- `loadModel` and `model.prediction`: CoreML calls. The model's output is the `MultiArray` passed to `MultiArrayToImage`.
- The `DispatchQueue` hops and the `isCancelled` check: their point is concurrency between the main thread and a background queue.
- `UIImage.resized`, `toCVPixelBuffer` and the grayscale `CGContext` drawing: Core Graphics and Core Video calls whose behaviour is not visible. Their byte buffers are inputs: `PixelBuffer.base` and the `gray` raster, with None for their nil results.
- The `CGImage`/`CGDataProvider` construction at the end of `convertABtoRGB`: the model returns the RGBA bytes handed to it, and does not model a failure of `CGImage(...)`.
- `pow(c, 1 / 2.4)`: transcendental, so it is the parameter `root`. Float rounding is not modelled; all arithmetic is exact over reals. Over reals the white-point lines are an exact identity. In `Float` they can differ from the input by a rounding step.
- NaN: `min`/`max` on NaN and a NaN reaching `UInt8(...)` are not modelled.
- The debug `print`s and the min/max scans: they do not affect results.
- `ConvertABToRGB`: omits the debug prints at lines 242 and 279. Those slice the first 10 L values and the first 40 RGB bytes, and would fault for fewer than 10 pixels. The only caller passes 256 × 256, where they cannot fault.
- `Tensors.MultiArray.FromPixelBuffer`: requires rows exactly 4·W bytes apart, as the loop's indexing presumes. A pixel buffer with padded rows (bytesPerRow > 4·W) would make the app read skewed rows, and that case is not modelled. A failure of the `MLMultiArray(shape:dataType:)` initializer is not modelled either.

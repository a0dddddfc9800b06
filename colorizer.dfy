/** Color reconstruction as the app runs it: `convertABtoRGB` (size guard,
    lightness, parity clamps, LAB interleave, per-pixel conversion, byte swap)
    and `multiArrayToUIImage` (shape guard and copy, then `convertABtoRGB`
    at 256 x 256). The gray raster the app draws with Core Graphics is an
    input; None stands for a missing CGImage or context. */
module Colorizer {
  import opened Common
  import opened Tensors
  import opened ChromaIntake
  import opened LabAssembly
  import opened LabToRgb
  import opened RgbaSwap

  /** The RGBA bytes `convertABtoRGB` hands to Core Graphics for n pixels. */
  function Colorized(abData: seq<real>, gray: seq<Byte>, n: nat, root: real -> real): (rgba: seq<Byte>)
    requires |abData| == 2 * n && n <= |gray|
    ensures |rgba| == 4 * n
  {
    var lab := Interleaved(LightnessPlane(gray, n), ANormalized(abData), BNormalized(abData), n);
    Swapped(RgbBuffer(lab, n, root))
  }

  /** Output pixel i: LAB sample (gray[i] scaled to 0..100, ab[2i] and
      ab[2i + 1] clamped to [-100, 100]) is converted; byte 0 carries its
      blue, byte 1 its green, byte 2 its red, byte 3 is 255. */
  lemma ColorizedPixel(abData: seq<real>, gray: seq<Byte>, n: nat, root: real -> real, i: nat)
    requires |abData| == 2 * n && n <= |gray| && i < n
    ensures var e := EncodedRgb(LightnessPlane(gray, n)[i],
                                Clamp(abData[2 * i], -ChromaLimit, ChromaLimit),
                                Clamp(abData[2 * i + 1], -ChromaLimit, ChromaLimit), root);
      && Colorized(abData, gray, n, root)[4 * i] == Quantize(e.blue)
      && Colorized(abData, gray, n, root)[4 * i + 1] == Quantize(e.green)
      && Colorized(abData, gray, n, root)[4 * i + 2] == Quantize(e.red)
      && Colorized(abData, gray, n, root)[4 * i + 3] == 255
  {
    var lc := LightnessPlane(gray, n);
    var lab := Interleaved(lc, ANormalized(abData), BNormalized(abData), n);
    var l, a, b := lc[i], Clamp(abData[2 * i], -ChromaLimit, ChromaLimit), Clamp(abData[2 * i + 1], -ChromaLimit, ChromaLimit);
    LabSamples(gray, abData, n, i);
    InterleavedAt(lc, ANormalized(abData), BNormalized(abData), n, i);
    assert lab[3 * i] == l && lab[3 * i + 1] == a && lab[3 * i + 2] == b;
    var rgb := RgbBuffer(lab, n, root);
    RgbBufferLayout(lab, n, root, i);
    var e := EncodedRgb(l, a, b, root);
    assert rgb[4 * i] == Quantize(e.red) && rgb[4 * i + 1] == Quantize(e.green) && rgb[4 * i + 2] == Quantize(e.blue) && rgb[4 * i + 3] == 255;
    WholePixels(n);
    SwappedAt(rgb, i);
  }

  /** Every output pixel is fully opaque. */
  lemma ColorizedOpaque(abData: seq<real>, gray: seq<Byte>, n: nat, root: real -> real)
    requires |abData| == 2 * n && n <= |gray|
    ensures forall i :: 0 <= i < n ==> Colorized(abData, gray, n, root)[4 * i + 3] == 255
  {
    forall i | 0 <= i < n
      ensures Colorized(abData, gray, n, root)[4 * i + 3] == 255
    {
      ColorizedPixel(abData, gray, n, root, i);
    }
  }

  /** An a value beyond [-100, 100] (a = 500, say) reaches the conversion as
      the nearer limit, whatever b is: all three color bytes are those of
      the saturated sample. */
  lemma AChromaSaturates(abData: seq<real>, gray: seq<Byte>, n: nat, root: real -> real, i: nat)
    requires |abData| == 2 * n && n <= |gray| && i < n
    requires abData[2 * i] > ChromaLimit || abData[2 * i] < -ChromaLimit
    ensures var a := if abData[2 * i] > 0.0 then ChromaLimit else -ChromaLimit;
      var e := EncodedRgb(LightnessPlane(gray, n)[i], a, Clamp(abData[2 * i + 1], -ChromaLimit, ChromaLimit), root);
      && Colorized(abData, gray, n, root)[4 * i] == Quantize(e.blue)
      && Colorized(abData, gray, n, root)[4 * i + 1] == Quantize(e.green)
      && Colorized(abData, gray, n, root)[4 * i + 2] == Quantize(e.red)
  {
    ColorizedPixel(abData, gray, n, root, i);
  }

  /** A b value beyond [-100, 100] reaches the conversion as the nearer
      limit, whatever a is. */
  lemma BChromaSaturates(abData: seq<real>, gray: seq<Byte>, n: nat, root: real -> real, i: nat)
    requires |abData| == 2 * n && n <= |gray| && i < n
    requires abData[2 * i + 1] > ChromaLimit || abData[2 * i + 1] < -ChromaLimit
    ensures var b := if abData[2 * i + 1] > 0.0 then ChromaLimit else -ChromaLimit;
      var e := EncodedRgb(LightnessPlane(gray, n)[i], Clamp(abData[2 * i], -ChromaLimit, ChromaLimit), b, root);
      && Colorized(abData, gray, n, root)[4 * i] == Quantize(e.blue)
      && Colorized(abData, gray, n, root)[4 * i + 1] == Quantize(e.green)
      && Colorized(abData, gray, n, root)[4 * i + 2] == Quantize(e.red)
  {
    ColorizedPixel(abData, gray, n, root, i);
  }

  /** `convertABtoRGB`: nil (InvalidABSize) unless abData holds two values
      per pixel, nil (GrayscaleUnavailable) without a gray raster, and
      otherwise the swapped RGBA buffer of the converted LAB samples. The
      guard after `convertLABtoRGB` never fires, since that loop always
      yields a buffer. */
  method ConvertABToRGB(abData: seq<real>, gray: Option<seq<Byte>>, width: nat, height: nat, root: real -> real)
    returns (r: Result<seq<Byte>>)
    requires gray.Some? ==> |gray.value| == width * height
    ensures |abData| != width * height * 2 ==> r == Err(InvalidABSize)
    ensures |abData| == width * height * 2 && gray.None? ==> r == Err(GrayscaleUnavailable)
    ensures |abData| == width * height * 2 && gray.Some? ==> r == Ok(Colorized(abData, gray.value, width * height, root))
  {
    if |abData| != width * height * 2 {
      return Err(InvalidABSize);
    }
    var pixelCount := width * height;
    if gray.None? {
      return Err(GrayscaleUnavailable);
    }
    var lData := gray.value;
    var lChannel := LightnessPlane(lData, width * height);
    var aNormalized := ANormalized(abData);
    var bNormalized := BNormalized(abData);
    var labData := AssembleLab(lChannel, aNormalized, bNormalized, pixelCount);
    var rgbData := ConvertLabToRgb(labData, width, height, root);
    var rgbaData := SwapRedBlue(rgbData, pixelCount);
    return Ok(rgbaData);
  }

  /** `multiArrayToUIImage`: the shape guard and copy, then `convertABtoRGB`
      on the 256 x 256 chrominance buffer. */
  method MultiArrayToImage(m: MultiArray, gray: Option<seq<Byte>>, root: real -> real) returns (r: Result<seq<Byte>>)
    requires m.Valid()
    requires gray.Some? ==> |gray.value| == Side * Side
    ensures r.Ok? <==> ValidChromaShape(m.shape) && m.shape[0] > 0 && gray.Some?
    ensures !ValidChromaShape(m.shape) ==> r == Err(InvalidShape)
    ensures ValidChromaShape(m.shape) && m.shape[0] == 0 ==> r == Err(ReadOutOfBounds)
    ensures ValidChromaShape(m.shape) && m.shape[0] > 0 && gray.None? ==> r == Err(GrayscaleUnavailable)
    ensures r.Ok? ==> (ChromaCount <= m.data.Length
      && r.value == Colorized(m.data[..ChromaCount], gray.value, Side * Side, root))
  {
    var chroma := ExtractChroma(m);
    if chroma.Err? {
      return Err(chroma.error);
    }
    var width := m.shape[3];
    var height := m.shape[2];
    r := ConvertABToRGB(chroma.value, gray, width, height, root);
  }
}

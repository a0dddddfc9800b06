/** Per-pixel LAB to RGB conversion (`convertLABtoRGB`): CIE 1976 L*a*b* to
    XYZ with the white-point lines as written, XYZ to linear sRGB, the sRGB
    transfer function of IEC 61966-2-1, a clamp to [0, 1] and the `UInt8`
    conversion, written into a 4-bytes-per-pixel buffer with alpha 255.
    `pow(c, 1 / 2.4)` is transcendental; it is the parameter `root`. */
module LabToRgb {
  import opened Common

  /** `pow(x, k)` for a whole-number exponent k; the companding uses k = 3. */
  function Pow(x: real, k: nat): real
  {
    if k == 0 then 1.0 else x * Pow(x, k - 1)
  }

  /** The cube `pow(f, 3)` is f * f * f. */
  lemma CubeIsProduct(f: real)
    ensures Pow(f, 3) == f * f * f
  {
    assert Pow(f, 1) == f;
    assert Pow(f, 2) == f * f;
  }

  /** Threshold on f^3 above which the cube is used. */
  const Epsilon: real := 0.008856

  /** Slope divisor of the linear segment. */
  const Kappa: real := 7.787

  /** `16 / 116`, the f value of zero lightness. */
  const F0: real := 16.0 / 116.0

  /** xNorm, yNorm or zNorm: the inverse CIE companding of one f value. */
  function InverseCompand(f: real): real
  {
    if Pow(f, 3) > Epsilon then Pow(f, 3) else (f - F0) / Kappa
  }

  /** The inverse companding is positive exactly when f lies above the f of
      zero lightness. */
  lemma InverseCompandSign(f: real)
    ensures f > F0 ==> InverseCompand(f) > 0.0
    ensures f <= F0 ==> InverseCompand(f) <= 0.0
  {
    CubeIsProduct(f);
    if f <= 0.0 {
      assert f * f * f <= 0.0 by {
        assert f * f >= 0.0;
      }
    }
  }

  /** D65 reference white as written in the app. */
  const WhiteX: real := 95.047
  const WhiteY: real := 100.0
  const WhiteZ: real := 108.883

  /** `v * white / white`: the white-point lines multiply and divide by the
      same constant, so the value is unchanged. */
  function WhitePointScaled(v: real, white: real): (r: real)
    requires white != 0.0
    ensures r == v
  {
    v * white / white
  }

  datatype Tristimulus = Tristimulus(x: real, y: real, z: real)

  /** Red, green and blue before or after gamma encoding. */
  datatype Rgb = Rgb(red: real, green: real, blue: real)

  /** L*a*b* to XYZ as the app computes it (no reference white applied). */
  function LabToXyz(l: real, a: real, b: real): Tristimulus
  {
    var fy := (l + 16.0) / 116.0;
    var fx := a / 500.0 + fy;
    var fz := fy - b / 200.0;
    Tristimulus(
      WhitePointScaled(InverseCompand(fx), WhiteX),
      WhitePointScaled(InverseCompand(fy), WhiteY),
      WhitePointScaled(InverseCompand(fz), WhiteZ))
  }

  /** Positive lightness gives positive Y, zero lightness gives zero Y, and
      a neutral sample (a = b = 0) gives X = Y = Z. */
  lemma LabToXyzSigns(l: real, a: real, b: real)
    ensures l > 0.0 ==> LabToXyz(l, a, b).y > 0.0
    ensures l == 0.0 ==> LabToXyz(l, a, b).y == 0.0
    ensures a == 0.0 && b == 0.0 ==> LabToXyz(l, a, b).x == LabToXyz(l, a, b).y == LabToXyz(l, a, b).z
  {
    InverseCompandSign((l + 16.0) / 116.0);
  }

  /** XYZ to linear sRGB. */
  function XyzToLinearRgb(t: Tristimulus): Rgb
  {
    Rgb(
      t.x * 3.2406 + t.y * -1.5372 + t.z * -0.4986,
      t.x * -0.9689 + t.y * 1.8758 + t.z * 0.0415,
      t.x * 0.0557 + t.y * -0.2040 + t.z * 1.0570)
  }

  /** The sRGB transfer function on one channel; `root` stands for pow(c, 1 / 2.4). */
  function GammaEncode(c: real, root: real -> real): real
  {
    if c > 0.0031308 then 1.055 * root(c) - 0.055 else 12.92 * c
  }

  /** The matrix is linear: scaling the tristimulus scales every channel. */
  lemma XyzToLinearRgbScales(t: Tristimulus, s: real)
    ensures var lin := XyzToLinearRgb(t);
      XyzToLinearRgb(Tristimulus(s * t.x, s * t.y, s * t.z)) == Rgb(s * lin.red, s * lin.green, s * lin.blue)
  {
  }

  /** Equal positive tristimulus values, which the app produces for every
      neutral sample, give linear red above green above blue; zero gives
      black. */
  lemma XyzToLinearRgbOfEqual(v: real)
    ensures v > 0.0 ==> var lin := XyzToLinearRgb(Tristimulus(v, v, v));
      lin.red > lin.green > lin.blue > 0.0
    ensures XyzToLinearRgb(Tristimulus(0.0, 0.0, 0.0)) == Rgb(0.0, 0.0, 0.0)
  {
  }

  /** Non-positive input stays non-positive (black after the clamp); the
      linear toe maps [0, 0.0031308] into [0, 0.04045]; input whose root
      reaches 1 encodes to at least 1 (white after the clamp); on the toe
      the encoding keeps order. */
  lemma GammaEncodeRanges(c: real, d: real, root: real -> real)
    ensures c <= 0.0 ==> GammaEncode(c, root) <= 0.0
    ensures 0.0 <= c <= 0.0031308 ==> 0.0 <= GammaEncode(c, root) <= 0.04045
    ensures c > 0.0031308 && root(c) >= 1.0 ==> GammaEncode(c, root) >= 1.0
    ensures c <= d <= 0.0031308 ==> GammaEncode(c, root) <= GammaEncode(d, root)
  {
  }

  /** The gamma-encoded, not yet clamped channels of one LAB sample. */
  function EncodedRgb(l: real, a: real, b: real, root: real -> real): Rgb
  {
    var lin := XyzToLinearRgb(LabToXyz(l, a, b));
    Rgb(GammaEncode(lin.red, root), GammaEncode(lin.green, root), GammaEncode(lin.blue, root))
  }

  /** Swift's Float-to-integer conversion: truncation toward zero. */
  function Truncate(v: real): int
  {
    if v < 0.0 then -((-v).Floor) else v.Floor
  }

  /** `UInt8(v)`: traps unless the truncated value fits in 0..255, i.e.
      unless -1 < v < 256. */
  function UInt8Of(v: real): (q: Byte)
    requires -1.0 < v < 256.0
    ensures 0.0 <= v ==> q as real <= v < q as real + 1.0
    ensures v < 0.0 ==> q == 0
  {
    Truncate(v)
  }

  /** `UInt8(max(0, min(1, c)) * 255)`: never traps; the floor of the clamped
      channel scaled to 0..255. */
  function Quantize(c: real): (q: Byte)
    ensures 0.0 <= c <= 1.0 ==> q as real <= c * 255.0 < q as real + 1.0
    ensures c <= 0.0 ==> q == 0
    ensures 1.0 <= c ==> q == 255
  {
    UInt8Of(Max(0.0, Min(1.0, c)) * 255.0)
  }

  /** The four bytes the loop writes for one LAB sample: red, green, blue, alpha. */
  function PixelBytes(l: real, a: real, b: real, root: real -> real): (px: seq<Byte>)
    ensures |px| == 4 && px[3] == 255
  {
    var e := EncodedRgb(l, a, b, root);
    [Quantize(e.red), Quantize(e.green), Quantize(e.blue), 255]
  }

  /** The four bytes of LAB sample i of a `labData` buffer. */
  function PixelAt(lab: seq<real>, i: nat, root: real -> real): (px: seq<Byte>)
    requires 3 * i + 2 < |lab|
    ensures |px| == 4
  {
    PixelBytes(lab[3 * i], lab[3 * i + 1], lab[3 * i + 2], root)
  }

  /** The `rgbData` buffer of n pixels, four bytes per pixel. */
  function RgbBuffer(lab: seq<real>, n: nat, root: real -> real): (rgb: seq<Byte>)
    requires |lab| == 3 * n
    ensures |rgb| == 4 * n
  {
    seq(4 * n, k requires 0 <= k < 4 * n =>
      var i := k / 4;
      PixelAt(lab, i, root)[k % 4])
  }

  /** Index 4i + c of a 4-byte-per-pixel buffer is byte c of pixel i. */
  lemma PixelOffset(i: int, c: int)
    requires 0 <= c < 4
    ensures (4 * i + c) / 4 == i && (4 * i + c) % 4 == c
  {
  }

  /** Byte c of pixel i is byte c of that pixel's conversion. */
  lemma RgbBufferAt(lab: seq<real>, n: nat, root: real -> real, i: nat, c: nat)
    requires |lab| == 3 * n && i < n && c < 4
    ensures RgbBuffer(lab, n, root)[4 * i + c] == PixelAt(lab, i, root)[c]
  {
    var rgb := RgbBuffer(lab, n, root);
    PixelOffset(i, c);
    var k := 4 * i + c;
    assert rgb[k] == PixelAt(lab, k / 4, root)[k % 4];
  }

  /** Pixel i's bytes sit at 4i .. 4i + 3: red, green and blue are the
      quantized encoded channels of LAB sample i, alpha is 255. */
  lemma RgbBufferLayout(lab: seq<real>, n: nat, root: real -> real, i: nat)
    requires |lab| == 3 * n && i < n
    ensures var e := EncodedRgb(lab[3 * i], lab[3 * i + 1], lab[3 * i + 2], root);
      && RgbBuffer(lab, n, root)[4 * i] == Quantize(e.red)
      && RgbBuffer(lab, n, root)[4 * i + 1] == Quantize(e.green)
      && RgbBuffer(lab, n, root)[4 * i + 2] == Quantize(e.blue)
      && RgbBuffer(lab, n, root)[4 * i + 3] == 255
  {
    var px := PixelAt(lab, i, root);
    var rgb := RgbBuffer(lab, n, root);
    RgbBufferAt(lab, n, root, i, 0);
    RgbBufferAt(lab, n, root, i, 1);
    RgbBufferAt(lab, n, root, i, 2);
    RgbBufferAt(lab, n, root, i, 3);
    assert rgb[4 * i] == px[0] && rgb[4 * i + 1] == px[1] && rgb[4 * i + 2] == px[2] && rgb[4 * i + 3] == px[3];
  }

  /** Two buffers of n pixels that agree pixel by pixel are equal. */
  lemma PixelwiseEqual(x: seq<Byte>, y: seq<Byte>, n: nat)
    requires |x| == 4 * n && |y| == 4 * n
    requires forall j :: 0 <= j < n ==>
      x[4 * j] == y[4 * j] && x[4 * j + 1] == y[4 * j + 1] && x[4 * j + 2] == y[4 * j + 2] && x[4 * j + 3] == y[4 * j + 3]
    ensures x == y
  {
    forall k | 0 <= k < 4 * n
      ensures x[k] == y[k]
    {
      var j, c := k / 4, k % 4;
      assert k == 4 * j + c;
    }
  }

  /** A buffer whose every pixel holds that LAB sample's four bytes is the
      `rgbData` buffer. */
  lemma RgbBufferOfPixels(lab: seq<real>, n: nat, root: real -> real, rgb: seq<Byte>)
    requires |lab| == 3 * n && |rgb| == 4 * n
    requires forall j :: 0 <= j < n ==>
      var px := PixelAt(lab, j, root);
      rgb[4 * j] == px[0] && rgb[4 * j + 1] == px[1] && rgb[4 * j + 2] == px[2] && rgb[4 * j + 3] == px[3]
    ensures rgb == RgbBuffer(lab, n, root)
  {
    var buffer := RgbBuffer(lab, n, root);
    forall j | 0 <= j < n
      ensures rgb[4 * j] == buffer[4 * j] && rgb[4 * j + 1] == buffer[4 * j + 1]
      ensures rgb[4 * j + 2] == buffer[4 * j + 2] && rgb[4 * j + 3] == buffer[4 * j + 3]
    {
      RgbBufferAt(lab, n, root, j, 0);
      RgbBufferAt(lab, n, root, j, 1);
      RgbBufferAt(lab, n, root, j, 2);
      RgbBufferAt(lab, n, root, j, 3);
    }
    PixelwiseEqual(rgb, buffer, n);
  }

  /** The body of the conversion loop for one LAB sample: XYZ, linear sRGB,
      gamma encoding, the clamp to [0, 1] and `UInt8(c * 255)`. */
  method ConvertPixel(l: real, a: real, b: real, root: real -> real) returns (red: Byte, green: Byte, blue: Byte)
    ensures [red, green, blue, 255] == PixelBytes(l, a, b, root)
  {
    var lin := XyzToLinearRgb(LabToXyz(l, a, b));
    var r := GammaEncode(lin.red, root);
    var g := GammaEncode(lin.green, root);
    var bl := GammaEncode(lin.blue, root);
    r := Max(0.0, Min(1.0, r));
    g := Max(0.0, Min(1.0, g));
    bl := Max(0.0, Min(1.0, bl));
    red, green, blue := UInt8Of(r * 255.0), UInt8Of(g * 255.0), UInt8Of(bl * 255.0);
  }

  /** The conversion loop of `convertLABtoRGB`; it always yields a buffer. */
  method ConvertLabToRgb(labData: seq<real>, width: nat, height: nat, root: real -> real) returns (rgbData: seq<Byte>)
    requires |labData| == 3 * (width * height)
    ensures rgbData == RgbBuffer(labData, width * height, root)
  {
    var pixelCount := width * height;
    rgbData := seq(pixelCount * 4, _ => 0);
    var i := 0;
    while i < pixelCount
      invariant 0 <= i <= pixelCount && |rgbData| == 4 * pixelCount
      invariant forall j :: 0 <= j < i ==>
        var px := PixelAt(labData, j, root);
        rgbData[4 * j] == px[0] && rgbData[4 * j + 1] == px[1] && rgbData[4 * j + 2] == px[2] && rgbData[4 * j + 3] == px[3]
    {
      var red, green, blue := ConvertPixel(labData[3 * i], labData[3 * i + 1], labData[3 * i + 2], root);
      assert [red, green, blue, 255] == PixelAt(labData, i, root);
      rgbData := rgbData[i * 4 + 0 := red];
      rgbData := rgbData[i * 4 + 1 := green];
      rgbData := rgbData[i * 4 + 2 := blue];
      rgbData := rgbData[i * 4 + 3 := 255];
      i := i + 1;
    }
    RgbBufferOfPixels(labData, pixelCount, root, rgbData);
  }

  /** With the white point a no-op, a neutral sample (a = b = 0) of positive
      lightness is not gray: linear red exceeds green, which exceeds blue. */
  lemma NeutralInputIsTinted(l: real)
    requires l > 0.0
    ensures var lin := XyzToLinearRgb(LabToXyz(l, 0.0, 0.0));
      lin.red > lin.green > lin.blue > 0.0
  {
    LabToXyzSigns(l, 0.0, 0.0);
  }

  /** f values up to 0.15 (L up to 1.4) stay on the linear segment. */
  lemma CubeBelowThreshold(f: real)
    requires 0.0 <= f <= 0.15
    ensures Pow(f, 3) <= Epsilon
  {
    CubeIsProduct(f);
    assert f * f <= 0.15 * f;
    assert f * f * f <= 0.15 * f * f;
  }

  /** A neutral sample on the linear segment of the companding (L at most 1)
      converts through the linear toe of the transfer function:
      each channel is 12.92 times its linear value, which is t times the
      row sum of the matrix, for t = L / (116 * 7.787). */
  lemma DarkNeutralSample(l: real, root: real -> real)
    requires 0.0 <= l <= 1.0
    ensures var t := l / 116.0 / Kappa;
      EncodedRgb(l, 0.0, 0.0, root) == Rgb(12.92 * (1.2048 * t), 12.92 * (0.9484 * t), 12.92 * (0.9087 * t))
  {
    var fy := (l + 16.0) / 116.0;
    var t := l / 116.0 / Kappa;
    CubeBelowThreshold(fy);
    assert InverseCompand(fy) == t;
    assert LabToXyz(l, 0.0, 0.0) == Tristimulus(t, t, t);
    assert XyzToLinearRgb(Tristimulus(t, t, t)) == Rgb(1.2048 * t, 0.9484 * t, 0.9087 * t);
  }

  /** A channel whose scaled value lies in [q, q + 1) quantizes to q. */
  lemma QuantizeTo(c: real, q: Byte)
    requires 0.0 <= c <= 1.0 && q as real <= c * 255.0 < q as real + 1.0
    ensures Quantize(c) == q
  {
  }

  /** Gray byte 0 (L = 0) comes out black, whatever the power function. */
  lemma BlackStaysBlack(root: real -> real)
    ensures PixelBytes(0.0, 0.0, 0.0, root) == [0, 0, 0, 255]
  {
    DarkNeutralSample(0.0, root);
    assert EncodedRgb(0.0, 0.0, 0.0, root) == Rgb(0.0, 0.0, 0.0);
  }

  /** Gray byte 1 (L = 100 / 255) survives the tint: its color bytes are all
      1, whatever the power function. */
  lemma GrayOneStaysGray(root: real -> real)
    ensures PixelBytes(100.0 / 255.0, 0.0, 0.0, root) == [1, 1, 1, 255]
  {
    DarkNeutralSample(100.0 / 255.0, root);
    var t := 100.0 / 255.0 / 116.0 / Kappa;
    var e := EncodedRgb(100.0 / 255.0, 0.0, 0.0, root);
    assert e == Rgb(12.92 * (1.2048 * t), 12.92 * (0.9484 * t), 12.92 * (0.9087 * t));
    QuantizeTo(e.red, 1);
    QuantizeTo(e.green, 1);
    QuantizeTo(e.blue, 1);
  }

  /** Gray byte 2 (L = 200 / 255) is already tinted: its color bytes are
      red 3, green 2, blue 2, whatever the power function. */
  lemma GrayTwoIsTinted(root: real -> real)
    ensures PixelBytes(200.0 / 255.0, 0.0, 0.0, root) == [3, 2, 2, 255]
  {
    DarkNeutralSample(200.0 / 255.0, root);
    var t := 200.0 / 255.0 / 116.0 / Kappa;
    var e := EncodedRgb(200.0 / 255.0, 0.0, 0.0, root);
    assert e == Rgb(12.92 * (1.2048 * t), 12.92 * (0.9484 * t), 12.92 * (0.9087 * t));
    QuantizeTo(e.red, 3);
    QuantizeTo(e.green, 2);
    QuantizeTo(e.blue, 2);
  }
}

/** The "BGRA to RGBA" step of `convertABtoRGB`: within every 4-byte pixel,
    bytes 0 and 2 trade places and bytes 1 and 3 stay. */
module RgbaSwap {
  import opened Common

  /** The buffer with bytes 0 and 2 of every pixel exchanged. */
  function Swapped(rgb: seq<Byte>): (rgba: seq<Byte>)
    requires |rgb| % 4 == 0
    ensures |rgba| == |rgb|
  {
    seq(|rgb|, k requires 0 <= k < |rgb| =>
      if k % 4 == 0 then rgb[k + 2] else if k % 4 == 2 then rgb[k - 2] else rgb[k])
  }

  /** A buffer of n whole pixels. */
  lemma WholePixels(n: nat)
    ensures (4 * n) % 4 == 0
  {
  }

  /** Pixel i of the swapped buffer: byte 0 is the old byte 2, byte 2 the old
      byte 0, bytes 1 and 3 unchanged. */
  lemma SwappedAt(rgb: seq<Byte>, i: nat)
    requires |rgb| % 4 == 0 && 4 * i < |rgb|
    ensures Swapped(rgb)[4 * i] == rgb[4 * i + 2]
    ensures Swapped(rgb)[4 * i + 1] == rgb[4 * i + 1]
    ensures Swapped(rgb)[4 * i + 2] == rgb[4 * i]
    ensures Swapped(rgb)[4 * i + 3] == rgb[4 * i + 3]
  {
    assert (4 * i) % 4 == 0 && (4 * i + 1) % 4 == 1 && (4 * i + 2) % 4 == 2 && (4 * i + 3) % 4 == 3;
  }

  /** Swapping twice gives back the original buffer. */
  lemma SwappedInvolutive(rgb: seq<Byte>)
    requires |rgb| % 4 == 0
    ensures Swapped(Swapped(rgb)) == rgb
  {
    var once := Swapped(rgb);
    var twice := Swapped(once);
    forall k | 0 <= k < |rgb|
      ensures twice[k] == rgb[k]
    {
      var i := k / 4;
      assert k == 4 * i + k % 4;
      SwappedAt(rgb, i);
      SwappedAt(once, i);
    }
  }

  /** The `rgbaData` loop of `convertABtoRGB`. */
  method SwapRedBlue(rgbData: seq<Byte>, pixelCount: nat) returns (rgbaData: seq<Byte>)
    requires |rgbData| == 4 * pixelCount
    ensures rgbaData == Swapped(rgbData)
  {
    rgbaData := seq(pixelCount * 4, _ => 0);
    var i := 0;
    while i < pixelCount
      invariant 0 <= i <= pixelCount && |rgbaData| == 4 * pixelCount
      invariant forall j :: 0 <= j < i ==>
        && rgbaData[4 * j] == rgbData[4 * j + 2] && rgbaData[4 * j + 1] == rgbData[4 * j + 1]
        && rgbaData[4 * j + 2] == rgbData[4 * j] && rgbaData[4 * j + 3] == rgbData[4 * j + 3]
    {
      rgbaData := rgbaData[i * 4 + 0 := rgbData[i * 4 + 2]];
      rgbaData := rgbaData[i * 4 + 1 := rgbData[i * 4 + 1]];
      rgbaData := rgbaData[i * 4 + 2 := rgbData[i * 4 + 0]];
      rgbaData := rgbaData[i * 4 + 3 := rgbData[i * 4 + 3]];
      i := i + 1;
    }
    forall k | 0 <= k < 4 * pixelCount
      ensures rgbaData[k] == Swapped(rgbData)[k]
    {
      var j := k / 4;
      assert k == 4 * j + k % 4;
      SwappedAt(rgbData, j);
    }
  }
}

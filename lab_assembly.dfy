/** LAB assembly (middle of `convertABtoRGB`): lightness from the gray
    raster, the parity clamps on the chrominance buffer, and the stride-3
    interleave into `labData`. */
module LabAssembly {
  import opened Common

  /** `lChannel`: the first n gray bytes rescaled from 0..255 to 0..100. */
  function LightnessPlane(gray: seq<Byte>, n: nat): (lc: seq<real>)
    requires n <= |gray|
    ensures |lc| == n
    ensures forall i :: 0 <= i < n ==> 0.0 <= lc[i] <= 100.0 && lc[i] * 255.0 == gray[i] as real * 100.0
  {
    seq(n, i requires 0 <= i < n => gray[i] as real / 255.0 * 100.0)
  }

  /** The chrominance clamp bounds. */
  const ChromaLimit: real := 100.0

  /** Clamp to [-100, 100] the elements whose index has the given parity;
      leave the others as they are. */
  function ParityClamp(ab: seq<real>, parity: nat): (r: seq<real>)
    requires parity < 2
    ensures |r| == |ab|
    ensures forall i :: 0 <= i < |ab| && i % 2 != parity ==> r[i] == ab[i]
    ensures forall i :: 0 <= i < |ab| && i % 2 == parity ==>
      && -ChromaLimit <= r[i] <= ChromaLimit
      && (-ChromaLimit <= ab[i] <= ChromaLimit ==> r[i] == ab[i])
      && (ab[i] < -ChromaLimit ==> r[i] == -ChromaLimit)
      && (ChromaLimit < ab[i] ==> r[i] == ChromaLimit)
  {
    seq(|ab|, i requires 0 <= i < |ab| => if i % 2 == parity then Clamp(ab[i], -ChromaLimit, ChromaLimit) else ab[i])
  }

  /** `aNormalized`: even indices clamped. */
  function ANormalized(ab: seq<real>): seq<real>
  {
    ParityClamp(ab, 0)
  }

  /** `bNormalized`: odd indices clamped. */
  function BNormalized(ab: seq<real>): seq<real>
  {
    ParityClamp(ab, 1)
  }

  /** Clamping an already clamped buffer changes nothing. */
  lemma ParityClampIdempotent(ab: seq<real>, parity: nat)
    requires parity < 2
    ensures ParityClamp(ParityClamp(ab, parity), parity) == ParityClamp(ab, parity)
  {
    var once := ParityClamp(ab, parity);
    var twice := ParityClamp(once, parity);
    forall i | 0 <= i < |ab|
      ensures twice[i] == once[i]
    {
    }
  }

  /** The `labData` layout of n pixels, three samples per pixel. */
  function Interleaved(lc: seq<real>, an: seq<real>, bn: seq<real>, n: nat): (lab: seq<real>)
    requires |lc| == n && |an| == 2 * n && |bn| == 2 * n
    ensures |lab| == 3 * n
  {
    seq(3 * n, k requires 0 <= k < 3 * n =>
      var i, c := k / 3, k % 3;
      if c == 0 then lc[i] else if c == 1 then an[2 * i] else bn[2 * i + 1])
  }

  /** Pixel i's L, a and b sit at 3i, 3i + 1 and 3i + 2: L from the
      lightness plane, a from aNormalized[2i], b from bNormalized[2i + 1]. */
  lemma InterleavedAt(lc: seq<real>, an: seq<real>, bn: seq<real>, n: nat, i: nat)
    requires |lc| == n && |an| == 2 * n && |bn| == 2 * n && i < n
    ensures Interleaved(lc, an, bn, n)[3 * i] == lc[i]
    ensures Interleaved(lc, an, bn, n)[3 * i + 1] == an[2 * i]
    ensures Interleaved(lc, an, bn, n)[3 * i + 2] == bn[2 * i + 1]
  {
    var lab := Interleaved(lc, an, bn, n);
    assert (3 * i) / 3 == i && (3 * i + 1) / 3 == i && (3 * i + 2) / 3 == i;
  }

  /** The `labData` loop of `convertABtoRGB`. */
  method AssembleLab(lc: seq<real>, an: seq<real>, bn: seq<real>, pixelCount: nat) returns (labData: seq<real>)
    requires |lc| == pixelCount && |an| == 2 * pixelCount && |bn| == 2 * pixelCount
    ensures labData == Interleaved(lc, an, bn, pixelCount)
  {
    labData := seq(pixelCount * 3, _ => 0.0);
    var i := 0;
    while i < pixelCount
      invariant 0 <= i <= pixelCount && |labData| == 3 * pixelCount
      invariant forall j :: 0 <= j < i ==>
        labData[3 * j] == lc[j] && labData[3 * j + 1] == an[2 * j] && labData[3 * j + 2] == bn[2 * j + 1]
    {
      labData := labData[i * 3 + 0 := lc[i]];
      labData := labData[i * 3 + 1 := an[i * 2 + 0]];
      labData := labData[i * 3 + 2 := bn[i * 2 + 1]];
      i := i + 1;
    }
    forall k | 0 <= k < 3 * pixelCount
      ensures labData[k] == Interleaved(lc, an, bn, pixelCount)[k]
    {
      var j := k / 3;
      InterleavedAt(lc, an, bn, pixelCount, j);
    }
  }

  /** The LAB samples the pipeline builds: L in [0, 100], a and b in
      [-100, 100], each read from the gray byte and the chrominance pair of
      its pixel. */
  lemma LabSamples(gray: seq<Byte>, ab: seq<real>, n: nat, i: nat)
    requires n <= |gray| && |ab| == 2 * n && i < n
    ensures var lab := Interleaved(LightnessPlane(gray, n), ANormalized(ab), BNormalized(ab), n);
      && 0.0 <= lab[3 * i] <= 100.0 && lab[3 * i] * 255.0 == gray[i] as real * 100.0
      && lab[3 * i + 1] == Clamp(ab[2 * i], -ChromaLimit, ChromaLimit)
      && lab[3 * i + 2] == Clamp(ab[2 * i + 1], -ChromaLimit, ChromaLimit)
  {
    InterleavedAt(LightnessPlane(gray, n), ANormalized(ab), BNormalized(ab), n, i);
    assert (2 * i) % 2 == 0 && (2 * i + 1) % 2 == 1;
  }

  /** Reading a planar chrominance buffer (the a plane, then the b plane) as
      interleaved pairs: pixel i takes its a and b from elements 2i and
      2i + 1, so in the first half of the image both come from the a plane
      and in the second half both from the b plane. */
  lemma PlanarChromaMisread(aPlane: seq<real>, bPlane: seq<real>, gray: seq<Byte>, n: nat, i: nat)
    requires |aPlane| == n && |bPlane| == n && n <= |gray| && i < n
    ensures var lab := Interleaved(LightnessPlane(gray, n), ANormalized(aPlane + bPlane), BNormalized(aPlane + bPlane), n);
      && (2 * i + 1 < n ==> lab[3 * i + 1] == Clamp(aPlane[2 * i], -ChromaLimit, ChromaLimit))
      && (2 * i + 1 < n ==> lab[3 * i + 2] == Clamp(aPlane[2 * i + 1], -ChromaLimit, ChromaLimit))
      && (n <= 2 * i ==> lab[3 * i + 1] == Clamp(bPlane[2 * i - n], -ChromaLimit, ChromaLimit))
      && (n <= 2 * i ==> lab[3 * i + 2] == Clamp(bPlane[2 * i + 1 - n], -ChromaLimit, ChromaLimit))
  {
    LabSamples(gray, aPlane + bPlane, n, i);
  }
}

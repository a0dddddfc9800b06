/** The CoreML multi-array and the tensor encoder that fills it
    (`MLMultiArray.fromPixelBuffer`): an interleaved 32-bit BGRA pixel buffer
    becomes a planar `[1, 3, H, W]` tensor holding the R plane, then the G
    plane, then the B plane, every byte divided by 255. */
module Tensors {
  import opened Common

  /** Number of elements of a dense array of the given shape. */
  function ElementCount(shape: seq<nat>): nat
  {
    if |shape| == 0 then 1 else shape[0] * ElementCount(shape[1..])
  }

  lemma FourDimensionalCount(d0: nat, d1: nat, d2: nat, d3: nat)
    ensures ElementCount([d0, d1, d2, d3]) == d0 * (d1 * (d2 * d3))
  {
    assert [d0, d1, d2, d3][1..] == [d1, d2, d3];
    assert [d1, d2, d3][1..] == [d2, d3];
    assert [d2, d3][1..] == [d3];
    assert [d3][1..] == [];
    assert ElementCount([d3]) == d3;
    assert ElementCount([d2, d3]) == d2 * d3;
    assert ElementCount([d1, d2, d3]) == d1 * (d2 * d3);
  }

  /** A locked `CVPixelBuffer` in 32-bit BGRA: `base` is the byte view of its
      base address, None when that address is unavailable. */
  datatype PixelBuffer = PixelBuffer(width: nat, height: nat, base: Option<seq<Byte>>)
  {
    /** Rows are exactly 4 * width bytes apart, as the packing loop's indexing presumes. */
    predicate Tight()
    {
      base.Some? ==> |base.value| == 4 * (width * height)
    }
  }

  /** One channel of every pixel, in pixel order: the byte at `offset` within
      each 4-byte pixel, scaled to [0, 1]. */
  function Plane(bytes: seq<Byte>, n: nat, offset: nat): (r: seq<real>)
    requires offset < 4 && |bytes| == 4 * n
    ensures |r| == n
    ensures forall p :: 0 <= p < n ==> 0.0 <= r[p] <= 1.0 && r[p] * 255.0 == bytes[4 * p + offset] as real
  {
    seq(n, p requires 0 <= p < n => bytes[4 * p + offset] as real / 255.0)
  }

  /** The planar tensor of n BGRA pixels: red (byte 2) plane, green (byte 1)
      plane, blue (byte 0) plane. */
  ghost function Packed(bytes: seq<Byte>, n: nat): seq<real>
    requires |bytes| == 4 * n
  {
    Plane(bytes, n, 2) + Plane(bytes, n, 1) + Plane(bytes, n, 0)
  }

  /** Pixel p's red, green and blue land at p, n + p and 2n + p. */
  lemma PackedPlacesEachPixel(bytes: seq<Byte>, n: nat, p: nat)
    requires |bytes| == 4 * n && p < n
    ensures |Packed(bytes, n)| == 3 * n
    ensures Packed(bytes, n)[p] == bytes[4 * p + 2] as real / 255.0
    ensures Packed(bytes, n)[n + p] == bytes[4 * p + 1] as real / 255.0
    ensures Packed(bytes, n)[2 * n + p] == bytes[4 * p] as real / 255.0
  {
  }

  /** Every element of the encoder's tensor is normalized to [0, 1]. */
  lemma PackedInUnitRange(bytes: seq<Byte>, n: nat)
    requires |bytes| == 4 * n
    ensures forall k :: 0 <= k < |Packed(bytes, n)| ==> 0.0 <= Packed(bytes, n)[k] <= 1.0
  {
  }

  /** The flat index the packing loop writes for channel c of the pixel at (y, x). */
  function TensorIndex(c: nat, y: nat, x: nat, width: nat, height: nat): nat
  {
    c * (width * height) + y * width + x
  }

  lemma RowMajorBound(y: nat, x: nat, width: nat, height: nat)
    requires y < height && x < width
    ensures y * width + x < width * height
    ensures y * width + width <= width * height
  {
    assert y * width + width == (y + 1) * width;
    assert (y + 1) * width <= height * width by {
      MulMonotone(y + 1, height, width);
    }
  }

  lemma MulMonotone(a: int, b: int, m: int)
    requires a <= b && 0 <= m
    ensures a * m <= b * m
  {
  }

  /** Two positions of one row-major grid coincide only if row and column do. */
  lemma RowMajorInjective(y: nat, x: nat, y': nat, x': nat, width: nat)
    requires x < width && x' < width
    requires y * width + x == y' * width + x'
    ensures y == y' && x == x'
  {
    if y < y' {
      MulMonotone(y + 1, y', width);
      assert false;
    } else if y' < y {
      MulMonotone(y' + 1, y, width);
      assert false;
    }
  }

  /** Distinct (channel, row, column) triples are written at distinct indices. */
  lemma TensorIndexInjective(c: nat, y: nat, x: nat, c': nat, y': nat, x': nat, width: nat, height: nat)
    requires c < 3 && c' < 3 && y < height && y' < height && x < width && x' < width
    requires TensorIndex(c, y, x, width, height) == TensorIndex(c', y', x', width, height)
    ensures c == c' && y == y' && x == x'
  {
    RowMajorBound(y, x, width, height);
    RowMajorBound(y', x', width, height);
    var n := width * height;
    assert c * n + (y * width + x) == c' * n + (y' * width + x');
    if c < c' {
      MulMonotone(c + 1, c', n);
      assert false;
    } else if c' < c {
      MulMonotone(c' + 1, c, n);
      assert false;
    }
    RowMajorInjective(y, x, y', x', width);
  }

  lemma DivideByRow(p: nat, width: nat)
    requires width > 0
    ensures p == (p / width) * width + p % width && p % width < width
  {
  }

  /** Every position of a row-major grid has a row and a column. */
  lemma RowMajorCovers(p: nat, width: nat, height: nat) returns (y: nat, x: nat)
    requires p < width * height
    ensures y < height && x < width && y * width + x == p
  {
    if width == 0 {
      assert false;
    }
    y, x := p / width, p % width;
    DivideByRow(p, width);
    if y >= height {
      MulMonotone(height, y, width);
      assert false;
    }
  }

  /** Every index of the [1, 3, H, W] tensor is written by some iteration. */
  lemma TensorIndexCovers(k: nat, width: nat, height: nat)
    requires k < 3 * (width * height)
    ensures exists c: nat, y: nat, x: nat :: c < 3 && y < height && x < width && TensorIndex(c, y, x, width, height) == k
  {
    var n := width * height;
    var c: nat := if k < n then 0 else if k < 2 * n then 1 else 2;
    var y, x := RowMajorCovers(k - c * n, width, height);
    assert TensorIndex(c, y, x, width, height) == k;
  }

  /** The first m pixels of three planes of n elements each are in place in
      the planar storage t. */
  ghost predicate PackedUpTo(t: array<real>, red: seq<real>, green: seq<real>, blue: seq<real>, m: nat)
    reads t
  {
    var n := |red|;
    && |green| == n && |blue| == n && t.Length == 3 * n && m <= n
    && forall p :: 0 <= p < m ==> t[p] == red[p] && t[n + p] == green[p] && t[2 * n + p] == blue[p]
  }

  /** Once all n pixels are in place, the storage is the packed tensor. */
  lemma PlanesArePacked(t: array<real>, bytes: seq<Byte>, n: nat)
    requires |bytes| == 4 * n
    requires PackedUpTo(t, Plane(bytes, n, 2), Plane(bytes, n, 1), Plane(bytes, n, 0), n)
    ensures t[..] == Packed(bytes, n)
  {
    var red, green, blue := Plane(bytes, n, 2), Plane(bytes, n, 1), Plane(bytes, n, 0);
    forall k | 0 <= k < 3 * n
      ensures t[k] == Packed(bytes, n)[k]
    {
      if k < n {
      } else if k < 2 * n {
        assert t[n + (k - n)] == green[k - n];
      } else {
        assert t[2 * n + (k - 2 * n)] == blue[k - 2 * n];
      }
    }
  }

  /** The three stores of one iteration of the packing loop: pixel p's
      channels go to p, n + p and 2n + p. */
  method StorePixel(t: array<real>, ghost red: seq<real>, ghost green: seq<real>, ghost blue: seq<real>,
                    p: nat, r: real, g: real, b: real)
    requires PackedUpTo(t, red, green, blue, p) && p < |red|
    requires r == red[p] && g == green[p] && b == blue[p]
    modifies t
    ensures t[p] == r && t[|red| + p] == g && t[2 * |red| + p] == b
    ensures forall k :: 0 <= k < t.Length && k != p && k != |red| + p && k != 2 * |red| + p ==> t[k] == old(t[k])
    ensures PackedUpTo(t, red, green, blue, p + 1)
  {
    var n := t.Length / 3;
    t[p] := r;
    t[n + p] := g;
    t[2 * n + p] := b;
  }

  /** The nested loops of `fromPixelBuffer`: every pixel's red, green and
      blue byte, scaled to [0, 1], stored into its plane of t. */
  method PackPixels(data: seq<Byte>, width: nat, height: nat, t: array<real>)
    requires |data| == 4 * (width * height) && t.Length == 3 * (width * height)
    modifies t
    ensures t[..] == Packed(data, width * height)
  {
    var n := width * height;
    ghost var red, green, blue := Plane(data, n, 2), Plane(data, n, 1), Plane(data, n, 0);
    var y := 0;
    while y < height
      invariant 0 <= y <= height
      invariant y * width <= n
      invariant PackedUpTo(t, red, green, blue, y * width)
    {
      var x := 0;
      while x < width
        invariant 0 <= x <= width
        invariant y * width + x <= n
        invariant PackedUpTo(t, red, green, blue, y * width + x)
      {
        RowMajorBound(y, x, width, height);
        var pixelIndex := y * width + x;
        var r := data[pixelIndex * 4 + 2] as real / 255.0;
        var g := data[pixelIndex * 4 + 1] as real / 255.0;
        var b := data[pixelIndex * 4 + 0] as real / 255.0;
        StorePixel(t, red, green, blue, pixelIndex, r, g, b);
        x := x + 1;
      }
      assert y * width + width == (y + 1) * width;
      y := y + 1;
    }
    assert y * width == n;
    PlanesArePacked(t, data, n);
  }

  /** `MLMultiArray`: a shape and the flat element storage it indexes. */
  class MultiArray {
    const shape: seq<nat>
    const data: array<real>

    ghost predicate Valid()
      reads this
    {
      data.Length == ElementCount(shape)
    }

    /** `MLMultiArray(shape:dataType:)`; the elements start unspecified. */
    constructor (shape: seq<nat>)
      ensures Valid() && this.shape == shape && fresh(data)
    {
      this.shape := shape;
      data := new real[ElementCount(shape)];
    }

    /** `MLMultiArray.fromPixelBuffer`: throws when the base address is
        missing; otherwise a fresh `[1, 3, height, width]` array whose
        elements are the planar, normalized channels of the buffer. */
    static method FromPixelBuffer(buffer: PixelBuffer) returns (r: Result<MultiArray>)
      requires buffer.Tight()
      ensures buffer.base.None? ==> r == Err(MissingBaseAddress)
      ensures buffer.base.Some? ==> r.Ok? && fresh(r.value) && fresh(r.value.data) && r.value.Valid()
      ensures buffer.base.Some? ==> r.value.shape == [1, 3, buffer.height, buffer.width]
      ensures buffer.base.Some? ==> r.value.data[..] == Packed(buffer.base.value, buffer.width * buffer.height)
    {
      if buffer.base.None? {
        return Err(MissingBaseAddress);
      }
      var data := buffer.base.value;
      var width, height := buffer.width, buffer.height;
      var mlArray := new MultiArray([1, 3, height, width]);
      FourDimensionalCount(1, 3, height, width);
      PackPixels(data, width, height, mlArray.data);
      return Ok(mlArray);
    }
  }
}

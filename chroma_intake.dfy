/** Chrominance intake (first half of `multiArrayToUIImage`): the model's
    output array is accepted when its shape reads `[_, 2, 256, 256]` and its
    first 2 * 256 * 256 elements are copied, in order, into `abData`. */
module ChromaIntake {
  import opened Common
  import opened Tensors

  /** Spatial side of the colorization model's tensors. */
  const Side: nat := 256

  /** Elements copied out of an accepted chrominance array. */
  const ChromaCount: nat := Side * Side * 2

  /** The shape guard: four dimensions, dims 1..3 equal to 2, 256, 256.
      Dimension 0 is not examined. */
  predicate ValidChromaShape(shape: seq<nat>)
    ensures ValidChromaShape(shape) <==> |shape| == 4 && shape == [shape[0], 2, Side, Side]
  {
    |shape| == 4 && shape[1] == 2 && shape[2] == Side && shape[3] == Side
  }

  /** An accepted shape holds dim 0 times 2 * 256 * 256 elements. */
  lemma AcceptedShapeCount(shape: seq<nat>)
    requires ValidChromaShape(shape)
    ensures ElementCount(shape) == shape[0] * ChromaCount
  {
    assert shape == [shape[0], 2, Side, Side];
    FourDimensionalCount(shape[0], 2, Side, Side);
  }

  /** The guard and the copy loop of `multiArrayToUIImage`. A rejected shape
      gives InvalidShape; an accepted shape whose dim 0 is 0 has no elements,
      so the first subscript faults (ReadOutOfBounds); otherwise the result
      is the first 2 * 256 * 256 elements of the array. */
  method ExtractChroma(m: MultiArray) returns (r: Result<seq<real>>)
    requires m.Valid()
    ensures r.Ok? <==> ValidChromaShape(m.shape) && m.shape[0] > 0
    ensures !ValidChromaShape(m.shape) ==> r == Err(InvalidShape)
    ensures ValidChromaShape(m.shape) && m.shape[0] == 0 ==> r == Err(ReadOutOfBounds)
    ensures r.Ok? ==> |r.value| == ChromaCount <= m.data.Length && r.value == m.data[..ChromaCount]
  {
    var shape := m.shape;
    if !(|shape| == 4 && shape[1] == 2 && shape[2] == 256 && shape[3] == 256) {
      return Err(InvalidShape);
    }
    AcceptedShapeCount(shape);
    var width := shape[3];
    var height := shape[2];

    var abData := seq(width * height * 2, _ => 0.0);
    var i := 0;
    while i < |abData|
      invariant 0 <= i <= |abData| == ChromaCount
      invariant i <= m.data.Length
      invariant forall j :: 0 <= j < i ==> abData[j] == m.data[j]
    {
      if i >= m.data.Length {
        return Err(ReadOutOfBounds);
      }
      abData := abData[i := m.data[i]];
      i := i + 1;
    }
    assert abData == m.data[..ChromaCount];
    return Ok(abData);
  }
}

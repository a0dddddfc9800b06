/** Vocabulary shared by the colorizer's buffer pipeline: 8-bit samples, the
    error outcomes of the helpers that give up (return nil or throw), and the
    `max(lo, min(v, hi))` clamp used on chrominance and on display channels.
    Swift `Float` values are modelled as `real`. */
module Common {

  /** An unsigned 8-bit sample (Swift `UInt8`). */
  type Byte = x: int | 0 <= x < 256

  datatype Option<+T> = None | Some(value: T)

  /** Why a helper of the pipeline produced no result. */
  datatype Error =
    | MissingBaseAddress    // fromPixelBuffer: the pixel buffer has no base address (throws)
    | InvalidShape          // multiArrayToUIImage: the chrominance shape guard fails (nil)
    | ReadOutOfBounds       // a tensor subscript past the last element (a runtime fault)
    | InvalidABSize         // convertABtoRGB: abData.count != width * height * 2 (nil)
    | GrayscaleUnavailable  // convertABtoRGB: no CGImage, or the gray context has no data (nil)

  datatype Result<+T> = Ok(value: T) | Err(error: Error)

  /** Swift's `min` on two values. */
  function Min(x: real, y: real): real { if y < x then y else x }

  /** Swift's `max` on two values. */
  function Max(x: real, y: real): real { if y >= x then y else x }

  /** `max(lo, min(v, hi))`: v when it lies in [lo, hi], the nearer bound otherwise. */
  function Clamp(v: real, lo: real, hi: real): (r: real)
    requires lo <= hi
    ensures lo <= r <= hi
    ensures lo <= v <= hi ==> r == v
    ensures v < lo ==> r == lo
    ensures hi < v ==> r == hi
  {
    Max(lo, Min(v, hi))
  }
}

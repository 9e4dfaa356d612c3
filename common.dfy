/** Shared vocabulary: rasters as rows of reals, and the failure datatype
    standing for the exceptions the preprocessing code can raise. */
module Common {

  /** A 2-D array of values, row by row (numpy/torch `(H, W)` arrays). */
  type Raster = seq<seq<real>>

  /** `g` has exactly `h` rows of exactly `w` values each. */
  predicate IsGrid(g: Raster, h: nat, w: nat)
  {
    |g| == h && forall r :: 0 <= r < h ==> |g[r]| == w
  }

  /** The exceptions of the modelled code, by cause. */
  datatype Error =
    | FormatNotRecognized   // ValueError: the annotation file has neither known key
    | IndexOutOfRange       // IndexError: a list, array or scalar indexed past its end
    | ShapeMismatch         // a patch whose shape differs from the footprint it is added to
    | EmptyAxisPad          // numpy refuses to reflect-pad an axis of length zero

  datatype Result<T> = Success(value: T) | Failure(error: Error)

  datatype Option<T> = None | Some(value: T)
}

/** Outcomes of the array operations: a value, one of the library's errors, or a panic. */
module Results {
  datatype Error =
    | ShapeOverflow
    | BroadcastError
    | IndexOutOfBounds(axis: nat)
    | TooManyIndices
    | DimensionMismatch
    | DTypeMismatch
    | ShapeMismatch
    | AxisOutOfRange
    | NonContiguous
    | ReshapeIncompatible
    | ZeroSliceStep
    | InvalidStride(axis: nat)
    | ReadOnly
    | CannotResizeShared
    | AllocFailed
    | Bug

  /** `Undefined` marks a read outside the allocation, about which the source promises nothing. */
  datatype Result<+T> = Ok(value: T) | Err(error: Error) | Panic | Undefined

  datatype Option<+T> = None | Some(value: T)
}

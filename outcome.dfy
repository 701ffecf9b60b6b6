// How a run of one of the programs ends: with its result, or stopped by
// one of the checks made before any data is distributed, or by the
// exception std::vector::resize throws when it is given a negative size.

module Outcome {

  /** ShapeError: the number of processes is not a perfect square.
      DimensionError: the matrix order is not a multiple of the number of
      processes (or of the grid side).
      SizeError: a size read from the input, or computed from it, is
      negative when a vector is resized to it; the conversion to an
      unsigned size makes it huge and resize throws, ending the run. */
  datatype Error = ShapeError | DimensionError | SizeError

  datatype Result<T> = Ok(value: T) | Err(error: Error)
}

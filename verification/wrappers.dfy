/** Failure-carrying result types shared by the resolver and the transfer. */
module Wrappers {

  /** A computed value, or the error that stopped the computation. */
  datatype Result<+T, +E> = Success(value: T) | Failure(error: E)

  /** Completion without a value, or the error that stopped it. */
  datatype Outcome<+E> = Pass | Fail(error: E)
}

/** Failure-carrying result types shared by the queue and the shortest-path engine. */
module Wrappers {

  /** A value that may be absent; stands for PHP's `null` in the predecessor map. */
  datatype Option<+T> = None | Some(value: T)

  /** Either a value or a typed error; stands for the code's exceptions. */
  datatype Result<+T, +E> = Success(value: T) | Failure(error: E)

}

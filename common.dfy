/** Values shared by the three containers: the outcome of a bounds-checked
    access, which either yields an element or throws std::out_of_range. */
module Common {

  /** The std::out_of_range exception, with the message the container passes. */
  datatype OutOfRange = OutOfRange(what: string)

  /** Result of `at(i)`: the element, or the exception it throws. */
  datatype Result<T> = Ok(value: T) | Throw(error: OutOfRange)

  function Max(a: nat, b: nat): nat
  {
    if a < b then b else a
  }
}

/**
 * The exception taxonomy of the .NET base library, as far as the modelled code
 * raises it, and the result types that make a throw an ordinary return value.
 */
module Results {

  /** The .NET exceptions the modelled operations can throw. */
  datatype Exception =
    | ArgumentException
    | ArgumentNullException
    | ArgumentOutOfRangeException
    | KeyNotFoundException
    | FormatException
    | AggregateException(innerExceptions: seq<Exception>)

  /** A value-returning call: it either returns a value or throws. */
  datatype Result<T> = Ok(value: T) | Throws(error: Exception)

  /** A void call: it either completes or throws. */
  datatype Outcome = Completed | Raised(error: Exception)

  /** A possibly-null reference, or the `out` parameter of a `TryGet…` pattern. */
  datatype Option<T> = None | Some(value: T)
}

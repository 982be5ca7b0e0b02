/** The slice of Python's runtime that the certificate records and their
    collection rely on: the values an attribute can hold, Python's truth
    test, and the exceptions the core raises. */
module PyValues {

  datatype Option<T> = None | Some(value: T)

  /** The exceptions LR4.py raises or lets escape. */
  datatype PyError =
    | AttributeError(name: string)
    | ValueError
    | TypeError
    | IndexError
    | StopIteration

  /** A call that either returns a value or raises. */
  datatype Result<T> = Ok(value: T) | Err(error: PyError)

  /** A call whose only observable effect, besides state, is whether it raised. */
  datatype Outcome = Pass | Fail(error: PyError)

  /** The values a certificate attribute holds: None (an omitted keyword),
      a str (text typed in or read from a CSV cell) or a float (a stipend). */
  datatype Value = PyNone | PyStr(s: string) | PyFloat(x: real)

  /** Python's truth test on those values: None, the empty string and 0.0
      are false, everything else (a negative stipend included) is true. */
  predicate Truthy(v: Value)
  {
    match v
    case PyNone => false
    case PyStr(s) => s != ""
    case PyFloat(x) => x != 0.0
  }
}

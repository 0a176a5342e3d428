/** Optional values, results and the Python exceptions the firmware can raise.

    The firmware is written in MicroPython and signals failure by raising;
    every operation that can raise returns a `Result` here instead, whose
    failure side names the exception class.
 */
module Wrappers {

  datatype Option<+T> = None | Some(value: T) {

    /** The value, or `default` when there is none. */
    function GetOr(default: T): T {
      match this
      case Some(v) => v
      case None => default
    }
  }

  /** The exception classes raised by the modelled code. */
  datatype PyError =
    | ValueError
    | IndexError
    | TypeError
    | ZeroDivisionError
    | OverflowError
    | AttributeError
    /** What MicroPython raises for a local read before it is assigned. */
    | NameError
    | OSError(reason: string)
    /** The modem drivers' own `SIM800LError`. */
    | ModemError

  /** Either a value or the exception that was raised instead. */
  datatype Result<+T> = Ok(value: T) | Err(error: PyError) {

    predicate IsFailure() {
      Err?
    }

    function PropagateFailure<U>(): Result<U>
      requires Err?
    {
      Err(error)
    }

    function Extract(): T
      requires Ok?
    {
      value
    }
  }

  /** An Option as a Result that fails with `e` when the value is missing. */
  function Need<T>(o: Option<T>, e: PyError): (r: Result<T>)
    ensures r.Ok? <==> o.Some?
    ensures r.Ok? ==> r.value == o.value
    ensures r.Err? ==> r.error == e
  {
    match o
    case Some(v) => Ok(v)
    case None => Err(e)
  }
}

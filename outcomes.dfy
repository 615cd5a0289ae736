/** Optional values, results, and the Python exceptions that the brightness
    engine can raise (the model turns each raise into a `Failure`). */
module Outcomes {

  datatype Option<+T> = None | Some(value: T)

  /** The exceptions (and the one explicit exit) that the core can end with. */
  datatype Error =
    | ValueError          // int()/float() given text that is not a number, or time.sleep given a negative length
    | ZeroDivisionError   // a division by a zero maximum brightness or by a zero step count
    | IndexError          // indexing an empty string or an empty tuple
    | FileNotFoundError   // a directory listing or a device file that does not exist
    | SystemExit(status: int)  // sys.exit(status) after reporting an unknown controller
    | UnboundLocalError   // `target` read before any branch assigned it

  datatype Result<+T> = Success(value: T) | Failure(error: Error)
}

/** Failure-carrying values shared by every part of the model: the PHP code
    reports failures by throwing an Exception with a fixed message, which the
    model returns as an `Err` carrying one of the `Error` values below. */
module Wrappers {

  /** The exception messages thrown by the core, one constructor each. */
  datatype Error =
    | InvalidNumber         // sudoku.php: 'No (valid) number has been provided'
    | InvalidBorderLength   // sudoku.php: 'No valid value for the border length could be calculated'
    | InvalidNumericString  // calculator.php: 'No (valid) numeric string has been provided'
    | InvalidGameset        // calculator.php: 'A invalid numeric string has been provided'
    | GamesetTooLong        // calculator.php: 'The provided gameset is longer than the board'
    | NoSolution            // calculator.php: 'No solutions could be found for the provided gameset'
    | UnknownNumber         // generator.php: 'A unknown number has been provided'
    | InvalidInput          // generator.php: 'No (valid) input given to convert'

  datatype Option<+T> = None | Some(value: T)

  /** Either a value or the exception that was thrown instead. */
  datatype Result<+T> = Ok(value: T) | Err(error: Error) {

    predicate IsFailure() {
      Err?
    }

    function PropagateFailure<U>(): Result<U>
      requires Err?
    {
      Err(error)
    }

    function Extract(): T
      requires Ok?
    {
      value
    }
  }
}

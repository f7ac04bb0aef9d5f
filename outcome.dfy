/** The optional values and error outcomes the board model and its solvers return. */
module Outcome {

  datatype Option<T> = None | Some(value: T)

  /** The exceptions the source raises, one constructor per raise site family. */
  datatype Error =
    | RowOutOfRange     // Cell row setter: AttributeError
    | ColOutOfRange     // Cell col setter: AttributeError
    | ValueOutOfRange   // Cell value setter: AttributeError
    | IndexOutOfRange   // indexing a grid row or entry that does not exist: IndexError
    | Incomplete        // check_sudoku on a board with an empty cell: ValueError

  datatype Result<T> = Ok(value: T) | Err(error: Error)

  /** The outcome of a search loop that is run for a bounded number of iterations. */
  datatype Verdict = Solved | Failed | OutOfFuel
}

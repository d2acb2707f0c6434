/** The errors a run can end with, and a result that carries either a value
    or one of them. */
module Outcome {

  datatype Error =
    | EmptyInputDirectory   // ValueError "Input directory is empty."
    | NotTwoFiles           // ValueError "Input directory should contain 2 files only."
    | ZeroDivision          // ZeroDivisionError from `hash % 0`

  datatype Result<+T> = Success(value: T) | Failure(error: Error)
}

/** What the cruncher's helpers hand back when the Python code may return
    nothing or end in an exception: `Option` for "a value or `None`", and
    `Result` for "a value, or the error the stage stopped with". */
module Outcomes {

  datatype Option<T> = None | Some(value: T)

  datatype Result<T, E> = Success(value: T) | Failure(error: E)
}

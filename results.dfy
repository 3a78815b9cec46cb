/** The Python exceptions that the modelled code can raise, and the
    wrappers through which the model reports them instead of raising. */
module Results {

  /** Exceptions raised by the modelled functions. */
  datatype Error =
    | ZeroDivisionError   // `1 / n` with `n == 0` in `rainbow`
    | IndexError          // `file[i+1]` past the last line in `add_svg_style`

  datatype Option<+T> = None | Some(value: T)

  datatype Result<+T> = Success(value: T) | Failure(error: Error)

  datatype Outcome = Pass | Fail(error: Error)
}

/** The subset of ReadStat's `readstat_error_t` and handler return codes that
    the modelled C code produces. */
module ReadstatErrors {

  /** `readstat_error_t`: `READSTAT_OK` and the two failures raised here. */
  datatype ReadstatError = ReadstatOk | ErrorBadMrString | ErrorUserAbort

  /** The return code of the I/O open and close handlers. */
  datatype HandlerStatus = HandlerOk

  /** A success value or an error code, for functions whose C counterpart fills
      an out-parameter only on success. */
  datatype Result<+T> = Ok(value: T) | Err(error: ReadstatError) {
    predicate IsFailure() { Err? }

    function PropagateFailure<U>(): Result<U>
      requires Err?
    {
      Err(error)
    }

    function Extract(): T
      requires Ok?
    {
      value
    }
  }
}

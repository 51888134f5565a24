// Result codes and optional values. `NotReclaimed` is the one warning, a success in all but the
// memory returned.
module Results {
  datatype Option<T> = None | Some(value: T)

  datatype Result =
    | Success
    | NotReclaimed
    | NotInitialized
    | InvalidParam
    | InvalidState
    | ArithmeticOverflow
    | OutOfMemory
    | ResourceExhausted
    | SizeExceed
    | DecodeFailed
}

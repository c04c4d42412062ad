/** Failure-compatible wrappers used by every decoder.

    A Java method of the protocol code either returns a value, returns `null`,
    or throws. The model writes the first two as `Ok(Some(v))` / `Ok(None)`
    (where `null` is a legitimate answer) and the third as `Fail(e)`, with `e`
    naming which check or which library call threw. */
module Results {

  datatype Option<+T> = None | Some(value: T)

  /** Why a decode attempt was abandoned: the exceptions the Java code throws
      explicitly, and the runtime exceptions its library calls raise. */
  datatype Error =
    | NoData                                  // CreateFromBytes(null)
    | TooLittleData                           // fewer than 13 bytes
    | MissingStartSignature                   // bytes [0,3) are not "APS"
    | UnsupportedCommandGroup(group: string)  // bytes [3,5) are neither "11" nor "12"
    | SizeMismatch(given: int, header: int)   // buffer shorter than the declared length
    | MissingEndSignature                     // "END\n" not where the length says
    | NotImplemented                          // command 4, energy of a period
    | InvalidCommandCode(code: string)        // any other unknown command code
    | NumberFormat(text: string)              // Integer.parseInt rejected the text
    | IndexOutOfBounds(index: int)            // array or string index out of range
    | IllegalRange(from: int, to: int)        // Arrays.copyOfRange with from > to
    | DateTimeParse(text: string)             // LocalDateTime.parse rejected the text

  datatype Result<+T> = Ok(value: T) | Fail(error: Error) {

    predicate IsFailure() {
      Fail?
    }

    function PropagateFailure<U>(): Result<U>
      requires Fail?
    {
      Fail(error)
    }

    function Extract(): T
      requires Ok?
    {
      value
    }
  }
}

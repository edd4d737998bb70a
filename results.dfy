/** Result codes of the public API and of the interpreter, and an optional
    value for the functions that return a pointer or NULL. */
module Results {

  datatype Option<T> = None | Some(value: T)

  /** `mango_result`. The numeric values are defined in the public header,
      which is not part of this model; only the distinctions matter here. */
  datatype Code =
    | Success
    | Syscall                 // a yield, not a fault
    | ArgumentNull
    | Argument
    | InvalidOperation
    | OutOfMemory
    | BadImageFormat
    | NotSupported
    | Verification
    | StackOverflow
    | StackImbalance
    | Security
    | InvalidProgram
    | DivideByZero
    | NullReference
    | IndexOutOfRange
    | Breakpoint
}

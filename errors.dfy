/** The failures a run can end with. The source returns
    `Box<dyn Error>`; the model keeps the concrete cause. */
module Errors {
  /** `InterpreterError` (src/interpreter_error.rs), used by the Brainfuck parser. */
  datatype InterpreterError =
    | AddingOverflow
    | CommandLine
    | NoLoopEnd
    | SubtractionOverflow
    | UnexpectedInstruction
    | UnexpectedLoopEnd

  /** `InterpErr` (src/interp_err.rs), used by the checked tape. */
  datatype InterpErr =
    | AddOvflw
    | CmdLn
    | NoLpEn
    | SubOvflw
    | UnexpInst
    | UnexpLpEn

  /** What `read_exact` reports when standard input has no byte left. */
  datatype IoError = UnexpectedEof

  /** What a debug build of Rust panics with on an unchecked operation. */
  datatype PanicKind =
    | AddWithOverflow
    | SubtractWithOverflow
    | IndexOutOfBounds

  datatype Error =
    | Interpreter(interpreter: InterpreterError)
    | Interp(interp: InterpErr)
    | Io(io: IoError)
    | Panic(panic: PanicKind)

  /** `Result<()>`: success carries no value. */
  datatype Outcome = Pass | Fail(error: Error)

  /** `Result<T>` for the operations that return a value. */
  datatype Result<+T> = Ok(value: T) | Err(error: Error)
}

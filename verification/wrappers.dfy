/** Failure-carrying wrappers shared by the whole model.

    `Option` stands for a Java/Kotlin nullable reference; `Result` for a
    computation that may end in one of the exceptions the optimiser throws. */
module Wrappers {

  datatype Option<+T> = None | Some(value: T)

  /** The exceptions the modelled code can raise, one per distinct `throw`. */
  datatype Error =
    | InternalError          // `throw new Error("Internal error")`
    | IllegalLdcConstant     // `IllegalArgumentException("Illegal LDC constant ...")`
    | InvalidArrayType       // `AnalyzerException(insn, "Invalid array type")`
    | UnexpectedVarOperation // `AssertionError("Unexpected var operation: ...")`

  datatype Result<+T> = Ok(value: T) | Fail(error: Error)
}

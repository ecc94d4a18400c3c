/** What operations return when they may not succeed. */
module Outcomes {

  datatype Option<T> = None | Some(value: T)

  /** The errors of crates/bellman/src/cs.rs that the modelled operations return. */
  datatype SynthesisError =
    | AssignmentMissing
    | PolynomialDegreeTooLarge
    | UnexpectedEof
    | UnexpectedIdentity
    | UnconstrainedVariable

  datatype Result<T> = Ok(value: T) | Err(error: SynthesisError)
}

/** Results of operations: optional values, and the three ways a call can end. */
module Outcomes {

  datatype Option<+T> = None | Some(value: T)

  /** `Ok` and `Err` are the two sides of a Rust `Result`; `Panic` is a run that an
      out-of-range index (or an `unwrap` of an error) stops. */
  datatype Outcome<+T, +E> = Ok(value: T) | Err(error: E) | Panic
  {
    predicate IsFailure() {
      !Ok?
    }

    function PropagateFailure<U>(): Outcome<U, E>
      requires IsFailure()
    {
      match this
      case Err(e) => Err(e)
      case Panic => Panic
    }

    function Extract(): T
      requires Ok?
    {
      value
    }

    /** The same outcome with its error wrapped, as `map_err` does. */
    function MapErr<F>(wrap: E -> F): Outcome<T, F> {
      match this
      case Ok(v) => Ok(v)
      case Err(e) => Err(wrap(e))
      case Panic => Panic
    }
  }

  datatype AegisError =
    | Argon2
    | Hkdf
    | AeadSeal
    | AeadOpen
    | SlotUnseal
    | NoSlotUnsealed
    | LastSlotRevocation
    | SlotTableFull(max: nat)
    | HeaderIntegrity
    | VolumeMismatch
    | Serialization

  type Result<+T> = Outcome<T, AegisError>
}

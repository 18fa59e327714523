/**
 * Code the core calls but whose text is not part of this model, taken as
 * parameters: the numeric coercions of the repository's `utils` module and
 * near_primitives' account-id validation. Database numeric columns reach
 * them as their decimal text.
 */
module Collaborators {
  import opened Wrappers
  import opened Integers
  import opened Errors

  /** `utils::to_u64`, `utils::to_u128` and `utils::string_to_i128`: each may fail with an error. */
  datatype Utils = Utils(
    toU64: string -> Result<u64, Error>,
    toU128: string -> Result<u128, Error>,
    stringToI128: string -> Result<i128, Error>)

  /**
   * `AccountId::from_str`: `valid` tells which strings are account ids (a
   * valid id keeps its text); `error` is the error a rejected string turns
   * into through `From<T> for Error`.
   */
  datatype AccountIds = AccountIds(valid: string -> bool, error: string -> Error)
}

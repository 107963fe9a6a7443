/** Shared result types for the embed generator model. */
module Common {

  datatype Option<+T> = None | Some(value: T)

  /** The outcome of a Python step that may raise instead of returning. */
  datatype Result<+T, +E> = Ok(value: T) | Err(error: E)

  /** The `ValueError` Python raises when tuple unpacking gets the wrong
      number of values: `a, b = xs` with one element gives
      NotEnoughValues(2, 1); with more than two gives TooManyValues(2). */
  datatype ValueError =
    | NotEnoughValues(expected: nat, got: nat)
    | TooManyValues(expected: nat)
}

/** Shared value types of the erasure-coding model: the optional value, the
    result of an operation that can fail, and the crate's error enumeration. */
module Types {

  datatype Option<+T> = None | Some(value: T)

  datatype Result<+R> = Success(value: R) | Failure(error: Error)

  /** The errors the erasure-coding functions report. */
  datatype Error =
    | TooManyValidators
    | EmptyValidators
    | WrongValidatorCount
    | NotEnoughChunks
    | TooManyChunks
    | NonUniformChunks
    | UnevenLength
    | ChunkIndexOutOfBounds(index: nat, nValidators: nat)
    | BadPayload
    | InvalidBranchProof
    | BranchOutOfBounds

  function Min(a: nat, b: nat): (m: nat)
    ensures m <= a && m <= b && (m == a || m == b)
  {
    if a <= b then a else b
  }
}

/** Types shared by every part of the model. */
module Primitives {

  newtype byte = x: int | 0 <= x < 256

  type Bytes = seq<byte>

  /** A digest. It is a number of unbounded size, so that functions into it can be collision free. */
  type Hash = nat

  /** The all-zero digest. */
  const ZERO_HASH: Hash := 0

  datatype Option<+T> = None | Some(value: T)

  /** The outcome of a fallible operation that returns nothing on success. */
  datatype Outcome<+E> = Ok | Err(error: E)

  datatype Result<+T, +E> = Success(value: T) | Failure(error: E)

  /** `small` is a part of `big`. */
  ghost predicate SubMap<K, V>(small: map<K, V>, big: map<K, V>) {
    forall k :: k in small ==> k in big && big[k] == small[k]
  }
}

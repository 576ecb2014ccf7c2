/** Results of operations that can fail. */
module Outcomes {

  /** The outcome of a board operation that indexes its cell vector: either the new
      value, or the panic Rust raises when `index` is not below the vector's length. */
  datatype Result<T> = Ok(value: T) | Panic(index: nat, len: nat)
}

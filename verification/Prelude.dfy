/** Shared value types. */
module Prelude {

  datatype Option<+T> = None | Some(value: T)

  /** Instants are nanoseconds since the Unix epoch, in UTC. */
  type Time = int

  const SECOND: int := 1_000_000_000
  const MINUTE: int := 60_000_000_000

  function Min(a: int, b: int): int {
    if a <= b then a else b
  }

  function Max(a: int, b: int): int {
    if a >= b then a else b
  }
}

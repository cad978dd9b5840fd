/** What several parts of the database share. */
module Database {
  datatype Option<+T> = None | Some(value: T)

  /** The process that makes a call. */
  datatype Caller = Caller(proc: nat, admin: bool)

  /** Size of the base data every object starts with. */
  const BASE: nat := 24

  /** Seconds from a to b, which are in nanoseconds. */
  function Since(a: int, b: int): real {
    (b - a) as real / 1000000000.0
  }
}

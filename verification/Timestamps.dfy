/** 64-bit timestamps as the two 32-bit halves that the database copies one at a time. */
module Timestamps {
  const HALF: nat := 0x1_0000_0000

  type Timestamp = nat

  function Hi(ts: Timestamp): nat { ts / HALF }

  function Lo(ts: Timestamp): nat { ts % HALF }

  function Join(hi: nat, lo: nat): Timestamp { hi * HALF + lo }

  lemma JoinHalves(ts: Timestamp)
    ensures Join(Hi(ts), Lo(ts)) == ts
  {}

  lemma HiMonotone(x: Timestamp, y: Timestamp)
    requires x <= y
    ensures Hi(x) <= Hi(y)
  {}
}

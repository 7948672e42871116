/** The system clock, in nanoseconds. Every reading may find that time has passed. */
module Clocks {
  const SECOND: nat := 1_000_000_000

  class Clock {
    var now: int

    method Read() returns (t: int)
      modifies this
      ensures old(now) <= t == now
    {
      var passed: int :| passed >= 0;
      now := now + passed;
      t := now;
    }
  }
}

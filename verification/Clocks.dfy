/** The monotonic clock by which deadlines are kept. */
module Clocks {

  /** Clocks count nanoseconds. */
  const MILLISECOND: nat := 1_000_000

  class Clock {
    var time: nat

    constructor ()
    {
      time := 0;
    }

    /** Any time may have passed since the clock was last looked at. */
    method Now() returns (now: nat)
      modifies this
      ensures now == time > old(time)
    {
      var passed: int := *;
      time := time + if passed > 0 then passed else 1;
      return time;
    }
  }
}

/*
 * The `StopWatch` class of bitcount.cpp: two microsecond timestamps, set by
 * `Start` and `Stop`, and their guarded difference. The wall clock
 * (`NowMicroseconds`, a wrapper over `gettimeofday`) is not modelled; each
 * setter takes the reading it would have stored as a parameter.
 */
module Timing {
  /** `unsigned long` on an LP64 platform. */
  newtype ULong = x: int | 0 <= x < 0x1_0000_0000_0000_0000

  class StopWatch {
    var start: ULong
    var stop: ULong

    /** Both timestamps start at zero, so nothing has elapsed yet. */
    constructor ()
      ensures start == 0 && stop == 0
      ensures ElapsedMicrosec() == 0
    {
      start := 0;
      stop := 0;
    }

    /** Records the start time; the stop time is left as it was. */
    method Start(now: ULong)
      modifies this
      ensures start == now && stop == old(stop)
    {
      start := now;
    }

    /** Records the stop time; the start time is left as it was. */
    method Stop(now: ULong)
      modifies this
      ensures stop == now && start == old(start)
    {
      stop := now;
    }

    /**
     * Microseconds between the two timestamps, or zero when the stop time
     * is not after the start time: the unsigned subtraction never wraps.
     */
    function ElapsedMicrosec(): (r: ULong)
      reads this
      ensures r <= stop
      ensures r == 0 <==> stop <= start
      ensures r != 0 ==> start as int + r as int == stop as int
    {
      if stop > start then stop - start else 0
    }
  }

  /**
   * The timing around a benchmark run: a fresh watch is started at `t0` and
   * stopped at `t1`, and the elapsed time is read back. What runs in between
   * does not touch the watch.
   */
  method TimeRun(t0: ULong, t1: ULong) returns (elapsed: ULong)
    ensures t0 <= t1 ==> elapsed as int == t1 as int - t0 as int
    ensures t1 < t0 ==> elapsed == 0
  {
    var sw := new StopWatch();
    sw.Start(t0);
    sw.Stop(t1);
    elapsed := sw.ElapsedMicrosec();
  }
}

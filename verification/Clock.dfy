/** Times and clock indices of the timer's crystal, and how the two conversions undo each other. */
module Clocks {
  import opened Times

  const INPUT_HZ := 1_193_182

  function ClocksAt(time: nat): nat {
    time * INPUT_HZ / NANOS
  }

  // Whole seconds and rounded-up nanoseconds; the latter never reach a full second.
  function TimeAt(clocks: nat): nat {
    clocks / INPUT_HZ * NANOS + (clocks % INPUT_HZ * NANOS + INPUT_HZ - 1) / INPUT_HZ
  }

  lemma NanosecondsStayBelowSecond(clocks: nat)
    ensures (clocks % INPUT_HZ * NANOS + INPUT_HZ - 1) / INPUT_HZ < NANOS
  {}

  /** Every whole second holds exactly INPUT_HZ clocks, wherever it begins. */
  lemma SecondHasClocks(seconds: nat, nanoseconds: nat)
    ensures ClocksAt(seconds * NANOS + nanoseconds) == seconds * INPUT_HZ + ClocksAt(nanoseconds)
  {
    var part := nanoseconds * INPUT_HZ;
    assert (seconds * NANOS + nanoseconds) * INPUT_HZ == seconds * INPUT_HZ * NANOS + part;
    assert (seconds * INPUT_HZ * NANOS + part) / NANOS == seconds * INPUT_HZ + part / NANOS;
  }

  /** The time of a clock is the first nanosecond at which it has completed. */
  lemma FirstNanosecond(time: nat, clocks: nat)
    ensures ClocksAt(time) >= clocks <==> time >= TimeAt(clocks)
  {
    var seconds, part := clocks / INPUT_HZ, clocks % INPUT_HZ;
    assert clocks == seconds * INPUT_HZ + part;
    var rounded := (part * NANOS + INPUT_HZ - 1) / INPUT_HZ;
    assert (rounded - 1) * INPUT_HZ < part * NANOS <= rounded * INPUT_HZ;
    assert ClocksAt(time) >= clocks <==> time * INPUT_HZ >= clocks * NANOS;
  }

  /** No rounding accumulates: every clock index survives the trip through its time. */
  lemma ClockRoundTrip(clocks: nat)
    ensures ClocksAt(TimeAt(clocks)) == clocks
  {
    FirstNanosecond(TimeAt(clocks), clocks);
    FirstNanosecond(TimeAt(clocks), clocks + 1);
    LaterClockLaterTime(clocks);
  }

  lemma LaterClockLaterTime(clocks: nat)
    ensures TimeAt(clocks) < TimeAt(clocks + 1)
  {
    FirstNanosecond(TimeAt(clocks + 1), clocks + 1);
    var early := TimeAt(clocks + 1) - 1;
    assert early * INPUT_HZ + INPUT_HZ == TimeAt(clocks + 1) * INPUT_HZ;
    FirstNanosecond(early, clocks);
  }

  lemma ClocksMonotone(earlier: nat, later: nat)
    requires earlier <= later
    ensures ClocksAt(earlier) <= ClocksAt(later)
  {}
}

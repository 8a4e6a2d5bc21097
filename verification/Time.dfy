/** Nanosecond time, and the rising sequences of times at which devices are serviced. */
module Times {

  const NANOS := 1_000_000_000

  ghost predicate Rising(at: nat, times: seq<nat>)
    decreases |times|
  {
    times == [] || (at <= times[0] && Rising(times[0], times[1..]))
  }

  lemma {:induction false} RisingLast(at: nat, times: seq<nat>)
    requires Rising(at, times) && times != []
    ensures at <= times[|times| - 1]
    decreases |times|
  {
    if |times| > 1 {
      RisingLast(times[0], times[1..]);
    }
  }
}

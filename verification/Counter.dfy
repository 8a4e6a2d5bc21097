/** The binary 8254 counter: the closed-form `advance` of crates/pit/src/lib.rs,
    proved against a counter that moves one input clock at a time. */
module Counters {
  import opened Wrappers
  import opened Machine
  import opened Arithmetic

  /** The registers of one counter at one instant. */
  datatype State = State(
    control: Byte,
    gate: bool,
    reload: nat,
    active: nat,
    phase: nat,
    loading: bool,
    nullCount: bool,
    writeLow: Option<Byte>,
    readHigh: bool,
    latchedCount: Option<Word>,
    latchedStatus: Option<Byte>)
  {
    /** What every sequence of register writes, gate changes and clocks keeps. */
    ghost predicate Valid() {
      && control < 64
      && reload <= TWO_16
      && active != 1 && active <= TWO_16
      && (if active == 0 then phase == 0 else phase < active)
      && (loading || active != 0 ==> reload != 0)
    }

    // Access format: 0 none, 1 low byte, 2 high byte, 3 low then high.
    function Access(): nat { control / 16 % 4 }

    function Mode(): Option<nat> {
      var mode := control / 2 % 4;
      if control % 2 == 0 && (mode == 2 || mode == 3) then Some(mode) else None
    }

    // Clocks of each period during which OUT is high.
    function HighClocks(): nat {
      if Mode() == Some(3) then (active + 1) / 2
      else if active == 0 then 0 else active - 1
    }

    predicate Output() {
      Mode().Some? && (!gate || loading || active == 0 || phase < HighClocks())
    }

    // Whether a clock changes anything at all.
    predicate Running() {
      Mode().Some? && gate && active != 0
    }

    // Count 1 is invalid in both supported modes and stops the counter.
    function Load(): State {
      this.(active := if reload >= 2 then reload else 0, nullCount := false)
    }

    // Where a pending divisor takes effect: mode 3 reloads at either half-period.
    function ReloadBoundary(): nat {
      if Mode() == Some(3) && phase < HighClocks() then HighClocks() else active
    }

    function Count(): Word
      requires Valid()
    {
      if Mode() == Some(2) then
        (active - phase) % TWO_16
      else if active == 0 then
        0
      else
        var halfPhase := if phase < HighClocks() then phase else phase - HighClocks();
        var full := active - active % 2;
        (if full < 2 * halfPhase then 0 else full - 2 * halfPhase) % TWO_16
    }

    function Status(): Byte
      requires Valid()
    {
      control + (if nullCount then 64 else 0) + (if Output() then 128 else 0)
    }

    function ControlWord(value: Byte): (after: State)
      requires Valid()
      ensures after.Valid()
    {
      if value / 16 % 4 == 0 then
        Latch(true, false)
      else
        POWER_UP.(control := value % 64, gate := gate, nullCount := true)
    }

    function Divisor(count: Word): State {
      this.(reload := if count == 0 then TWO_16 else count, nullCount := true,
            loading := loading || active == 0)
    }

    function Write(value: Byte): (after: State)
      ensures Valid() ==> after.Valid()
    {
      if Access() == 1 then Divisor(value)
      else if Access() == 2 then Divisor(value * 0x100)
      else if Access() != 3 then this
      else if writeLow.None? then this.(writeLow := Some(value))
      else this.(writeLow := None).Divisor(LittleEndian(writeLow.value, value))
    }

    function Latch(count: bool, status: bool): (after: State)
      requires Valid()
      ensures after.Valid()
    {
      this.(latchedCount := if count && latchedCount.None? then Some(Count()) else latchedCount,
            latchedStatus := if status && latchedStatus.None? then Some(Status()) else latchedStatus)
    }

    // The byte read and the registers it leaves.
    function Read(): (after: (State, Byte))
      requires Valid()
      ensures after.0.Valid()
    {
      match latchedStatus
      case Some(status) => (this.(latchedStatus := None), status)
      case None =>
        var count := if latchedCount.Some? then latchedCount.value else Count();
        var high := Access() == 2 || (Access() == 3 && readHigh);
        var more := Access() == 3 && !readHigh;
        (this.(readHigh := more, latchedCount := if more then latchedCount else None),
         if high then High(count) else Low(count))
    }

    function SetGate(high: bool): (after: State)
      ensures Valid() ==> after.Valid()
    {
      this.(gate := high, loading := loading || (high && !gate && reload != 0))
    }

    /** How soon something happens: a load, or OUT changing. None while clocks change nothing. */
    function NextTransition(): (clocks: Option<nat>)
      requires Valid()
    {
      if Mode().None? || !gate then None
      else if loading then Some(1)
      else if active == 0 then None
      else
        var boundary := if phase < HighClocks() then HighClocks() else active;
        Some(boundary - phase)
    }

    /** One input clock, as the data sheet describes it. */
    function Step(): State {
      if loading then
        Load().(phase := 0, loading := false)
      else if !Running() then
        this
      else if nullCount && phase + 1 == ReloadBoundary() then
        var loaded := Load();
        // A new high half starts at the end of the period, a low one otherwise.
        loaded.(phase := if ReloadBoundary() == active then 0 else loaded.HighClocks())
      else
        this.(phase := if phase + 1 == active then 0 else phase + 1)
    }
  }

  const POWER_UP := State(0, false, 0, 0, 0, false, false, None, false, None, None)

  // ----- one clock at a time

  ghost function Steps(s: State, n: nat): State
    decreases n
  {
    if n == 0 then s else Steps(s.Step(), n - 1)
  }

  /** Of the next n clock intervals, those during which OUT is high. */
  ghost function HighTime(s: State, n: nat): nat
    decreases n
  {
    if n == 0 then 0 else (if s.Output() then 1 else 0) + HighTime(s.Step(), n - 1)
  }

  lemma StepValid(s: State)
    requires s.Valid()
    ensures s.Step().Valid()
  {
    if !s.loading && s.Running() && s.nullCount && s.phase + 1 == s.ReloadBoundary() {
      var loaded := s.Load();
      assert loaded.active != 0 ==> loaded.HighClocks() < loaded.active;
    }
  }

  lemma {:induction false} StepsValid(s: State, n: nat)
    requires s.Valid()
    ensures Steps(s, n).Valid()
    decreases n
  {
    if n != 0 {
      StepValid(s);
      StepsValid(s.Step(), n - 1);
    }
  }

  lemma {:induction false} StepsAdd(s: State, a: nat, b: nat)
    ensures Steps(s, a + b) == Steps(Steps(s, a), b)
    ensures HighTime(s, a + b) == HighTime(s, a) + HighTime(Steps(s, a), b)
    decreases a
  {
    if a != 0 {
      StepsAdd(s.Step(), a - 1, b);
      assert a + b - 1 == a - 1 + b;
    }
  }

  lemma {:induction false} HighTimeBound(s: State, n: nat)
    ensures HighTime(s, n) <= n
    ensures n != 0 && s.Output() ==> HighTime(s, n) >= 1
    ensures n != 0 && !s.Output() ==> HighTime(s, n) <= n - 1
    decreases n
  {
    if n != 0 {
      HighTimeBound(s.Step(), n - 1);
    }
  }

  // ----- closed forms

  lemma {:induction false} StoppedSteps(s: State, n: nat)
    requires !s.loading && !s.Running()
    ensures Steps(s, n) == s
    ensures HighTime(s, n) == if s.Output() then n else 0
  {
    if n != 0 {
      StoppedSteps(s, n - 1);
    }
  }

  // High clocks among the first `end` clocks of a periodic counter.
  ghost function PeriodicHigh(period: nat, high: nat, end: nat): nat
    requires period > 0
    decreases end
  {
    if end < period then Min(end, high) else high + PeriodicHigh(period, high, end - period)
  }

  // The source's quotient and remainder compute both in one step.
  lemma {:induction false} PeriodicHighDivided(period: nat, high: nat, end: nat)
    requires period > 0
    ensures end % period == Part(period, end)
    ensures end / period * high + Min(end % period, high) == PeriodicHigh(period, high, end)
    decreases end
  {
    if end < period {
      ModSmall(end, period);
    } else {
      PeriodicHighDivided(period, high, end - period);
      DivModAdd(end - period, period);
      MulSuccessor((end - period) / period, high);
    }
  }

  lemma {:induction false} PeriodicHighBound(period: nat, high: nat, start: nat, n: nat)
    requires high < period && start < period
    ensures Min(start, high) <= PeriodicHigh(period, high, start + n) <= Min(start, high) + n
    decreases n
  {
    if start + n >= 2 * period {
      PeriodicHighBound(period, high, start, n - period);
    }
  }

  // While no reload is due, a running counter is a free-running phase.
  lemma {:induction false} PeriodicSteps(s: State, n: nat)
    requires s.Valid() && s.Running() && !s.loading
    requires s.nullCount ==> n < s.ReloadBoundary() - s.phase
    ensures Steps(s, n) == s.(phase := Part(s.active, s.phase + n))
    ensures HighTime(s, n) == PeriodicHigh(s.active, s.HighClocks(), s.phase + n) - Min(s.phase, s.HighClocks())
    decreases n
  {
    if n != 0 {
      PeriodicStep(s);
      PeriodicSteps(s.Step(), n - 1);
    }
  }

  // Short of a pending reload, one clock moves the phase within its period.
  lemma PeriodicStep(s: State)
    requires s.Valid() && s.Running() && !s.loading
    requires s.nullCount ==> 1 < s.ReloadBoundary() - s.phase
    ensures s.Step() == s.(phase := if s.phase + 1 == s.active then 0 else s.phase + 1)
    ensures s.Step().Valid() && s.Step().Running() && s.Step().HighClocks() == s.HighClocks()
    ensures s.nullCount ==> s.Step().ReloadBoundary() == s.ReloadBoundary()
    ensures s.Output() <==> s.phase < s.HighClocks()
    ensures s.phase < s.active && s.HighClocks() <= s.active
  {}

  lemma OneStep(s: State)
    ensures Steps(s, 1) == s.Step()
    ensures HighTime(s, 1) == if s.Output() then 1 else 0
  {
    assert Steps(s.Step(), 0) == s.Step();
    assert HighTime(s.Step(), 0) == 0;
  }

  // One clock short of the boundary the pending divisor is still invisible.
  lemma BeforeReload(s: State, before: nat)
    requires s.Valid() && s.Running() && !s.loading && s.nullCount
    requires before == s.ReloadBoundary() - s.phase - 1
    ensures Steps(s, before) == s.(phase := s.phase + before)
    ensures HighTime(s, before) == Min(s.phase + before, s.HighClocks()) - Min(s.phase, s.HighClocks())
  {
    PeriodicSteps(s, before);
  }

  lemma ThenOneStep(s: State, before: nat, last: State)
    requires Steps(s, before) == last
    ensures Steps(s, before + 1) == last.Step()
    ensures HighTime(s, before + 1) == HighTime(s, before) + if last.Output() then 1 else 0
  {
    StepsAdd(s, before, 1);
    OneStep(last);
  }

  // The state that a due reload leaves at its boundary.
  ghost function Reloaded(s: State): State {
    s.Load().(phase := if s.ReloadBoundary() == s.active then 0 else s.Load().HighClocks())
  }

  lemma ReloadedRuns(s: State)
    ensures var after := Reloaded(s);
            after.loading == s.loading && after.gate == s.gate && after.Mode() == s.Mode() && !after.nullCount
  {}

  // The clock that reaches the boundary loads it.
  lemma ReloadClock(s: State, before: nat)
    requires s.Valid() && s.Running() && !s.loading && s.nullCount
    requires before == s.ReloadBoundary() - s.phase - 1
    ensures var last := s.(phase := s.phase + before);
            && last.Step() == Reloaded(s)
            && (if last.Output() then 1 else 0) == s.HighClocks() - Min(s.phase + before, s.HighClocks())
  {}

  lemma BoundaryAhead(s: State)
    requires s.Valid() && s.Running()
    ensures s.phase < s.ReloadBoundary() <= s.active <= TWO_16
  {}

  lemma ReloadSteps(s: State, until: nat)
    requires s.Valid() && s.Running() && !s.loading && s.nullCount
    requires until == s.ReloadBoundary() - s.phase && until > 0
    ensures Steps(s, until) == Reloaded(s)
    ensures HighTime(s, until) == s.HighClocks() - Min(s.phase, s.HighClocks())
  {
    var before: nat := until - 1;
    BeforeReload(s, before);
    ThenOneStep(s, before, s.(phase := s.phase + before));
    ReloadClock(s, before);
  }

  lemma PeriodicHighAtBoundary(s: State)
    requires s.Valid() && s.active != 0
    ensures PeriodicHigh(s.active, s.HighClocks(), s.ReloadBoundary()) == s.HighClocks()
  {}

  // ----- edges of OUT

  ghost predicate RisesAt(s: State, k: nat) {
    k >= 1 && !Steps(s, k - 1).Output() && Steps(s, k).Output()
  }

  /** OUT is low after k - 1 clocks, high after k, and never rose before. */
  ghost predicate FirstRise(s: State, k: nat) {
    RisesAt(s, k) && forall j: nat :: j < k ==> !RisesAt(s, j)
  }

  ghost predicate NeverRises(s: State) {
    forall k: nat :: !RisesAt(s, k)
  }

  /** OUT keeps its level up to the next transition. */
  lemma SteadyUntilTransition(s: State, k: nat)
    requires s.Valid() && s.NextTransition().Some? && k < s.NextTransition().value
    ensures Steps(s, k).Output() == s.Output()
  {
    if !s.loading {
      PeriodicSteps(s, k);
    }
  }

  /** A transition is a load, a change of OUT or the stop of an invalid divisor. */
  lemma AtTransition(s: State)
    requires s.Valid() && s.NextTransition().Some?
    ensures var after := Steps(s, s.NextTransition().value);
            && !after.loading && after.gate && after.Mode() == s.Mode()
            && (s.loading ==> after.Output())
            && (!s.loading ==> after.Output() != s.Output() || (s.Output() && after.active == 0))
  {
    if s.loading {
      OneStep(s);
      assert s.Load().active != 0 ==> s.Load().HighClocks() > 0;
    } else if s.nullCount && s.NextTransition().value == s.ReloadBoundary() - s.phase {
      ReloadSteps(s, s.NextTransition().value);
    } else {
      PeriodicSteps(s, s.NextTransition().value);
    }
  }

  lemma {:induction false} SteadyForever(s: State, k: nat)
    requires s.Valid() && s.NextTransition().None?
    ensures Steps(s, k).Output() == s.Output()
    decreases k
  {
    if k != 0 {
      StepValid(s);
      SteadyForever(s.Step(), k - 1);
    }
  }

  lemma NoTransitionNoRise(s: State)
    requires s.Valid() && s.NextTransition().None?
    ensures NeverRises(s)
  {
    forall k: nat ensures !RisesAt(s, k) {
      SteadyForever(s, k);
      if k >= 1 { SteadyForever(s, k - 1); }
    }
  }

  // Edges seen from a later state are the edges seen now, that much later.
  lemma RiseShifts(s: State, clocks: nat, k: nat)
    requires k >= 1
    ensures RisesAt(Steps(s, clocks), k) == RisesAt(s, clocks + k)
  {
    StepsAdd(s, clocks, k);
    StepsAdd(s, clocks, k - 1);
  }

  // Up to and including its next transition OUT rises at most there.
  lemma OnlyRiseAtTransition(s: State, k: nat)
    requires s.Valid() && s.NextTransition().Some? && k <= s.NextTransition().value
    ensures RisesAt(s, k) <==> k == s.NextTransition().value && !s.Output() && Steps(s, k).Output()
  {
    if k >= 1 {
      SteadyUntilTransition(s, k - 1);
      if k < s.NextTransition().value {
        SteadyUntilTransition(s, k);
      }
    }
  }

  // Advances the window known to hold no rising edge past one transition.
  lemma NoRiseThroughTransition(s: State, clocks: nat)
    requires forall j: nat :: j <= clocks ==> !RisesAt(s, j)
    requires var now := Steps(s, clocks);
             && now.Valid() && now.NextTransition().Some?
    ensures var now := Steps(s, clocks); var until := now.NextTransition().value;
            && (!now.Output() && Steps(now, until).Output() ==> FirstRise(s, clocks + until))
            && (now.Output() || !Steps(now, until).Output() ==>
                  forall j: nat :: j <= clocks + until ==> !RisesAt(s, j))
  {
    var now := Steps(s, clocks);
    var until := now.NextTransition().value;
    forall j: nat | clocks < j <= clocks + until
      ensures RisesAt(s, j) <==> j == clocks + until && !now.Output() && Steps(now, until).Output()
    {
      RiseShifts(s, clocks, j - clocks);
      OnlyRiseAtTransition(now, j - clocks);
    }
  }

  // Transitions left before the next rising edge: a load, a fall and a rise.
  ghost function EdgeRank(s: State): nat {
    if s.loading then 3 else if s.Output() then 2 else 1
  }

  lemma EdgeRankFalls(s: State)
    requires s.Valid() && s.NextTransition().Some?
    ensures var after := Steps(s, s.NextTransition().value);
            && after.Valid()
            && (!s.Output() ==> after.Output())
            && (s.Output() && after.NextTransition().Some? ==> EdgeRank(after) < EdgeRank(s))
  {
    AtTransition(s);
    StepsValid(s, s.NextTransition().value);
  }

  // After some transitions no rising edge has been passed, and few are left.
  ghost predicate Searched(start: State, clocks: nat, rounds: nat) {
    var now := Steps(start, clocks);
    && now.Valid()
    && (forall j: nat :: j <= clocks ==> !RisesAt(start, j))
    && rounds <= 3 && clocks <= rounds * TWO_16
    && (now.NextTransition().Some? ==> rounds + EdgeRank(now) <= 3)
  }

  lemma SearchBegins(start: State)
    requires start.Valid()
    ensures Steps(start, 0) == start && Searched(start, 0, 0)
  {}

  lemma SearchStep(start: State, clocks: nat, rounds: nat)
    requires Searched(start, clocks, rounds) && Steps(start, clocks).NextTransition().Some?
    ensures var now := Steps(start, clocks); var until := now.NextTransition().value;
            && until <= TWO_16 && clocks + until <= 3 * TWO_16
            && Steps(start, clocks + until) == Steps(now, until)
            && (if !now.Output() && Steps(now, until).Output() then FirstRise(start, clocks + until)
                else Searched(start, clocks + until, rounds + 1))
  {
    NoRiseThroughTransition(start, clocks);
    EdgeRankFalls(Steps(start, clocks));
    StepsAdd(start, clocks, Steps(start, clocks).NextTransition().value);
  }

  lemma SearchEnd(start: State, clocks: nat, rounds: nat)
    requires Searched(start, clocks, rounds) && Steps(start, clocks).NextTransition().None?
    ensures NeverRises(start)
  {
    NoTransitionNoRise(Steps(start, clocks));
    forall k: nat ensures !RisesAt(start, k) {
      if k > clocks { RiseShifts(start, clocks, k - clocks); }
    }
  }

  // ----- what the guest sees

  lemma {:induction false} ClocksKeepProgramming(s: State, n: nat)
    ensures var after := Steps(s, n);
            && after.control == s.control && after.gate == s.gate && after.reload == s.reload
            && after.writeLow == s.writeLow && after.readHigh == s.readHigh
            && after.latchedCount == s.latchedCount && after.latchedStatus == s.latchedStatus
    decreases n
  {
    if n != 0 {
      ClocksKeepProgramming(s.Step(), n - 1);
    }
  }

  /** A latched count survives any clocks before and between its reads, in every access format, and is
      then released; a latched status comes out before it. Latching in the middle of an unlatched
      two-byte read yields the high byte only. */
  lemma LatchedCountReadsBack(s: State, before: nat, between: nat)
    requires s.Valid() && s.Access() != 0 && s.latchedCount.None?
    ensures var latched := Steps(s.Latch(true, false), before);
            && latched.Valid() && (s.latchedStatus.Some? ==> latched.Read().1 == s.latchedStatus.value)
            && var ready := if s.latchedStatus.Some? then latched.Read().0 else latched;
            && ready.latchedStatus.None? && ready.Valid()
            && var (once, first) := ready.Read();
            && Steps(once, between).Valid()
            && var (twice, second) := Steps(once, between).Read();
            && (s.Access() == 1 ==> first == Low(s.Count()) && once.latchedCount.None?)
            && (s.Access() == 2 ==> first == High(s.Count()) && once.latchedCount.None?)
            && (s.Access() == 3 ==>
                  && twice.latchedCount.None?
                  && (if s.readHigh then first == High(s.Count()) && once.latchedCount.None?
                      else LittleEndian(first, second) == s.Count() && once.latchedCount.Some?))
  {
    var held := s.Latch(true, false);
    StepsValid(held, before);
    ClocksKeepProgramming(held, before);
    var latched := Steps(held, before);
    var ready := if s.latchedStatus.Some? then latched.Read().0 else latched;
    var once := ready.Read().0;
    StepsValid(once, between);
    ClocksKeepProgramming(once, between);
  }

  /** From power-on: mode 2 with count 0x1234, one clock, one unlatched read, and then a latch. The next read
      gives the latched high byte and releases the latch, so that its low byte is never read. */
  lemma LatchAmidReadLosesLow()
    ensures var loaded := POWER_UP.SetGate(true).ControlWord(0x34).Write(0x34).Write(0x12).Step();
            && loaded.Valid() && loaded.Count() == 0x1234
            && var (amid, low) := loaded.Read();
            && low == 0x34 && amid.Valid() && amid.latchedCount.None?
            && var (after, high) := amid.Latch(true, false).Read();
            && high == 0x12 && after.latchedCount.None? && !after.readHigh
  {
    var written := POWER_UP.SetGate(true).ControlWord(0x34).Write(0x34).Write(0x12);
    assert written == POWER_UP.(control := 0x34, gate := true, reload := 0x1234, nullCount := true, loading := true);
    StepValid(written);
  }

  /** The data sheet's mode 2 sequence: N, N-1, ..., 1 with OUT low only at 1. */
  lemma RateGeneratorSequence(s: State)
    requires s.Valid() && s.Running() && s.Mode() == Some(2) && !s.loading && !s.nullCount
    ensures s.Step().Valid()
    ensures s.Output() <==> s.Count() != 1
    ensures s.Step().Count() == if s.Count() == 1 then s.active % TWO_16 else (s.Count() - 1) % TWO_16
  {
    StepValid(s);
  }

  /** The data sheet's mode 3 sequence: even counts fall by two, and OUT toggles after 2;
      the high half of an odd divisor has one more clock, whose count is 0. */
  lemma SquareWaveSequence(s: State)
    requires s.Valid() && s.Running() && s.Mode() == Some(3) && !s.loading && !s.nullCount
    ensures s.Step().Valid() && s.Step().active == s.active
    ensures var last := if s.active % 2 == 1 && s.Output() then 0 else 2;
            if s.Count() == last then
              s.Step().Output() != s.Output() && s.Step().Count() == (s.active - s.active % 2) % TWO_16
            else
              s.Step().Output() == s.Output() && s.Step().Count() == (s.Count() - 2) % TWO_16
  {
    StepValid(s);
  }

  // The bytes of one count, written as the access format asks.
  function WriteCount(s: State, low: Byte, high: Byte): State {
    if s.Access() == 1 then s.Write(low)
    else if s.Access() == 2 || s.writeLow.Some? then s.Write(high)
    else s.Write(low).Write(high)
  }

  // The divisor they make: zero stands for 65536, and 1 stops the counter.
  function Programs(s: State, low: Byte, high: Byte): (active: nat) {
    var count :=
      if s.Access() == 1 then low
      else if s.Access() == 2 then LittleEndian(0, high)
      else LittleEndian(if s.writeLow.Some? then s.writeLow.value else low, high);
    if count == 0 then TWO_16 else if count == 1 then 0 else count
  }

  /** A completed divisor appears whole on the clock that loads it, in every access format. */
  lemma FirstCount(s: State, low: Byte, high: Byte)
    requires s.Valid() && s.Access() != 0 && s.active == 0 && s.Mode().Some?
    ensures var after := WriteCount(s, low, high).Step();
            && after.Valid() && after.Output() && !after.nullCount
            && after.active == Programs(s, low, high)
            && after.Count() == (after.active - if s.Mode() == Some(3) then after.active % 2 else 0) % TWO_16
  {
    WritesLoading(s, low, high);
    hide WriteCount, State.Write, Programs;
    StepValid(WriteCount(s, low, high));
  }

  // What a completed count changes in a stopped counter.
  lemma WritesLoading(s: State, low: Byte, high: Byte)
    requires s.Valid() && s.Access() != 0 && s.active == 0
    ensures var written := WriteCount(s, low, high);
            && written == s.(writeLow := written.writeLow, reload := written.reload, nullCount := true, loading := true)
            && written.Valid() && written.Load().active == Programs(s, low, high)
  {
    hide State.Step, State.Output, State.Count;
  }

  /** A divisor written to a running counter, pending another or not, changes neither OUT nor the period
      until the next boundary, and there it starts the period it begins: a high part after the period's
      end, a low half otherwise. */
  lemma DivisorWaits(s: State, low: Byte, high: Byte, k: nat)
    requires s.Valid() && s.Running() && !s.loading && s.Access() != 0
    requires k < s.ReloadBoundary() - s.phase
    ensures var written := WriteCount(s, low, high);
            && Steps(written, k).Output() == Steps(s, k).Output()
            && Steps(written, k).phase == Steps(s, k).phase && Steps(written, k).active == s.active
            && var at := Steps(written, s.ReloadBoundary() - s.phase);
            && at.active == Programs(s, low, high)
            && at.Output() == (at.active == 0 || s.ReloadBoundary() == s.active)
  {
    WritesPending(s, low, high);
    var written := WriteCount(s, low, high);
    hide WriteCount, State.Write, Programs;
    PeriodicSteps(s, k);
    PeriodicSteps(written, k);
    ReloadSteps(written, s.ReloadBoundary() - s.phase);
  }

  // What a completed count changes in a running counter.
  lemma WritesPending(s: State, low: Byte, high: Byte)
    requires s.Valid() && s.Running() && !s.loading && s.Access() != 0
    ensures var written := WriteCount(s, low, high);
            && written == s.(writeLow := written.writeLow, reload := written.reload, nullCount := true)
            && written.Valid() && written.Load().active == Programs(s, low, high)
  {}

  /** A low gate holds OUT high for any time; raising it starts a whole period with the last divisor. */
  lemma GateRetriggers(s: State, paused: nat)
    requires s.Valid() && s.Mode().Some? && s.reload != 0
    ensures var held := Steps(s.SetGate(false), paused); var again := held.SetGate(true).Step();
            && held.Output()
            && again.Output() && again.phase == 0 && !again.nullCount
            && again.active == if s.reload == 1 then 0 else s.reload
  {
    StepsValid(s.SetGate(false), paused);
    ClocksKeepProgramming(s.SetGate(false), paused);
  }

  /** A latched status describes the counter when it was latched, and is read before any count. */
  lemma StatusReadsFirst(s: State, count: bool, before: nat)
    requires s.Valid() && s.latchedStatus.None?
    ensures var latched := Steps(s.Latch(count, true), before);
            && latched.Valid()
            && var (after, byte) := latched.Read();
            && (Bit(byte, 0x80) <==> s.Output()) && (Bit(byte, 0x40) <==> s.nullCount)
            && byte % 0x40 == s.control
            && after == Steps(s.Latch(count, false), before)
  {
    StepsValid(s.Latch(count, true), before);
    ClocksKeepProgramming(s.Latch(count, true), before);
    ClocksKeepProgramming(s.Latch(count, false), before);
    assert s.Latch(count, true) == s.Latch(count, false).(latchedStatus := Some(s.Status()));
    StatusApart(s.Latch(count, false), before, s.Status());
  }

  // Clocks take no notice of a latched status.
  lemma {:induction false} StatusApart(s: State, n: nat, status: Byte)
    ensures Steps(s.(latchedStatus := Some(status)), n) == Steps(s, n).(latchedStatus := Some(status))
    decreases n
  {
    if n != 0 {
      assert s.(latchedStatus := Some(status)).Step() == s.Step().(latchedStatus := Some(status));
      StatusApart(s.Step(), n - 1, status);
    }
  }

  // ----- what each register access does, in the bits of its byte

  /** A control word with access bits set stops whatever ran: OUT is high in modes 2 and 3 and low in any other,
      the count is 0, no latch and no half of a count is left, and clocks change nothing until a count comes. */
  lemma ControlWordStops(s: State, value: Byte, n: nat)
    requires s.Valid() && value / 16 % 4 != 0
    ensures var stopped := s.ControlWord(value);
            && stopped.Valid() && stopped.gate == s.gate && stopped.Access() == value / 16 % 4
            && stopped.Mode() == ModeOf(value) && (stopped.Output() <==> ModeOf(value).Some?)
            && stopped.Count() == 0 && stopped.nullCount
            && stopped.latchedCount.None? && stopped.latchedStatus.None? && stopped.writeLow.None? && !stopped.readHigh
            && Steps(stopped, n) == stopped && HighTime(stopped, n) == (if ModeOf(value).Some? then n else 0)
  {
    var stopped := s.ControlWord(value);
    AccessBits(value);
    ModeBits(value);
    assert stopped.Access() == value / 16 % 4 && stopped.Mode() == ModeOf(value);
    hide State.Mode, State.Access, ModeOf;
    assert stopped.Count() == 0;
    StoppedSteps(stopped, n);
  }

  lemma AccessBits(value: Byte)
    ensures value % 64 / 16 % 4 == value / 16 % 4
  {
    LowerBits(value / 64, value % 64);
  }

  lemma ModeBits(value: Byte)
    ensures value % 64 % 2 == value % 2 && value % 64 / 2 % 4 == value / 2 % 8 % 4
  {
    LowerBits(value / 64, value % 64);
  }

  // Bits above the low six change none of them.
  lemma LowerBits(upper: nat, lower: nat)
    requires upper < 4 && lower < 64
    ensures var value := 64 * upper + lower;
            && value / 16 % 4 == lower / 16 % 4
            && value % 2 == lower % 2 && value / 2 % 8 % 4 == lower / 2 % 4
  {
    WithoutMultiple(4 * upper, lower / 16);
    WithoutMultiple(32 * upper, lower / 2);
  }

  lemma WithoutMultiple(fours: nat, x: nat)
    requires fours % 4 == 0
    ensures (fours + x) % 4 == x % 4 && (fours + x) % 8 % 4 == x % 4
  {
    var n, k := (fours + x) / 8, fours / 4;
    assert (fours + x) % 8 == 4 * (k - 2 * n) + x;
  }

  // Binary modes 2 and 3, each with its alias; everything else has no output.
  function ModeOf(value: Byte): Option<nat> {
    if value % 2 == 1 then None
    else match value / 2 % 8
      case 2 => Some(2)
      case 6 => Some(2)
      case 3 => Some(3)
      case 7 => Some(3)
      case _ => None
  }

  /** The next complete count is whole one clock later, at the start of a high part, whatever the gate. */
  lemma ControlWordThenCount(s: State, value: Byte, n: nat, low: Byte, high: Byte)
    requires s.Valid() && value / 16 % 4 != 0 && ModeOf(value).Some?
    ensures var after := WriteCount(Steps(s.ControlWord(value), n), low, high).Step();
            && after.Valid() && after.gate == s.gate && after.phase == 0 && after.Output()
            && !after.nullCount && !after.loading
            && after.active == Programs(s.ControlWord(value), low, high)
  {
    ControlWordStops(s, value, n);
    var stopped := s.ControlWord(value);
    WritesLoading(stopped, low, high);
    hide WriteCount, State.Write, Programs, State.ControlWord;
    FirstCount(stopped, low, high);
  }

  /** A control word without access bits is a count latch and nothing else. */
  lemma ControlWordLatches(s: State, value: Byte)
    requires s.Valid() && value / 16 % 4 == 0
    ensures s.ControlWord(value) ==
            s.(latchedCount := Some(if s.latchedCount.Some? then s.latchedCount.value else s.Count()))
  {}

  /** A second latch before the first value is read is ignored, whatever clocks pass between them. */
  lemma SecondLatchIgnored(s: State, count: bool, status: bool, between: nat)
    requires s.Valid()
    ensures var first := Steps(s.Latch(count, status), between);
            && first.Valid()
            && (count ==> first.Latch(true, false) == first) && (status ==> first.Latch(false, true) == first)
            && first.Latch(false, false) == first
  {
    StepsValid(s.Latch(count, status), between);
    ClocksKeepProgramming(s.Latch(count, status), between);
  }

  /** Unlatched reads show the live counter, each byte as of its own read. */
  lemma UnlatchedReads(s: State, between: nat)
    requires s.Valid() && s.latchedCount.None? && s.latchedStatus.None? && !s.readHigh
    ensures var (once, first) := s.Read(); var later := Steps(once, between);
            && once == s.(readHigh := s.Access() == 3) && later.Valid()
            && var (twice, second) := later.Read();
            && first == (if s.Access() == 2 then High(s.Count()) else Low(s.Count()))
            && second == (if s.Access() >= 2 then High(later.Count()) else Low(later.Count()))
            && twice == later.(readHigh := false)
  {
    var once := s.Read().0;
    StepsValid(once, between);
    ClocksKeepProgramming(once, between);
  }

  /** The first byte of a two-byte count only waits; without access bits no byte does anything. */
  lemma FirstByteWaits(s: State, low: Byte)
    ensures s.Access() == 3 && s.writeLow.None? ==> s.Write(low) == s.(writeLow := Some(low))
    ensures s.Access() == 0 ==> s.Write(low) == s
  {}

  /** Only a rise of the gate starts a load, and only once a divisor is there to load. */
  lemma GateChanges(s: State)
    ensures s.gate ==> s.SetGate(true) == s
    ensures s.SetGate(false) == s.(gate := false)
    ensures !s.gate ==> s.SetGate(true) == s.(gate := true, loading := s.loading || s.reload != 0)
  {}

  /** A counter as its owner holds it. Its methods are proved against the functions of State. */
  class Counter {
    var control: Byte
    var gate: bool
    var reload: nat
    var active: nat
    var phase: nat
    var loading: bool
    var nullCount: bool
    var writeLow: Option<Byte>
    var readHigh: bool
    var latchedCount: Option<Word>
    var latchedStatus: Option<Byte>

    /** A copy of the registers, as the source's clone. */
    function Value(): State
      reads this
    {
      State(control, gate, reload, active, phase, loading, nullCount, writeLow, readHigh, latchedCount,
            latchedStatus)
    }

    ghost predicate Valid()
      reads this
    {
      Value().Valid()
    }

    constructor ()
      ensures Valid() && Value() == POWER_UP
    {
      control, gate, reload, active, phase := 0, false, 0, 0, 0;
      loading, nullCount, writeLow, readHigh := false, false, None, false;
      latchedCount, latchedStatus := None, None;
    }

    constructor Clone(s: State)
      ensures Value() == s
    {
      control, gate, reload, active, phase := s.control, s.gate, s.reload, s.active, s.phase;
      loading, nullCount, writeLow, readHigh := s.loading, s.nullCount, s.writeLow, s.readHigh;
      latchedCount, latchedStatus := s.latchedCount, s.latchedStatus;
    }

    method Control(value: Byte)
      requires Valid()
      modifies this
      ensures Valid() && Value() == old(Value()).ControlWord(value)
    {
      if value / 16 % 4 == 0 {
        Latch(true, false);
        return;
      }
      control, reload, active, phase := value % 64, 0, 0, 0;
      loading, nullCount, writeLow, readHigh := false, true, None, false;
      latchedCount, latchedStatus := None, None;
    }

    method Write(value: Byte)
      requires Valid()
      modifies this
      ensures Valid() && Value() == old(Value()).Write(value)
    {
      var access := Value().Access();
      var count: Word;
      if access == 1 {
        count := value;
      } else if access == 2 {
        count := value * 0x100;
      } else if access != 3 {
        return;
      } else if writeLow.None? {
        writeLow := Some(value);
        return;
      } else {
        count := LittleEndian(writeLow.value, value);
        writeLow := None;
      }
      reload := if count == 0 then TWO_16 else count;
      nullCount := true;
      if active == 0 {
        loading := true;
      }
    }

    method Read() returns (byte: Byte)
      requires Valid()
      modifies this
      ensures Valid() && (Value(), byte) == old(Value()).Read()
    {
      if latchedStatus.Some? {
        byte := latchedStatus.value;
        latchedStatus := None;
        return;
      }
      var count := if latchedCount.Some? then latchedCount.value else Value().Count();
      var access := Value().Access();
      var high := access == 2 || (access == 3 && readHigh);
      readHigh := access == 3 && !readHigh;
      if !readHigh {
        latchedCount := None;
      }
      byte := if high then High(count) else Low(count);
    }

    method Latch(count: bool, status: bool)
      requires Valid()
      modifies this
      ensures Valid() && Value() == old(Value()).Latch(count, status)
    {
      if count && latchedCount.None? {
        latchedCount := Some(Value().Count());
      }
      if status && latchedStatus.None? {
        latchedStatus := Some(Value().Status());
      }
    }

    method SetGate(high: bool)
      requires Valid()
      modifies this
      ensures Valid() && Value() == old(Value()).SetGate(high)
    {
      if high && !gate && reload != 0 {
        loading := true;
      }
      gate := high;
    }

    method Load()
      requires reload <= TWO_16
      modifies this
      ensures Value() == old(Value()).Load()
    {
      active := if reload >= 2 then reload else 0;
      nullCount := false;
    }

    /** Whole periods and both partial ones, without iterating over edges. */
    method AdvancePeriodic(clocks: nat) returns (integral: nat)
      requires Valid() && active != 0 && clocks < TWO_64
      modifies this`phase
      ensures Value() == old(Value()).(phase := Part(active, old(phase) + clocks))
      ensures integral == PeriodicHigh(active, Value().HighClocks(), old(phase) + clocks)
                          - Min(old(phase), Value().HighClocks())
    {
      var high := Value().HighClocks();
      var end := phase + clocks;
      PeriodicHighDivided(active, high, end);
      PeriodicHighBound(active, high, phase, clocks);
      integral := end / active * high + Min(end % active, high) - Min(phase, high);
      phase := end % active;
      // The source computes in 128 bits and narrows the result to 64.
      assert end < TWO_128 && 0 <= integral < TWO_64;
    }

    // Across a due reload: runs up to its boundary and starts the next half or period.
    method AdvanceToReload() returns (clocks: nat, high: nat)
      requires Valid() && Value().Running() && !loading && nullCount
      modifies this
      ensures clocks == old(Value().ReloadBoundary() - phase) && 0 < clocks <= TWO_16
      ensures Value() == Steps(old(Value()), clocks) && Valid() && !nullCount
      ensures high == HighTime(old(Value()), clocks)
      ensures !loading && gate && Value().Mode().Some?
    {
      hide Steps, HighTime, PeriodicHigh, State.Valid, State.Step, State.Output, Part;
      ghost var start := Value();
      BoundaryAhead(start);
      ReloadSteps(start, start.ReloadBoundary() - start.phase);
      StepsValid(start, start.ReloadBoundary() - start.phase);
      PeriodicHighAtBoundary(start);
      ReloadedRuns(start);
      var boundary := if Value().Mode() == Some(3) && phase < Value().HighClocks() then Value().HighClocks()
                      else active;
      var nextHigh := boundary == active;
      clocks := boundary - phase;
      high := AdvancePeriodic(clocks);
      Load();
      phase := if nextHigh then 0 else Value().HighClocks();
    }

    // Whole periods of a counter that has no reload due in the given clocks.
    method AdvanceUndisturbed(clocks: nat) returns (high: nat)
      requires Valid() && clocks < TWO_64 && !loading && gate && Value().Mode().Some?
      requires active != 0 && nullCount ==> clocks < Value().ReloadBoundary() - phase
      modifies this
      ensures Value() == Steps(old(Value()), clocks)
      ensures high == HighTime(old(Value()), clocks)
    {
      if active == 0 {
        StoppedSteps(Value(), clocks);
        var level := if Value().Output() then 1 else 0;
        high := clocks * level;
      } else {
        PeriodicSteps(Value(), clocks);
        high := AdvancePeriodic(clocks);
      }
    }

    // Clocks of a counter with no initial load outstanding.
    method AdvanceLoaded(clocks: nat) returns (high: nat)
      requires Valid() && clocks < TWO_64 && !loading
      modifies this
      ensures Value() == Steps(old(Value()), clocks)
      ensures high == HighTime(old(Value()), clocks)
    {
      ghost var start := Value();
      high := 0;
      if !Value().Running() {
        StoppedSteps(start, clocks);
        return if Value().Output() then clocks else 0;
      }
      var rest := clocks;
      if nullCount {
        var untilReload := Value().ReloadBoundary() - phase;
        if rest >= untilReload {
          StepsAdd(start, untilReload, rest - untilReload);
          var reached;
          reached, high := AdvanceToReload();
          rest := rest - reached;
        }
      }
      var part := AdvanceUndisturbed(rest);
      high := high + part;
    }

    /** The closed form equals the given number of single clocks, in state and in high time. */
    method Advance(clocks: nat) returns (high: nat)
      requires Valid() && clocks < TWO_64
      modifies this
      ensures Valid() && Value() == Steps(old(Value()), clocks)
      ensures high == HighTime(old(Value()), clocks) && high <= clocks
    {
      ghost var start := Value();
      StepsValid(start, clocks);
      HighTimeBound(start, clocks);
      var rest := clocks;
      high := 0;
      if loading && rest != 0 {
        StepValid(start);
        high := if Value().Output() then 1 else 0;
        Load();
        phase := 0;
        loading := false;
        rest := rest - 1;
      }
      if rest != 0 {
        var part := AdvanceLoaded(rest);
        high := high + part;
      }
    }

    /** Exactly the first rising edge, found in at most three transitions. */
    method NextRisingEdge() returns (edge: Option<nat>)
      requires Valid()
      ensures match edge
              case Some(k) => FirstRise(Value(), k) && k <= 3 * TWO_16
              case None => NeverRises(Value())
    {
      hide Steps, HighTime, RisesAt, FirstRise, NeverRises, State.Step;
      var counter := new Counter.Clone(Value());
      var clocks: nat := 0;
      ghost var start := Value();
      SearchBegins(start);
      ghost var rounds := 0;
      var until := counter.Value().NextTransition();
      while until.Some?
        invariant counter.Value() == Steps(start, clocks) && Searched(start, clocks, rounds)
        invariant until == counter.Value().NextTransition()
        invariant unchanged(this)
        decreases 3 - rounds
      {
        SearchStep(start, clocks, rounds);
        var high := counter.Value().Output();
        var _ := counter.Advance(until.value);
        clocks := clocks + until.value;
        if !high && counter.Value().Output() {
          return Some(clocks);
        }
        rounds := rounds + 1;
        until := counter.Value().NextTransition();
      }
      SearchEnd(start, clocks, rounds);
      return None;
    }
  }
}

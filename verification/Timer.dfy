/** The PC timer of crates/pit/src/timer.rs: counters brought up to a clock, and IRQ0. */
module Timers {
  import opened Wrappers
  import opened Machine
  import opened Clocks
  import opened Times
  import C = Counters
  import P = Pics
  import D = PicDevices

  const CHANNEL_0_PORT := 0x40
  const CHANNEL_2_PORT := 0x42
  const CONTROL_PORT := 0x43

  datatype State = State(
    at: nat,
    channel0: C.State,
    channel2: C.State,
    channel2Update: Option<C.State>,
    pic: P.State)
  {
    ghost predicate Valid() {
      channel0.Valid() && channel2.Valid()
    }
  }

  // ----- synchronization

  ghost predicate Rose(c: C.State, clocks: nat) {
    exists k: nat :: k <= clocks && C.RisesAt(c, k)
  }

  /** The interrupt controller sees OUT0 as the level of its input 0. */
  ghost predicate LevelTracks(s: State) {
    (0 in s.pic.levels) == s.channel0.Output()
  }

  ghost function Synced(s: State, now: nat): State
    requires s.at <= now
  {
    ClocksMonotone(s.at, now);
    var clocks := ClocksAt(now) - ClocksAt(s.at);
    var channel0 := C.Steps(s.channel0, clocks);
    var pulsed := if Rose(s.channel0, clocks) then D.Pulsed(s.pic, 0) else s.pic;
    s.(at := now, channel0 := channel0, channel2 := C.Steps(s.channel2, clocks),
       pic := P.Apply(pulsed, P.Line(0, channel0.Output())))
  }

  lemma {:induction false} NoRiseStaysLow(c: C.State, clocks: nat)
    requires !c.Output() && !Rose(c, clocks)
    ensures !C.Steps(c, clocks).Output()
    decreases clocks
  {
    if clocks != 0 {
      assert C.RisesAt(c, clocks) ==> Rose(c, clocks);
      assert forall k: nat :: k <= clocks - 1 && C.RisesAt(c, k) ==> k <= clocks && C.RisesAt(c, k);
      NoRiseStaysLow(c, clocks - 1);
    }
  }

  lemma RoseAdds(c: C.State, first: nat, second: nat)
    ensures Rose(c, first + second) <==> Rose(c, first) || Rose(C.Steps(c, first), second)
  {
    if Rose(c, first + second) {
      var k: nat :| k <= first + second && C.RisesAt(c, k);
      if k > first {
        C.RiseShifts(c, first, k - first);
        assert C.RisesAt(C.Steps(c, first), k - first);
      }
    }
    if Rose(c, first) {
      var k: nat :| k <= first && C.RisesAt(c, k);
      assert k <= first + second && C.RisesAt(c, k);
    }
    if Rose(C.Steps(c, first), second) {
      var k: nat :| k <= second && C.RisesAt(C.Steps(c, first), k);
      C.RiseShifts(c, first, k);
      assert first + k <= first + second && C.RisesAt(c, first + k);
    }
  }

  /** What a synchronization does to the interrupt controller: in edge mode IRQ0 becomes
      pending exactly when OUT0 rose; in level mode it is pending exactly while OUT0 is high. */
  lemma SyncedInterrupt(s: State, now: nat)
    requires s.Valid() && LevelTracks(s) && s.at <= now
    ensures var after := Synced(s, now); var clocks := ClocksAt(now) - ClocksAt(s.at);
            && after.Valid() && LevelTracks(after)
            && after.pic.levels - {0} == s.pic.levels - {0}
            && P.SameService(s.pic, after.pic)
            && after.pic.levelTriggered == s.pic.levelTriggered && after.pic.mask == s.pic.mask
            && after.pic.requests == if s.pic.levelTriggered then after.pic.levels
                                     else if clocks >= 0 && Rose(s.channel0, clocks) then s.pic.requests + {0}
                                     else s.pic.requests
  {
    ClocksMonotone(s.at, now);
    var clocks := ClocksAt(now) - ClocksAt(s.at);
    C.StepsValid(s.channel0, clocks);
    C.StepsValid(s.channel2, clocks);
    var rose := Rose(s.channel0, clocks);
    var high := C.Steps(s.channel0, clocks).Output();
    if rose {
      D.PulseLatchesEdge(s.pic, 0);
      D.LineChange(D.Pulsed(s.pic, 0), 0, high);
    } else {
      if !s.channel0.Output() { NoRiseStaysLow(s.channel0, clocks); }
      D.LineChange(s.pic, 0, high);
    }
  }

  // Everything except the wakeup slot, which a level that came and went may have used.
  ghost predicate Agree(a: State, b: State) {
    && a.at == b.at && a.channel0 == b.channel0 && a.channel2 == b.channel2
    && a.channel2Update == b.channel2Update
    && a.pic.levels == b.pic.levels && a.pic.requests == b.pic.requests
    && P.SameService(a.pic, b.pic) && a.pic.mask == b.pic.mask
  }

  lemma SyncedCounters(s: State, mid: nat, end: nat)
    requires s.Valid() && s.at <= mid <= end
    ensures var twice, once := Synced(Synced(s, mid), end), Synced(s, end);
            && twice.at == once.at && twice.channel0 == once.channel0 && twice.channel2 == once.channel2
            && twice.channel2Update == once.channel2Update
    ensures ClocksAt(s.at) <= ClocksAt(mid) <= ClocksAt(end)
    ensures Rose(s.channel0, ClocksAt(end) - ClocksAt(s.at)) <==>
              Rose(s.channel0, ClocksAt(mid) - ClocksAt(s.at))
              || Rose(Synced(s, mid).channel0, ClocksAt(end) - ClocksAt(mid))
  {
    hide P.Apply, D.Pulsed, C.Steps, C.State.Valid;
    ClocksMonotone(s.at, mid);
    ClocksMonotone(mid, end);
    var first, second := ClocksAt(mid) - ClocksAt(s.at), ClocksAt(end) - ClocksAt(mid);
    C.StepsAdd(s.channel0, first, second);
    C.StepsAdd(s.channel2, first, second);
    RoseAdds(s.channel0, first, second);
  }

  lemma SyncTwice(s: State, mid: nat, end: nat)
    requires s.Valid() && LevelTracks(s) && s.at <= mid <= end
    ensures Agree(Synced(Synced(s, mid), end), Synced(s, end))
  {
    SyncedInterrupt(s, mid);
    SyncedInterrupt(Synced(s, mid), end);
    SyncedInterrupt(s, end);
    SyncedCounters(s, mid, end);
    SyncedAt(s, mid);
    hide Synced, Rose;
    SameLevels(Synced(Synced(s, mid), end), Synced(s, end));
  }

  lemma SyncedAt(s: State, now: nat)
    requires s.at <= now
    ensures Synced(s, now).at == now
  {}

  // Equal outside input 0 and tracking the same output there: equal levels.
  lemma SameLevels(a: State, b: State)
    requires LevelTracks(a) && LevelTracks(b) && a.channel0 == b.channel0
    requires a.pic.levels - {0} == b.pic.levels - {0}
    ensures a.pic.levels == b.pic.levels
  {
    forall i: P.Irq ensures i in a.pic.levels <==> i in b.pic.levels {
      if i != 0 {
        assert i in a.pic.levels <==> i in a.pic.levels - {0};
        assert i in b.pic.levels <==> i in b.pic.levels - {0};
      }
    }
  }

  ghost function SyncedAll(s: State, times: seq<nat>): State
    requires Rising(s.at, times)
    decreases |times|
  {
    if times == [] then s else SyncedAll(Synced(s, times[0]), times[1..])
  }

  /** Servicing the timer at any rising sequence of times equals servicing it once, at the last. */
  lemma {:induction false} ScheduleIndependent(s: State, times: seq<nat>)
    requires s.Valid() && LevelTracks(s) && times != [] && Rising(s.at, times)
    ensures s.at <= times[|times| - 1]
    ensures Agree(SyncedAll(s, times), Synced(s, times[|times| - 1]))
    decreases |times|
  {
    var next, rest := Synced(s, times[0]), times[1..];
    RisingLast(s.at, times);
    if rest == [] {
      assert SyncedAll(s, times) == next;
    } else {
      SyncedInterrupt(s, times[0]);
      SyncedAt(s, times[0]);
      ScheduleIndependent(next, rest);
      SyncTwice(s, times[0], times[|times| - 1]);
    }
  }

  /** With nothing acknowledged in between, edge-mode IRQ0 ends up pending exactly when it
      already was or OUT0 rose at least once, however late or often the timer was serviced. */
  lemma PendingIffRose(s: State, times: seq<nat>)
    requires s.Valid() && LevelTracks(s) && times != [] && Rising(s.at, times) && !s.pic.levelTriggered
    ensures s.at <= times[|times| - 1] && ClocksAt(s.at) <= ClocksAt(times[|times| - 1])
    ensures 0 in SyncedAll(s, times).pic.requests <==>
              0 in s.pic.requests || Rose(s.channel0, ClocksAt(times[|times| - 1]) - ClocksAt(s.at))
  {
    ScheduleIndependent(s, times);
    ClocksMonotone(s.at, times[|times| - 1]);
    SyncedInterrupt(s, times[|times| - 1]);
  }

  // ----- the wait of the timer's activity

  // When the activity next looks at channel 0.
  function Deadline(s: State): Option<nat>
    requires s.channel0.Valid()
  {
    match s.channel0.NextTransition()
    case Some(clocks) => Some(TimeAt(ClocksAt(s.at) + clocks))
    case None => None
  }

  /** Sleeping until the deadline misses nothing: no earlier service could see OUT0 change or
      rise, and service at the deadline finds exactly the transition. */
  lemma DeadlineIsExact(s: State, now: nat)
    requires s.Valid() && s.at <= now
    ensures match Deadline(s)
            case None => Synced(s, now).channel0.Output() == s.channel0.Output()
            case Some(deadline) =>
              && s.at < deadline
              && (now < deadline ==> Synced(s, now).channel0.Output() == s.channel0.Output())
              && (now == deadline ==>
                    Synced(s, now).channel0 == C.Steps(s.channel0, s.channel0.NextTransition().value))
  {
    ClocksMonotone(s.at, now);
    var clocks := ClocksAt(now) - ClocksAt(s.at);
    match s.channel0.NextTransition()
    case None => C.SteadyForever(s.channel0, clocks);
    case Some(until) =>
      FirstNanosecond(now, ClocksAt(s.at) + until);
      FirstNanosecond(s.at, ClocksAt(s.at) + until);
      ClockRoundTrip(ClocksAt(s.at) + until);
      if clocks < until {
        C.SteadyUntilTransition(s.channel0, clocks);
      }
  }

  // ----- register access, already synchronized

  function Programmed(counter: C.State, control: bool, byte: Byte): C.State
    requires counter.Valid()
  {
    if control then counter.ControlWord(byte) else counter.Write(byte)
  }

  function ReadBack(s: State, byte: Byte): State
    requires s.channel0.Valid() && s.channel2.Valid()
  {
    var count, status := !Bit(byte, 32), !Bit(byte, 16);
    if Bit(byte, 1) then s
    else
      s.(channel0 := if Bit(byte, 2) then s.channel0.Latch(count, status) else s.channel0,
         channel2 := if Bit(byte, 8) then s.channel2.Latch(count, status) else s.channel2)
  }

  function WriteChannel(s: State, channel: nat, control: bool, byte: Byte): State
    requires s.channel0.Valid() && s.channel2.Valid()
  {
    var latch := control && byte / 16 % 4 == 0;
    if channel == 0 then
      var counter := Programmed(s.channel0, control, byte);
      var programmed := s.(channel0 := counter);
      if latch then programmed else programmed.(pic := P.Apply(s.pic, P.Line(0, counter.Output())))
    else if channel == 2 then
      var counter := Programmed(s.channel2, control, byte);
      var programmed := s.(channel2 := counter);
      if latch then programmed else programmed.(channel2Update := Some(counter))
    else
      s
  }

  function Written(s: State, port: Word, bytes: Byte, value: nat): State
    requires s.channel0.Valid() && s.channel2.Valid()
  {
    var byte: Byte := value % 0x100;
    if bytes != 1 then s
    else if port == CHANNEL_0_PORT then WriteChannel(s, 0, false, byte)
    else if port == CHANNEL_2_PORT then WriteChannel(s, 2, false, byte)
    else if port == CONTROL_PORT then
      if byte / 64 == 3 then ReadBack(s, byte) else WriteChannel(s, byte / 64, true, byte)
    else s
  }

  function ReadFrom(s: State, port: Word, bytes: Byte): (State, nat)
    requires s.channel0.Valid() && s.channel2.Valid()
  {
    if port == CHANNEL_0_PORT && bytes == 1 then
      var (counter, byte) := s.channel0.Read();
      (s.(channel0 := counter), byte)
    else if port == CHANNEL_2_PORT && bytes == 1 then
      var (counter, byte) := s.channel2.Read();
      (s.(channel2 := counter), byte)
    else
      (s, D.OPEN_BUS)
  }

  function Gated(s: State, high: bool): State {
    var counter := s.channel2.SetGate(high);
    s.(channel2 := counter, channel2Update := Some(counter))
  }

  lemma LatchesKeepOutput(c: C.State, count: bool, status: bool)
    requires c.Valid()
    ensures c.Latch(count, status).Output() == c.Output() && c.Read().0.Output() == c.Output()
  {}

  lemma WriteChannelTracks(s: State, channel: nat, control: bool, byte: Byte)
    requires s.Valid()
    ensures WriteChannel(s, channel, control, byte).Valid()
    ensures LevelTracks(s) ==> LevelTracks(WriteChannel(s, channel, control, byte))
  {
    if channel == 0 {
      LatchesKeepOutput(s.channel0, true, false);
      D.LineChange(s.pic, 0, Programmed(s.channel0, control, byte).Output());
    }
  }

  lemma WrittenTracks(s: State, port: Word, bytes: Byte, value: nat)
    requires s.Valid()
    ensures Written(s, port, bytes, value).Valid()
    ensures LevelTracks(s) ==> LevelTracks(Written(s, port, bytes, value))
  {
    var byte: Byte := value % 0x100;
    if port == CHANNEL_0_PORT {
      WriteChannelTracks(s, 0, false, byte);
    } else if port == CHANNEL_2_PORT {
      WriteChannelTracks(s, 2, false, byte);
    } else if port == CONTROL_PORT {
      if byte / 64 == 3 {
        LatchesKeepOutput(s.channel0, !Bit(byte, 32), !Bit(byte, 16));
      } else {
        WriteChannelTracks(s, byte / 64, true, byte);
      }
    }
  }

  lemma ReadTracks(s: State, port: Word, bytes: Byte)
    requires s.Valid()
    ensures ReadFrom(s, port, bytes).0.Valid()
    ensures LevelTracks(s) ==> LevelTracks(ReadFrom(s, port, bytes).0)
  {
    LatchesKeepOutput(s.channel0, false, false);
  }

  // ----- whole runs of timer and interrupt controller together

  datatype Event =
    | Service(now: nat)
    | WritePort(now: nat, port: Word, bytes: Byte, value: nat)
    | ReadPort(now: nat, port: Word, bytes: Byte)
    | SpeakerGate(now: nat, high: bool)
    | Interrupts(bus: P.Event)

  // Events happen in clock order, and only the timer drives input 0.
  predicate Possible(s: State, e: Event) {
    match e
    case Interrupts(Line(irq, high)) => irq != 0
    case Interrupts(Connect(irq, high)) => irq != 0
    case Interrupts(_) => true
    case _ => s.at <= e.now
  }

  ghost function Next(s: State, e: Event): State
    requires s.Valid() && Possible(s, e)
  {
    match e
    case Interrupts(bus) => s.(pic := P.Apply(s.pic, bus))
    case _ =>
      var synced := Synced(s, e.now);
      SyncedValid(s, e.now);
      (match e
       case WritePort(_, port, bytes, value) => Written(synced, port, bytes, value)
       case ReadPort(_, port, bytes) => ReadFrom(synced, port, bytes).0
       case SpeakerGate(_, high) => Gated(synced, high)
       case _ => synced)
  }

  lemma SyncedValid(s: State, now: nat)
    requires s.Valid() && s.at <= now
    ensures Synced(s, now).Valid()
  {
    ClocksMonotone(s.at, now);
    C.StepsValid(s.channel0, ClocksAt(now) - ClocksAt(s.at));
    C.StepsValid(s.channel2, ClocksAt(now) - ClocksAt(s.at));
  }

  /** IRQ0's recorded level is OUT0 after every event, so no edge is lost or invented. */
  lemma TrackingStep(s: State, e: Event)
    requires s.Valid() && Possible(s, e)
    ensures Next(s, e).Valid()
    ensures LevelTracks(s) ==> LevelTracks(Next(s, e))
  {
    match e
    case Interrupts(bus) => D.LevelsFollowLines(s.pic, bus);
    case Service(now) => SyncedTracks(s, now);
    case WritePort(now, port, bytes, value) =>
      SyncedTracks(s, now);
      WrittenTracks(Synced(s, now), port, bytes, value);
    case ReadPort(now, port, bytes) =>
      SyncedTracks(s, now);
      ReadTracks(Synced(s, now), port, bytes);
    case SpeakerGate(now, high) => SyncedTracks(s, now);
  }

  lemma SyncedTracks(s: State, now: nat)
    requires s.Valid() && s.at <= now
    ensures Synced(s, now).Valid()
    ensures LevelTracks(s) ==> LevelTracks(Synced(s, now))
  {
    SyncedValid(s, now);
    if LevelTracks(s) { SyncedInterrupt(s, now); }
  }

  ghost predicate PossibleRun(s: State, events: seq<Event>)
    requires s.Valid()
    decreases |events|
  {
    events != [] ==>
      && Possible(s, events[0])
      && (TrackingStep(s, events[0]); PossibleRun(Next(s, events[0]), events[1..]))
  }

  ghost function Run(s: State, events: seq<Event>): State
    requires s.Valid() && PossibleRun(s, events)
    decreases |events|
  {
    if events == [] then s
    else
      TrackingStep(s, events[0]);
      Run(Next(s, events[0]), events[1..])
  }

  /** Whatever the guest programs, reads, masks or acknowledges, and whenever. */
  lemma {:induction false} RunsTrack(s: State, events: seq<Event>)
    requires s.Valid() && LevelTracks(s) && PossibleRun(s, events)
    ensures Run(s, events).Valid() && LevelTracks(Run(s, events))
    decreases |events|
  {
    if events != [] {
      TrackingStep(s, events[0]);
      RunsTrack(Next(s, events[0]), events[1..]);
    }
  }

  // ----- which counter an access reaches

  /** A synchronization moves both counters by the clocks between the two times, and nothing else of them. */
  lemma SyncedExact(s: State, now: nat)
    requires s.at <= now
    ensures ClocksAt(s.at) <= ClocksAt(now)
    ensures var clocks := ClocksAt(now) - ClocksAt(s.at); var after := Synced(s, now);
            && after.at == now && after.channel2Update == s.channel2Update
            && after.channel0 == C.Steps(s.channel0, clocks) && after.channel2 == C.Steps(s.channel2, clocks)
  {
    ClocksMonotone(s.at, now);
  }

  // Nothing but channel 0 and its line, or nothing but channel 2 and the update it leaves for the speaker.
  predicate OnlyChannel0(s: State, t: State) {
    t.channel2 == s.channel2 && t.channel2Update == s.channel2Update && t.at == s.at
  }

  predicate OnlyChannel2(s: State, t: State) {
    t.channel0 == s.channel0 && t.pic == s.pic && t.at == s.at
  }

  /** Single bytes written to 40h and 42h are counts of channels 0 and 2, and leave the other alone. */
  lemma CountPorts(s: State, value: nat)
    requires s.Valid()
    ensures var byte: Byte := value % 0x100; var after := Written(s, 0x40, 1, value);
            && after.channel0 == s.channel0.Write(byte) && OnlyChannel0(s, after)
            && after.pic == P.Apply(s.pic, P.Line(0, after.channel0.Output()))
    ensures var byte: Byte := value % 0x100; var after := Written(s, 0x42, 1, value);
            && after.channel2 == s.channel2.Write(byte) && OnlyChannel2(s, after)
            && after.channel2Update == Some(after.channel2)
  {}

  /** The top two bits written to 43h name the channel; a latch moves no line and leaves no update. */
  lemma ControlPort(s: State, byte: Byte)
    requires s.Valid() && byte < 0xc0
    ensures var after := Written(s, 0x43, 1, byte); var latch := byte / 16 % 4 == 0;
            && (byte < 0x40 ==>
                  && after.channel0 == s.channel0.ControlWord(byte) && OnlyChannel0(s, after)
                  && after.pic == if latch then s.pic else P.Apply(s.pic, P.Line(0, after.channel0.Output())))
            && (0x40 <= byte < 0x80 ==> after == s)
            && (0x80 <= byte ==>
                  && after.channel2 == s.channel2.ControlWord(byte) && OnlyChannel2(s, after)
                  && after.channel2Update == if latch then s.channel2Update else Some(after.channel2))
  {}

  /** Read-back latches, of the channels whose bits are set, what the clear bits ask for. */
  lemma ReadBackPort(s: State, byte: Byte)
    requires s.Valid() && byte >= 0xc0
    ensures var after := Written(s, 0x43, 1, byte);
            var count, status := byte / 32 % 2 == 0, byte / 16 % 2 == 0;
            && after.pic == s.pic && after.channel2Update == s.channel2Update && after.at == s.at
            && after.channel0 == (if byte % 2 == 0 && byte / 2 % 2 == 1 then s.channel0.Latch(count, status)
                                  else s.channel0)
            && after.channel2 == (if byte % 2 == 0 && byte / 8 % 2 == 1 then s.channel2.Latch(count, status)
                                  else s.channel2)
  {}

  /** Single bytes of 40h and 42h are read from their channels; every other port and width is ignored, and reads
      as open bus. */
  lemma OtherAccesses(s: State, port: Word, bytes: Byte, value: nat)
    requires s.Valid()
    ensures bytes != 1 || (port != 0x40 && port != 0x42 && port != 0x43) ==> Written(s, port, bytes, value) == s
    ensures bytes != 1 || (port != 0x40 && port != 0x42) ==> ReadFrom(s, port, bytes) == (s, 0xffff_ffff)
    ensures var (after, byte) := ReadFrom(s, 0x40, 1);
            OnlyChannel0(s, after) && after.pic == s.pic && (after.channel0, byte) == s.channel0.Read()
    ensures var (after, byte) := ReadFrom(s, 0x42, 1);
            && OnlyChannel2(s, after) && after.channel2Update == s.channel2Update
            && (after.channel2, byte) == s.channel2.Read()
  {}

  /** The speaker's gate reaches channel 2 and hands its phase to playback. */
  lemma GateReaches(s: State, high: bool)
    ensures var after := Gated(s, high);
            && OnlyChannel2(s, after) && after.channel2 == s.channel2.SetGate(high)
            && after.channel2Update == Some(after.channel2)
  {}

  // ----- what IRQ0 owes the guest

  // Whether OUT0 rose during an event: among its clocks, or by what it programs.
  ghost predicate RoseDuring(s: State, e: Event)
    requires s.Valid() && Possible(s, e)
  {
    match e
    case Interrupts(_) => false
    case _ =>
      ClocksMonotone(s.at, e.now);
      || Rose(s.channel0, ClocksAt(e.now) - ClocksAt(s.at))
      || (!Synced(s, e.now).channel0.Output() && Next(s, e).channel0.Output())
  }

  // Whether an event takes IRQ0, or clears every request by initializing the controller.
  predicate Clears(s: State, e: Event) {
    e.Interrupts? && BusClears(s.pic, e.bus)
  }

  ghost predicate OwedAfter(s: State, owed: bool, e: Event)
    requires s.Valid() && Possible(s, e)
  {
    !Clears(s, e) && (owed || RoseDuring(s, e))
  }

  ghost predicate Owes(s: State, owed: bool) {
    !s.pic.levelTriggered ==> (0 in s.pic.requests <==> owed)
  }

  lemma WriteChannelOwes(s: State, channel: nat, control: bool, byte: Byte)
    requires s.Valid() && LevelTracks(s) && !s.pic.levelTriggered
    ensures var after := WriteChannel(s, channel, control, byte);
            && !after.pic.levelTriggered
            && (0 in after.pic.requests <==>
                  0 in s.pic.requests || (!s.channel0.Output() && after.channel0.Output()))
  {
    if channel == 0 {
      LatchesKeepOutput(s.channel0, true, false);
      D.LineChange(s.pic, 0, Programmed(s.channel0, control, byte).Output());
    }
  }

  lemma WrittenOwes(s: State, port: Word, bytes: Byte, value: nat)
    requires s.Valid() && LevelTracks(s) && !s.pic.levelTriggered
    ensures var after := Written(s, port, bytes, value);
            && !after.pic.levelTriggered
            && (0 in after.pic.requests <==>
                  0 in s.pic.requests || (!s.channel0.Output() && after.channel0.Output()))
  {
    var byte: Byte := value % 0x100;
    if port == CHANNEL_0_PORT {
      WriteChannelOwes(s, 0, false, byte);
    } else if port == CHANNEL_2_PORT {
      WriteChannelOwes(s, 2, false, byte);
    } else if port == CONTROL_PORT {
      if byte / 64 == 3 {
        LatchesKeepOutput(s.channel0, !Bit(byte, 32), !Bit(byte, 16));
      } else {
        WriteChannelOwes(s, byte / 64, true, byte);
      }
    }
  }

  lemma WrittenMode(s: State, port: Word, bytes: Byte, value: nat)
    requires s.Valid()
    ensures Written(s, port, bytes, value).pic.levelTriggered == s.pic.levelTriggered
  {
    hide WriteChannel, ReadBack;
    var byte: Byte := value % 0x100;
    ChannelMode(s, 0, false, byte);
    ChannelMode(s, 2, false, byte);
    ChannelMode(s, byte / 64, true, byte);
    ReadBackMode(s, byte);
  }

  lemma ReadBackMode(s: State, byte: Byte)
    requires s.Valid()
    ensures ReadBack(s, byte).pic == s.pic
  {}

  lemma ChannelMode(s: State, channel: nat, control: bool, byte: Byte)
    requires s.Valid()
    ensures WriteChannel(s, channel, control, byte).pic.levelTriggered == s.pic.levelTriggered
  {
    hide Programmed, P.Apply;
    D.LineChange(s.pic, 0, Programmed(s.channel0, control, byte).Output());
  }

  lemma AcknowledgeOwes(p: P.State)
    ensures p.Acknowledge().levelTriggered == p.levelTriggered
    ensures !p.levelTriggered ==>
              (0 in p.Acknowledge().requests <==> 0 in p.requests && p.NextIrq() != Some(0))
  {
    hide P.State.NextIrq;
  }

  lemma CommandOwes(p: P.State, value: Byte)
    ensures Bit(value, 16) ==> p.Command(value).requests == {}
    ensures !Bit(value, 16) ==>
              p.Command(value).requests == p.requests && p.Command(value).levelTriggered == p.levelTriggered
  {
    hide P.HighestPriority;
  }

  lemma DataOwes(p: P.State, value: Byte)
    ensures p.Data(value).levelTriggered == p.levelTriggered
    ensures !p.levelTriggered ==> p.Data(value).requests == p.requests
  {
    hide P.Irqs, Bit, P.State.NextIrq, P.HighestPriority;
  }

  lemma UpdatedOwes(p: P.State)
    ensures p.Updated().requests == p.requests && p.Updated().levelTriggered == p.levelTriggered
  {}

  lemma LevelOwes(p: P.State, irq: P.Irq, high: bool)
    requires irq != 0 && !p.levelTriggered
    ensures (0 in p.SetLevel(irq, high).requests <==> 0 in p.requests) && !p.SetLevel(irq, high).levelTriggered
    ensures p.RecordLevel(irq, high).requests == p.requests && !p.RecordLevel(irq, high).levelTriggered
  {}

  lemma LevelMode(p: P.State, irq: P.Irq, high: bool)
    ensures p.SetLevel(irq, high).levelTriggered == p.levelTriggered
    ensures p.RecordLevel(irq, high).levelTriggered == p.levelTriggered
  {}

  predicate BusClears(p: P.State, bus: P.Event) {
    P.Taken(p, bus) == Some(0) || (bus.WriteCommand? && Bit(bus.value, 16))
  }

  // What the bus does to the request of an input that only the timer drives.
  lemma BusOwes(p: P.State, bus: P.Event)
    requires !(bus.Line? && bus.irq == 0) && !(bus.Connect? && bus.irq == 0)
    ensures BusClears(p, bus) && !P.Apply(p, bus).levelTriggered ==> 0 !in P.Apply(p, bus).requests
    ensures !BusClears(p, bus) ==> P.Apply(p, bus).levelTriggered == p.levelTriggered
    ensures !BusClears(p, bus) && !p.levelTriggered ==> (0 in P.Apply(p, bus).requests <==> 0 in p.requests)
  {
    hide P.State.NextIrq, P.State.Acknowledge, P.State.Command, P.State.Data, P.State.Updated;
    hide P.State.SetLevel, P.State.RecordLevel, P.Register;
    match bus
    case Accept =>
      PollFrame(p);
      AcknowledgeOwes(p.(waker := true));
    case ReadStatus =>
      PollFrame(p);
      AcknowledgeOwes(p.(pollPending := false));
    case WriteCommand(value) =>
      CommandOwes(p, value);
      UpdatedOwes(p.Command(value));
    case WriteData(value) =>
      DataOwes(p, value);
      UpdatedOwes(p.Data(value));
    case Line(irq, high) =>
      LevelMode(p, irq, high);
      if !p.levelTriggered { LevelOwes(p, irq, high); }
      UpdatedOwes(p.SetLevel(irq, high));
    case Connect(irq, high) =>
      LevelMode(p, irq, high);
      if !p.levelTriggered { LevelOwes(p, irq, high); }
      UpdatedOwes(p.RecordLevel(irq, high));
    case Unmask(irq) =>
      UpdatedOwes(p.(mask := p.mask - {irq}));
  }

  lemma PollFrame(p: P.State)
    ensures p.(waker := true).NextIrq() == p.NextIrq() && p.(pollPending := false).NextIrq() == p.NextIrq()
  {}

  /** Between a rise of OUT0 and the event that takes IRQ0 or clears it, the request stays. */
  lemma OwedStep(s: State, owed: bool, e: Event)
    requires s.Valid() && LevelTracks(s) && Possible(s, e) && Owes(s, owed)
    ensures Owes(Next(s, e), OwedAfter(s, owed, e))
  {
    match e
    case Interrupts(bus) => BusOwes(s.pic, bus);
    case Service(now) => TimerOwes(s, now);
    case WritePort(now, port, bytes, value) =>
      TimerOwes(s, now);
      SyncedTracks(s, now);
      WrittenMode(Synced(s, now), port, bytes, value);
      if !s.pic.levelTriggered { WrittenOwes(Synced(s, now), port, bytes, value); }
    case ReadPort(now, port, bytes) =>
      TimerOwes(s, now);
      SyncedTracks(s, now);
      LatchesKeepOutput(Synced(s, now).channel0, false, false);
    case SpeakerGate(now, high) => TimerOwes(s, now);
  }

  lemma TimerOwes(s: State, now: nat)
    requires s.Valid() && LevelTracks(s) && s.at <= now
    ensures ClocksAt(s.at) <= ClocksAt(now)
    ensures Synced(s, now).pic.levelTriggered == s.pic.levelTriggered
    ensures !s.pic.levelTriggered ==>
              (0 in Synced(s, now).pic.requests <==>
                 0 in s.pic.requests || Rose(s.channel0, ClocksAt(now) - ClocksAt(s.at)))
  {
    ClocksMonotone(s.at, now);
    SyncedInterrupt(s, now);
  }

  ghost predicate OwedAfterAll(s: State, owed: bool, events: seq<Event>)
    requires s.Valid() && PossibleRun(s, events)
    decreases |events|
  {
    if events == [] then owed
    else
      TrackingStep(s, events[0]);
      OwedAfterAll(Next(s, events[0]), OwedAfter(s, owed, events[0]), events[1..])
  }

  /** Over whole runs, in edge mode IRQ0 is pending exactly if OUT0 rose since it was last taken or cleared. */
  lemma {:induction false} PendingExactly(s: State, owed: bool, events: seq<Event>)
    requires s.Valid() && LevelTracks(s) && PossibleRun(s, events) && Owes(s, owed)
    ensures Owes(Run(s, events), OwedAfterAll(s, owed, events))
    decreases |events|
  {
    if events != [] {
      TrackingStep(s, events[0]);
      OwedStep(s, owed, events[0]);
      PendingExactly(Next(s, events[0]), OwedAfter(s, owed, events[0]), events[1..]);
    }
  }

  // ----- the device

  const BIOS_CHANNEL_0 := C.POWER_UP.(control := 0x36, gate := true, reload := TWO_16, active := TWO_16)

  // One clock after the writes, so that the period is under way from the start.
  method BiosChannel0() returns (counter: C.Counter)
    ensures fresh(counter) && counter.Value() == BIOS_CHANNEL_0
  {
    counter := new C.Counter();
    counter.SetGate(true);
    counter.Control(0x36);
    assert counter.Value() == C.POWER_UP.(control := 0x36, gate := true, nullCount := true);
    counter.Write(0);
    counter.Write(0);
    assert counter.Value() ==
           C.POWER_UP.(control := 0x36, gate := true, nullCount := true, reload := TWO_16, loading := true);
    C.OneStep(counter.Value());
    var _ := counter.Advance(1);
  }

  class Pit {
    var at: nat
    const channel0: C.Counter
    const channel2: C.Counter
    var channel2Update: Option<C.State>
    const pic: D.Pic

    function Value(): State
      reads this, channel0, channel2, pic.state
    {
      State(at, channel0.Value(), channel2.Value(), channel2Update, pic.state.Value())
    }

    ghost predicate Valid()
      reads this, channel0, channel2, pic.state
    {
      channel0 != channel2 && Value().Valid()
    }

    /** Channel 0 starts in mode 3 with divisor 65536 loaded and OUT0 high, without an edge. */
    constructor WithClock(now: nat, pic: D.Pic)
      modifies pic.state
      ensures Valid() && fresh(channel0) && fresh(channel2) && this.pic == pic
      ensures at == now && channel2.Value() == C.POWER_UP && channel2Update == None
      ensures channel0.Value() == BIOS_CHANNEL_0
      ensures pic.state.Value() == P.Apply(old(pic.state.Value()), P.Connect(0, true))
      ensures LevelTracks(Value())
    {
      var counter := BiosChannel0();
      channel0 := counter;
      channel2 := new C.Counter();
      channel2Update := None;
      at := now;
      this.pic := pic;
      new;
      assert BIOS_CHANNEL_0.Valid() && BIOS_CHANNEL_0.Output();
      D.LevelsFollowLines(pic.state.Value(), P.Connect(0, true));
      pic.Connect(0, channel0.Value().Output());
    }

    method SyncToClock(now: nat)
      requires Valid() && at <= now && ClocksAt(now) < TWO_64
      modifies this, channel0, channel2, pic.state
      ensures Valid() && Value() == Synced(old(Value()), now)
    {
      hide P.Apply, D.Pulsed, C.Steps, C.HighTime, C.FirstRise, C.NeverRises, Rose;
      SyncedValid(Value(), now);
      ClocksMonotone(at, now);
      var clocks := ClocksAt(now) - ClocksAt(at);
      ghost var start := channel0.Value();
      var edge := channel0.NextRisingEdge();
      RoseWithin(start, edge, clocks);
      if edge.Some? && edge.value <= clocks {
        // However many rises the clocks held, the edge is latched once.
        pic.Pulse(0);
      }
      var _ := channel0.Advance(clocks);
      pic.Line(0, channel0.Value().Output());
      var _ := channel2.Advance(clocks);
      at := now;
    }

    method ReadPort(now: nat, port: Word, bytes: Byte) returns (value: nat)
      requires Valid() && at <= now && ClocksAt(now) < TWO_64
      modifies this, channel0, channel2, pic.state
      ensures Synced(old(Value()), now).Valid()
      ensures Valid() && (Value(), value) == ReadFrom(Synced(old(Value()), now), port, bytes)
    {
      SyncToClock(now);
      if port == CHANNEL_0_PORT && bytes == 1 {
        value := channel0.Read();
      } else if port == CHANNEL_2_PORT && bytes == 1 {
        value := channel2.Read();
      } else {
        value := D.OPEN_BUS;
      }
    }

    method WritePort(now: nat, port: Word, bytes: Byte, value: nat)
      requires Valid() && at <= now && ClocksAt(now) < TWO_64
      modifies this, channel0, channel2, pic.state
      ensures Synced(old(Value()), now).Valid()
      ensures Valid() && Value() == Written(Synced(old(Value()), now), port, bytes, value)
    {
      SyncToClock(now);
      WrittenTracks(Value(), port, bytes, value);
      if bytes != 1 {
        return;
      }
      var byte: Byte := value % 0x100;
      if port == CONTROL_PORT && byte / 64 == 3 {
        // A set bit selects a counter; a clear one asks for its count or its status.
        if !Bit(byte, 1) {
          if Bit(byte, 2) { channel0.Latch(!Bit(byte, 32), !Bit(byte, 16)); }
          if Bit(byte, 8) { channel2.Latch(!Bit(byte, 32), !Bit(byte, 16)); }
        }
      } else if port == CHANNEL_0_PORT {
        Program(0, false, byte);
      } else if port == CHANNEL_2_PORT {
        Program(2, false, byte);
      } else if port == CONTROL_PORT {
        Program(byte / 64, true, byte);
      }
    }

    method Program(channel: nat, control: bool, byte: Byte)
      requires Valid()
      modifies this, channel0, channel2, pic.state
      ensures Valid() && Value() == WriteChannel(old(Value()), channel, control, byte)
    {
      WriteChannelTracks(Value(), channel, control, byte);
      if channel != 0 && channel != 2 {
        return;
      }
      var counter := if channel == 0 then channel0 else channel2;
      if control {
        counter.Control(byte);
        if byte / 16 % 4 == 0 {
          return;
        }
      } else {
        counter.Write(byte);
      }
      if channel == 0 {
        pic.Line(0, channel0.Value().Output());
      } else {
        channel2Update := Some(channel2.Value());
      }
    }

    method SetChannel2Gate(now: nat, high: bool)
      requires Valid() && at <= now && ClocksAt(now) < TWO_64
      modifies this, channel0, channel2, pic.state
      ensures Valid() && Value() == Gated(Synced(old(Value()), now), high)
    {
      SyncToClock(now);
      channel2.SetGate(high);
      channel2Update := Some(channel2.Value());
    }

    method TakeChannel2Update() returns (update: Option<C.State>)
      requires Valid()
      modifies this`channel2Update
      ensures update == old(channel2Update)
      ensures Valid() && Value() == old(Value()).(channel2Update := None)
    {
      update := channel2Update;
      channel2Update := None;
    }
  }

  // The first rising edge decides whether OUT rose within the elapsed clocks.
  lemma RoseWithin(c: C.State, edge: Option<nat>, clocks: nat)
    requires match edge case Some(k) => C.FirstRise(c, k) case None => C.NeverRises(c)
    ensures Rose(c, clocks) <==> edge.Some? && edge.value <= clocks
  {
    if edge.Some? && edge.value <= clocks {
      assert C.RisesAt(c, edge.value);
    }
  }
}

/** The master 8259A of crates/pic: arbitration, in-service nesting and initialization. */
module Pics {
  import opened Wrappers
  import opened Machine

  type Irq = i: int | 0 <= i < 8

  // ----- eight-bit registers as sets of interrupt numbers

  function Weight(irq: Irq): (w: nat)
    ensures w > 0
  {
    match irq
    case 0 => 1 case 1 => 2 case 2 => 4 case 3 => 8
    case 4 => 16 case 5 => 32 case 6 => 64 case _ => 128
  }

  function Irqs(value: Byte): set<Irq> {
    set i: Irq | Bit(value, Weight(i))
  }

  function One(bits: set<Irq>, irq: Irq): Byte {
    if irq in bits then Weight(irq) else 0
  }

  function Register(bits: set<Irq>): Byte {
    One(bits, 0) + One(bits, 1) + One(bits, 2) + One(bits, 3)
    + One(bits, 4) + One(bits, 5) + One(bits, 6) + One(bits, 7)
  }

  lemma EightBits(b0: nat, b1: nat, b2: nat, b3: nat, b4: nat, b5: nat, b6: nat, b7: nat, value: nat)
    requires b0 <= 1 && b1 <= 1 && b2 <= 1 && b3 <= 1 && b4 <= 1 && b5 <= 1 && b6 <= 1 && b7 <= 1
    requires value == b0 + 2 * b1 + 4 * b2 + 8 * b3 + 16 * b4 + 32 * b5 + 64 * b6 + 128 * b7
    ensures value % 2 == b0 && value / 2 % 2 == b1 && value / 4 % 2 == b2 && value / 8 % 2 == b3
    ensures value / 16 % 2 == b4 && value / 32 % 2 == b5 && value / 64 % 2 == b6 && value / 128 % 2 == b7
  {
    assert value / 2 == b1 + 2 * b2 + 4 * b3 + 8 * b4 + 16 * b5 + 32 * b6 + 64 * b7;
    assert value / 4 == b2 + 2 * b3 + 4 * b4 + 8 * b5 + 16 * b6 + 32 * b7;
    assert value / 8 == b3 + 2 * b4 + 4 * b5 + 8 * b6 + 16 * b7;
    assert value / 16 == b4 + 2 * b5 + 4 * b6 + 8 * b7;
    assert value / 32 == b5 + 2 * b6 + 4 * b7;
    assert value / 64 == b6 + 2 * b7;
    assert value / 128 == b7;
  }

  lemma BitsOfByte(value: Byte)
    ensures value == value % 2 + 2 * (value / 2 % 2) + 4 * (value / 4 % 2) + 8 * (value / 8 % 2)
                     + 16 * (value / 16 % 2) + 32 * (value / 32 % 2) + 64 * (value / 64 % 2)
                     + 128 * (value / 128 % 2)
  {
    assert value / 4 == value / 2 / 2 && value / 8 == value / 4 / 2 && value / 16 == value / 8 / 2;
    assert value / 32 == value / 16 / 2 && value / 64 == value / 32 / 2 && value / 128 == value / 64 / 2;
  }

  function Flag(bits: set<Irq>, irq: Irq): nat {
    if irq in bits then 1 else 0
  }

  lemma RegisterBits(bits: set<Irq>)
    ensures var r := Register(bits);
            && r % 2 == Flag(bits, 0) && r / 2 % 2 == Flag(bits, 1)
            && r / 4 % 2 == Flag(bits, 2) && r / 8 % 2 == Flag(bits, 3)
            && r / 16 % 2 == Flag(bits, 4) && r / 32 % 2 == Flag(bits, 5)
            && r / 64 % 2 == Flag(bits, 6) && r / 128 % 2 == Flag(bits, 7)
  {
    EightBits(Flag(bits, 0), Flag(bits, 1), Flag(bits, 2), Flag(bits, 3),
              Flag(bits, 4), Flag(bits, 5), Flag(bits, 6), Flag(bits, 7), Register(bits));
  }

  /** A register read by the guest shows exactly its interrupts ... */
  lemma RegisterShowsIrqs(bits: set<Irq>)
    ensures Irqs(Register(bits)) == bits
  {
    var r := Register(bits);
    forall i: Irq ensures Bit(r, Weight(i)) == (i in bits) {
      RegisterBits(bits);
    }
  }

  /** ... and a written mask reads back unchanged. */
  lemma IrqsRegisterBack(value: Byte)
    ensures Register(Irqs(value)) == value
  {
    BitsOfByte(value);
    assert forall i: Irq :: i in Irqs(value) <==> Bit(value, Weight(i));
    assert One(Irqs(value), 0) == value % 2 && One(Irqs(value), 1) == 2 * (value / 2 % 2);
    assert One(Irqs(value), 2) == 4 * (value / 4 % 2) && One(Irqs(value), 3) == 8 * (value / 8 % 2);
    assert One(Irqs(value), 4) == 16 * (value / 16 % 2) && One(Irqs(value), 5) == 32 * (value / 32 % 2);
    assert One(Irqs(value), 6) == 64 * (value / 64 % 2) && One(Irqs(value), 7) == 128 * (value / 128 % 2);
  }

  // How far below the highest priority an input stands, counting around the eight of them.
  function RankBelow(highest: Irq, irq: Irq): Irq {
    if irq >= highest then irq - highest else irq + 8 - highest
  }

  function SearchFrom(highest: Irq, bits: set<Irq>, offset: nat): (found: Option<Irq>)
    requires offset <= 8
    requires forall i <- bits :: RankBelow(highest, i) >= offset
    ensures found.None? <==> bits == {}
    ensures found.Some? ==> found.value in bits
                            && forall i <- bits :: RankBelow(highest, found.value) <= RankBelow(highest, i)
    decreases 8 - offset
  {
    if offset == 8 then
      assert forall i: Irq :: RankBelow(highest, i) < 8;
      assert forall i: Irq :: i !in bits;
      None
    else
      var irq: Irq := (highest + offset) % 8;
      assert forall i: Irq :: RankBelow(highest, i) == offset <==> i == irq;
      if irq in bits then Some(irq) else SearchFrom(highest, bits, offset + 1)
  }

  function HighestPriority(highest: Irq, bits: set<Irq>): (found: Option<Irq>)
    ensures found.None? <==> bits == {}
    ensures found.Some? ==> found.value in bits
                            && forall i <- bits :: RankBelow(highest, found.value) <= RankBelow(highest, i)
  {
    SearchFrom(highest, bits, 0)
  }

  datatype Initialization =
    | Ready
    | VectorBase(needsCascade: bool, needsIcw4: bool)
    | Cascade(needsIcw4: bool)
    | Mode

  datatype State = State(
    vectorBase: Byte,
    mask: set<Irq>,
    requests: set<Irq>,
    inService: set<Irq>,
    levels: set<Irq>,
    highest: Irq,
    levelTriggered: bool,
    autoEoi: bool,
    rotateOnAutoEoi: bool,
    specialMask: bool,
    readInService: bool,
    pollPending: bool,
    initialization: Initialization,
    waker: bool)
  {
    function Rank(irq: Irq): Irq { RankBelow(highest, irq) }

    function BlockingService(): set<Irq> {
      if specialMask then inService - mask else inService
    }

    function NextIrq(): Option<Irq> {
      if !initialization.Ready? then None
      else
        var pending := HighestPriority(highest, requests - mask);
        var active := HighestPriority(highest, BlockingService());
        if pending.Some? && active.Some? && Rank(pending.value) >= Rank(active.value) then None else pending
    }

    function SetLowestPriority(irq: Irq): State {
      this.(highest := (irq + 1) % 8)
    }

    function RefreshLevels(): State {
      if levelTriggered then this.(requests := levels) else this
    }

    function Acknowledge(): State {
      match NextIrq()
      case None => this
      case Some(irq) =>
        var taken := this.(requests := requests - {irq});
        (if !autoEoi then taken.(inService := inService + {irq})
         else if rotateOnAutoEoi then taken.SetLowestPriority(irq)
         else taken).RefreshLevels()
    }

    function RecordLevel(irq: Irq, high: bool): State {
      this.(levels := if high then levels + {irq} else levels - {irq}).RefreshLevels()
    }

    function SetLevel(irq: Irq, high: bool): State {
      (if high && irq !in levels then this.(requests := requests + {irq}) else this).RecordLevel(irq, high)
    }

    // The byte read from the command port and the registers it leaves.
    function ReadCommand(): (State, Byte) {
      if pollPending then
        var polled := this.(pollPending := false);
        (polled.Acknowledge(), match polled.NextIrq() case Some(irq) => 0x80 + irq case None => 0)
      else
        (this, Register(if readInService then inService else requests))
    }

    function Initialize(value: Byte): State {
      New(0).(waker := waker, levels := levels, mask := {}, levelTriggered := Bit(value, 8),
              initialization := VectorBase(!Bit(value, 2), Bit(value, 1)))
    }

    // Ends an interrupt, moves the lowest priority, or both.
    function EndOrRotate(value: Byte): State {
      var specific, rotate := Bit(value, 64), Bit(value, 128);
      var irq: Irq := value % 8;
      if Bit(value, 32) then
        match if specific then Some(irq) else HighestPriority(highest, BlockingService())
        case Some(ended) =>
          var cleared := this.(inService := inService - {ended});
          if rotate then cleared.SetLowestPriority(ended) else cleared
        case None => this
      else if !specific then this.(rotateOnAutoEoi := rotate)
      else if rotate then SetLowestPriority(irq)
      else this
    }

    // Leaves in-service bits and priorities alone; only what the bits select changes.
    function SelectModes(value: Byte): State {
      this.(readInService := if Bit(value, 2) then Bit(value, 1) else readInService,
            specialMask := if Bit(value, 64) then Bit(value, 32) else specialMask,
            pollPending := Bit(value, 4))
    }

    function Command(value: Byte): State {
      if Bit(value, 16) then Initialize(value)
      else if Bit(value, 8) then SelectModes(value)
      else EndOrRotate(value)
    }

    function Data(value: Byte): State {
      (match initialization
       case Ready => this.(mask := Irqs(value))
       case VectorBase(needsCascade, needsIcw4) =>
         this.(vectorBase := value - value % 8,
               initialization := if needsCascade then Cascade(needsIcw4) else if needsIcw4 then Mode else Ready)
       case Cascade(needsIcw4) => this.(initialization := if needsIcw4 then Mode else Ready)
       case Mode => this.(autoEoi := Bit(value, 2), initialization := Ready)).RefreshLevels()
    }

    // A changed controller wakes the waiting CPU once it has something to deliver.
    function Updated(): State {
      if NextIrq().Some? then this.(waker := false) else this
    }
  }

  function New(vectorBase: Byte): State {
    State(vectorBase, AllIrqs(), {}, {}, {}, 0, false, false, false, false, false, false, Ready, false)
  }

  function AllIrqs(): set<Irq> { {0, 1, 2, 3, 4, 5, 6, 7} }

  // ----- arbitration

  /** Exactly which request is delivered: requested, unmasked, first among those in rotated
      priority, and strictly above every interrupt in service. */
  lemma FullyNested(s: State, irq: Irq)
    ensures s.NextIrq() == Some(irq) <==>
              && s.initialization.Ready?
              && irq in s.requests - s.mask
              && (forall i <- s.requests - s.mask :: i != irq ==> s.Rank(irq) < s.Rank(i))
              && (forall i <- s.BlockingService() :: s.Rank(irq) < s.Rank(i))
  {
    RanksDiffer(s);
  }

  lemma RanksDiffer(s: State)
    ensures forall i: Irq, j: Irq :: s.Rank(i) == s.Rank(j) ==> i == j
  {}

  // ----- nesting over whole runs

  datatype Event =
    | Accept                            // the CPU polls for an interrupt
    | Line(irq: Irq, high: bool)        // an input changes
    | Connect(irq: Irq, high: bool)     // an input is attached at its level
    | Unmask(irq: Irq)                  // the host enables delivery on an input
    | WriteCommand(value: Byte)
    | WriteData(value: Byte)
    | ReadStatus

  function Apply(s: State, e: Event): State {
    match e
    case Accept => s.(waker := true).Acknowledge()
    case Line(irq, high) => s.SetLevel(irq, high).Updated()
    case Connect(irq, high) => s.RecordLevel(irq, high).Updated()
    case Unmask(irq) => s.(mask := s.mask - {irq}).Updated()
    case WriteCommand(value) => s.Command(value).Updated()
    case WriteData(value) => s.Data(value).Updated()
    case ReadStatus => s.ReadCommand().0
  }

  // The interrupt an event hands over for service, if any.
  function Taken(s: State, e: Event): Option<Irq> {
    if e.Accept? || (e.ReadStatus? && s.pollPending) then s.NextIrq() else None
  }

  predicate PlainEnd(e: Event) {
    && e.WriteCommand? && !Bit(e.value, 16) && !Bit(e.value, 8)
    && Bit(e.value, 32) && !Bit(e.value, 64)
  }

  // A specific end of interrupt or priority command, and the interrupt it names.
  predicate Specific(e: Event) {
    e.WriteCommand? && !Bit(e.value, 16) && !Bit(e.value, 8) && Bit(e.value, 64)
  }

  predicate SpecificEnd(e: Event) { Specific(e) && Bit(e.value, 32) }

  predicate EntersSpecialMask(e: Event) {
    e.WriteCommand? && !Bit(e.value, 16) && Bit(e.value, 8) && Bit(e.value, 64) && Bit(e.value, 32)
  }

  /** No special mask mode, and no command that names a new lowest priority. */
  predicate SoftwareNesting(e: Event) {
    !EntersSpecialMask(e) && !(Specific(e) && Bit(e.value, 128))
  }

  function Without(stack: seq<Irq>, irq: Irq): seq<Irq> {
    if stack == [] then []
    else if stack[0] == irq then Without(stack[1..], irq)
    else [stack[0]] + Without(stack[1..], irq)
  }

  /** The nesting an observer of the bus records: accepted interrupts not yet ended, latest last. */
  function Nesting(stack: seq<Irq>, s: State, e: Event): seq<Irq> {
    if Taken(s, e).Some? then
      if s.autoEoi then stack else stack + [Taken(s, e).value]
    else if PlainEnd(e) then
      if stack == [] then [] else stack[..|stack| - 1]
    else if SpecificEnd(e) then
      Without(stack, e.value % 8)
    else if e.WriteCommand? && Bit(e.value, 16) then
      []
    else
      stack
  }

  ghost predicate Rising(s: State, stack: seq<Irq>) {
    forall i, j | 0 <= i < j < |stack| :: s.Rank(stack[j]) < s.Rank(stack[i])
  }

  /** In-service bits are the recorded stack, with strictly rising priority towards its top. */
  ghost predicate Stacked(s: State, stack: seq<Irq>) {
    && (forall i: Irq :: i in s.inService <==> i in stack)
    && Rising(s, stack)
    && (s.autoEoi || !s.initialization.Ready? ==> stack == [])
  }

  ghost predicate Nested(s: State, stack: seq<Irq>) {
    !s.specialMask && Stacked(s, stack)
  }

  /** Where the lowest priority may move: above all that is in service, or below all of it. */
  predicate Rotatable(s: State, stack: seq<Irq>, irq: Irq) {
    stack == [] || s.Rank(irq) < s.Rank(stack[|stack| - 1]) || s.Rank(stack[0]) <= s.Rank(irq)
  }

  /** Exactly the events that keep the stack, in special mask mode or not: what is accepted outranks the
      top, a plain end of interrupt finds the top unmasked, and a priority command does not move the
      lowest priority to within the stack. */
  predicate KeepsNesting(s: State, stack: seq<Irq>, e: Event) {
    && (Taken(s, e).Some? && stack != [] ==> s.Rank(Taken(s, e).value) < s.Rank(stack[|stack| - 1]))
    && (PlainEnd(e) && s.specialMask && stack != [] ==> stack[|stack| - 1] !in s.mask)
    && (Specific(e) && Bit(e.value, 128) ==>
          Rotatable(s, if SpecificEnd(e) then Without(stack, e.value % 8) else stack, e.value % 8))
  }

  lemma HighestOfStack(s: State, stack: seq<Irq>, bits: set<Irq>)
    requires Stacked(s, stack) && stack != [] && stack[|stack| - 1] in bits && bits <= s.inService
    ensures HighestPriority(s.highest, bits) == Some(stack[|stack| - 1])
  {
    var found := HighestPriority(s.highest, bits).value;
    var k :| 0 <= k < |stack| && stack[k] == found;
    RanksDiffer(s);
  }

  /** Moving the lowest priority keeps a stack in order exactly when it does not pass through it. */
  lemma RotationExact(s: State, stack: seq<Irq>, irq: Irq)
    requires Rising(s, stack)
    ensures Rising(s.SetLowestPriority(irq), stack) <==> Rotatable(s, stack, irq)
  {
    var after := s.SetLowestPriority(irq);
    if Rotatable(s, stack, irq) {
      forall i, j | 0 <= i < j < |stack| ensures after.Rank(stack[j]) < after.Rank(stack[i]) {
        assert s.Rank(stack[j]) < s.Rank(stack[i]);
        assert s.Rank(stack[i]) <= s.Rank(stack[0]) && s.Rank(stack[|stack| - 1]) <= s.Rank(stack[j]);
        RotatedRank(s, irq, stack[i]);
        RotatedRank(s, irq, stack[j]);
      }
    } else {
      var top, bottom := stack[|stack| - 1], stack[0];
      assert after.Rank(top) >= after.Rank(bottom) by {
        RotatedRank(s, irq, top);
        RotatedRank(s, irq, bottom);
      }
    }
  }

  lemma RotatedRank(s: State, irq: Irq, i: Irq)
    ensures s.SetLowestPriority(irq).Rank(i) ==
            if s.Rank(irq) < s.Rank(i) then s.Rank(i) - s.Rank(irq) - 1 else s.Rank(i) + 7 - s.Rank(irq)
  {}

  lemma {:induction false} WithoutMembers(stack: seq<Irq>, irq: Irq, i: Irq)
    ensures i in Without(stack, irq) <==> i in stack && i != irq
    decreases |stack|
  {
    if stack != [] { WithoutMembers(stack[1..], irq, i); }
  }

  lemma {:induction false} WithoutRises(s: State, stack: seq<Irq>, irq: Irq)
    requires Rising(s, stack)
    ensures Rising(s, Without(stack, irq))
    decreases |stack|
  {
    if stack != [] {
      var first, rest := stack[0], stack[1..];
      assert Rising(s, rest);
      WithoutRises(s, rest, irq);
      forall j | 0 <= j < |Without(rest, irq)| ensures s.Rank(Without(rest, irq)[j]) < s.Rank(first) {
        WithoutMembers(rest, irq, Without(rest, irq)[j]);
        var k :| 0 <= k < |rest| && rest[k] == Without(rest, irq)[j];
        assert stack[k + 1] == rest[k];
      }
    }
  }

  lemma SpecificEndEffect(s: State, e: Event)
    requires SpecificEnd(e)
    ensures var cleared := s.(inService := s.inService - {e.value % 8});
            s.EndOrRotate(e.value) == if Bit(e.value, 128) then cleared.SetLowestPriority(e.value % 8) else cleared
  {}

  /** A specific end of interrupt takes its interrupt out of the stack, wherever it is. */
  lemma SpecificEndExact(s: State, stack: seq<Irq>, e: Event)
    requires Stacked(s, stack) && SpecificEnd(e)
    ensures Stacked(s.EndOrRotate(e.value), Without(stack, e.value % 8)) <==> KeepsNesting(s, stack, e)
  {
    hide State.EndOrRotate, Bit, State.NextIrq;
    var irq: Irq := e.value % 8;
    SpecificEndEffect(s, e);
    WithoutRises(s, stack, irq);
    RemovalStacked(s, stack, irq);
    var cleared := s.(inService := s.inService - {irq});
    RotationExact(cleared, Without(stack, irq), irq);
  }

  lemma RemovalStacked(s: State, stack: seq<Irq>, irq: Irq)
    requires Stacked(s, stack)
    ensures Stacked(s.(inService := s.inService - {irq}), Without(stack, irq))
  {
    WithoutRises(s, stack, irq);
    forall i: Irq ensures i in Without(stack, irq) <==> i in stack && i != irq { WithoutMembers(stack, irq, i); }
  }

  lemma SetPriorityExact(s: State, stack: seq<Irq>, e: Event)
    requires Stacked(s, stack) && Specific(e) && !SpecificEnd(e)
    ensures Stacked(s.EndOrRotate(e.value), stack) <==> KeepsNesting(s, stack, e)
  {
    RotationExact(s, stack, e.value % 8);
  }

  lemma PushExact(s: State, stack: seq<Irq>, irq: Irq)
    requires Stacked(s, stack) && s.initialization.Ready? && !s.autoEoi
    ensures Stacked(s.(inService := s.inService + {irq}), stack + [irq]) <==>
              stack == [] || s.Rank(irq) < s.Rank(stack[|stack| - 1])
  {
    var pushed := stack + [irq];
    assert pushed[|stack|] == irq;
    if stack != [] {
      assert pushed[|stack| - 1] == stack[|stack| - 1];
    }
  }

  lemma AcceptExact(s: State, stack: seq<Irq>)
    requires Stacked(s, stack)
    ensures Stacked(s.Acknowledge(), if s.NextIrq().Some? && !s.autoEoi then stack + [s.NextIrq().value] else stack)
            <==> (s.NextIrq().Some? && stack != [] ==> s.Rank(s.NextIrq().value) < s.Rank(stack[|stack| - 1]))
  {
    if s.NextIrq().Some? && !s.autoEoi {
      var irq := s.NextIrq().value;
      FullyNested(s, irq);
      PushExact(s, stack, irq);
      SameStackStacked(s.(inService := s.inService + {irq}), s.Acknowledge(), stack + [irq]);
    }
  }

  // What a plain end of interrupt does to in-service bits and priorities.
  lemma PlainEndEffect(s: State, e: Event)
    requires PlainEnd(e)
    ensures var found := HighestPriority(s.highest, s.BlockingService());
            if found.None? then s.EndOrRotate(e.value) == s
            else
              var cleared := s.(inService := s.inService - {found.value});
              s.EndOrRotate(e.value) == if Bit(e.value, 128) then cleared.SetLowestPriority(found.value) else cleared
  {}

  lemma PopMembers(stack: seq<Irq>, i: Irq)
    requires stack != [] && forall j | 0 <= j < |stack| - 1 :: stack[j] != stack[|stack| - 1]
    ensures i in stack[..|stack| - 1] <==> i in stack && i != stack[|stack| - 1]
  {
    if i in stack && i != stack[|stack| - 1] {
      var k :| 0 <= k < |stack| && stack[k] == i;
      assert stack[..|stack| - 1][k] == i;
    }
  }

  lemma PopRises(s: State, stack: seq<Irq>)
    requires Rising(s, stack) && stack != []
    ensures Rising(s, stack[..|stack| - 1])
    ensures Rising(s.SetLowestPriority(stack[|stack| - 1]), stack[..|stack| - 1])
  {
    var top, rest := stack[|stack| - 1], stack[..|stack| - 1];
    if rest != [] { assert s.Rank(top) < s.Rank(stack[|rest| - 1]); }
    RotationExact(s, rest, top);
  }

  lemma PopStacked(s: State, stack: seq<Irq>, rotate: bool)
    requires Stacked(s, stack) && stack != []
    ensures var top := stack[|stack| - 1]; var cleared := s.(inService := s.inService - {top});
            Stacked(if rotate then cleared.SetLowestPriority(top) else cleared, stack[..|stack| - 1])
  {
    hide RankBelow;
    forall i: Irq ensures i in stack[..|stack| - 1] <==> i in stack && i != stack[|stack| - 1] {
      PopMembers(stack, i);
    }
    PopRises(s, stack);
  }

  lemma PlainEndExact(s: State, stack: seq<Irq>, e: Event)
    requires Stacked(s, stack) && PlainEnd(e)
    ensures Stacked(s.EndOrRotate(e.value), if stack == [] then [] else stack[..|stack| - 1])
            <==> (s.specialMask && stack != [] ==> stack[|stack| - 1] !in s.mask)
  {
    hide State.EndOrRotate, Bit;
    PlainEndEffect(s, e);
    if stack == [] {
      assert s.inService == {} && s.BlockingService() == {};
    } else {
      var top, rest := stack[|stack| - 1], stack[..|stack| - 1];
      assert top in s.inService && top !in rest;
      if s.specialMask && top in s.mask {
        assert top in s.EndOrRotate(e.value).inService;
      } else {
        HighestOfStack(s, stack, s.BlockingService());
        PopStacked(s, stack, Bit(e.value, 128));
      }
    }
  }

  // The stack only depends on these registers.
  predicate SameStack(s: State, t: State) {
    && t.inService == s.inService && t.highest == s.highest
    && t.autoEoi == s.autoEoi && t.initialization == s.initialization
  }

  predicate SameService(s: State, t: State) {
    SameStack(s, t) && t.specialMask == s.specialMask
  }

  lemma SameStackStacked(s: State, t: State, stack: seq<Irq>)
    requires SameStack(s, t)
    ensures Stacked(s, stack) <==> Stacked(t, stack)
  {}

  lemma UpdatedStacked(s: State, stack: seq<Irq>)
    ensures Stacked(s.Updated(), stack) <==> Stacked(s, stack)
  {}

  lemma UpdateIsQuiet(s: State)
    ensures s.Updated().inService == s.inService && s.Updated().NextIrq() == s.NextIrq()
    ensures s.waker ==> (s.Updated().waker <==> s.NextIrq().None?)
  {}

  lemma CommandExact(s: State, stack: seq<Irq>, value: Byte)
    requires Stacked(s, stack)
    ensures var e := WriteCommand(value);
            Stacked(s.Command(value), Nesting(stack, s, e)) <==> KeepsNesting(s, stack, e)
  {
    hide State.NextIrq;
    var e := WriteCommand(value);
    if PlainEnd(e) {
      PlainEndExact(s, stack, e);
    } else if Bit(value, 16) {
      assert s.Command(value) == s.Initialize(value);
    } else if Bit(value, 8) {
      SameStackStacked(s, s.SelectModes(value), stack);
    } else if SpecificEnd(e) {
      SpecificEndExact(s, stack, e);
    } else if Specific(e) {
      SetPriorityExact(s, stack, e);
    } else {
      SameStackStacked(s, s.EndOrRotate(value), stack);
    }
  }

  lemma DataStacked(s: State, stack: seq<Irq>, value: Byte)
    requires Stacked(s, stack)
    ensures Stacked(s.Data(value), stack)
  {
    if s.initialization.Ready? {
      SameStackStacked(s, s.Data(value), stack);
    } else {
      assert s.Data(value).inService == s.inService;
    }
  }

  lemma LevelsStacked(s: State, stack: seq<Irq>, irq: Irq, high: bool)
    requires Stacked(s, stack)
    ensures Stacked(s.SetLevel(irq, high), stack) && Stacked(s.RecordLevel(irq, high), stack)
  {
    SameStackStacked(s, s.SetLevel(irq, high), stack);
    SameStackStacked(s, s.RecordLevel(irq, high), stack);
  }

  lemma ReadExact(s: State, stack: seq<Irq>)
    requires Stacked(s, stack)
    ensures Stacked(s.ReadCommand().0, Nesting(stack, s, ReadStatus)) <==> KeepsNesting(s, stack, ReadStatus)
  {
    if s.pollPending {
      assert s.(pollPending := false).NextIrq() == s.NextIrq();
      SameStackStacked(s, s.(pollPending := false), stack);
      AcceptExact(s.(pollPending := false), stack);
    }
  }

  lemma PollExact(s: State, stack: seq<Irq>)
    requires Stacked(s, stack)
    ensures Stacked(s.(waker := true).Acknowledge(), Nesting(stack, s, Accept)) <==> KeepsNesting(s, stack, Accept)
  {
    assert s.(waker := true).NextIrq() == s.NextIrq();
    AcceptExact(s.(waker := true), stack);
  }

  /** In either mode, the in-service interrupts stay the recorded stack exactly for the events of KeepsNesting. */
  lemma NestingStep(s: State, stack: seq<Irq>, e: Event)
    requires Stacked(s, stack)
    ensures Stacked(Apply(s, e), Nesting(stack, s, e)) <==> KeepsNesting(s, stack, e)
  {
    hide State.Command, State.Data, State.SetLevel, State.RecordLevel, State.Updated;
    match e
    case Accept => PollExact(s, stack);
    case ReadStatus => ReadExact(s, stack);
    case WriteCommand(value) =>
      CommandExact(s, stack, value);
      UpdatedStacked(s.Command(value), Nesting(stack, s, e));
    case WriteData(value) =>
      DataStacked(s, stack, value);
      UpdatedStacked(s.Data(value), stack);
    case Line(irq, high) =>
      LevelsStacked(s, stack, irq, high);
      UpdatedStacked(s.SetLevel(irq, high), stack);
    case Connect(irq, high) =>
      LevelsStacked(s, stack, irq, high);
      UpdatedStacked(s.RecordLevel(irq, high), stack);
    case Unmask(irq) =>
      UpdatedStacked(s.(mask := s.mask - {irq}), stack);
  }

  /** Outside special mask mode an accepted interrupt strictly outranks everything in service. */
  lemma AcceptanceOutranks(s: State, stack: seq<Irq>, e: Event)
    requires Nested(s, stack) && Taken(s, e).Some? && stack != []
    ensures s.Rank(Taken(s, e).value) < s.Rank(stack[|stack| - 1])
  {
    FullyNested(s, Taken(s, e).value);
    assert stack[|stack| - 1] in s.inService;
  }

  /** And a plain end of interrupt, rotating or not, ends the latest acceptance and nothing else. */
  lemma PlainEndEndsLatest(s: State, stack: seq<Irq>, e: Event)
    requires Nested(s, stack) && PlainEnd(e)
    ensures Apply(s, e).inService == if stack == [] then {} else s.inService - {stack[|stack| - 1]}
  {
    hide State.EndOrRotate, Bit;
    PlainEndEffect(s, e);
    if stack == [] {
      assert s.inService == {};
    } else {
      assert stack[|stack| - 1] in s.inService;
      HighestOfStack(s, stack, s.inService);
    }
    UpdateIsQuiet(s.EndOrRotate(e.value));
    assert Apply(s, e) == s.EndOrRotate(e.value).Updated();
  }

  function Run(s: State, events: seq<Event>): State
    decreases |events|
  {
    if events == [] then s else Run(Apply(s, events[0]), events[1..])
  }

  function History(stack: seq<Irq>, s: State, events: seq<Event>): seq<Irq>
    decreases |events|
  {
    if events == [] then stack
    else History(Nesting(stack, s, events[0]), Apply(s, events[0]), events[1..])
  }

  // Every event of a run is one that keeps the stack where it happens.
  predicate KeepsAll(s: State, stack: seq<Irq>, events: seq<Event>)
    decreases |events|
  {
    events != [] ==>
      KeepsNesting(s, stack, events[0]) && KeepsAll(Apply(s, events[0]), Nesting(stack, s, events[0]), events[1..])
  }

  ghost predicate AlwaysStacked(s: State, stack: seq<Irq>, events: seq<Event>)
    decreases |events|
  {
    && Stacked(s, stack)
    && (events != [] ==> AlwaysStacked(Apply(s, events[0]), Nesting(stack, s, events[0]), events[1..]))
  }

  /** Through any modes, in-service interrupts are the recorded stack all along a run exactly when each of
      its events keeps it. */
  lemma {:induction false} RunsNestExactly(s: State, stack: seq<Irq>, events: seq<Event>)
    requires Stacked(s, stack)
    ensures AlwaysStacked(s, stack, events) <==> KeepsAll(s, stack, events)
    decreases |events|
  {
    if events != [] {
      var after, nesting := Apply(s, events[0]), Nesting(stack, s, events[0]);
      NestingStep(s, stack, events[0]);
      if KeepsNesting(s, stack, events[0]) {
        RunsNestExactly(after, nesting, events[1..]);
      } else {
        assert !AlwaysStacked(after, nesting, events[1..]);
      }
    }
  }

  lemma SoftwareKeeps(s: State, stack: seq<Irq>, e: Event)
    requires Nested(s, stack) && SoftwareNesting(e)
    ensures KeepsNesting(s, stack, e) && Nested(Apply(s, e), Nesting(stack, s, e))
  {
    if Taken(s, e).Some? && stack != [] { AcceptanceOutranks(s, stack, e); }
    assert KeepsNesting(s, stack, e);
    NestingStep(s, stack, e);
    StaysOut(s, e);
  }

  // Only one command enters special mask mode.
  lemma StaysOut(s: State, e: Event)
    requires !s.specialMask && !EntersSpecialMask(e)
    ensures !Apply(s, e).specialMask
  {
    hide State.NextIrq, Register, Irqs, State.Acknowledge, State.Command, State.Data;
    match e
    case Accept => AcknowledgeKeepsMode(s.(waker := true));
    case ReadStatus => AcknowledgeKeepsMode(s.(pollPending := false));
    case WriteCommand(value) => CommandStaysOut(s, value);
    case WriteData(value) => DataKeepsMode(s, value);
    case _ =>
  }

  lemma AcknowledgeKeepsMode(s: State)
    ensures s.Acknowledge().specialMask == s.specialMask
  {
    hide State.NextIrq;
  }

  lemma DataKeepsMode(s: State, value: Byte)
    ensures s.Data(value).specialMask == s.specialMask
  {
    hide Bit, Irqs;
  }

  lemma CommandStaysOut(s: State, value: Byte)
    requires !s.specialMask && !EntersSpecialMask(WriteCommand(value))
    ensures !s.Command(value).specialMask
  {
    hide HighestPriority;
  }

  /** Without special mask mode and commands that name a new lowest priority, every run nests. */
  lemma {:induction false} RunsNest(s: State, stack: seq<Irq>, events: seq<Event>)
    requires Nested(s, stack) && forall e <- events :: SoftwareNesting(e)
    ensures Nested(Run(s, events), History(stack, s, events)) && KeepsAll(s, stack, events)
    decreases |events|
  {
    if events != [] {
      assert SoftwareNesting(events[0]);
      SoftwareKeeps(s, stack, events[0]);
      RunsNest(Apply(s, events[0]), Nesting(stack, s, events[0]), events[1..]);
    }
  }

  lemma PowerUpNests(vectorBase: Byte)
    ensures Nested(New(vectorBase), [])
  {}

  // ----- special mask mode

  /** In special mask mode, whatever is requested, an accepted interrupt outranks the top of the stack
      exactly when every unmasked input below the top is blocked by an unmasked one in service. */
  lemma SpecialMaskExact(s: State, stack: seq<Irq>)
    requires Stacked(s, stack) && s.specialMask && stack != []
    ensures var top := stack[|stack| - 1];
            (forall requests: set<Irq> | s.(requests := requests).NextIrq().Some? ::
               s.Rank(s.(requests := requests).NextIrq().value) < s.Rank(top))
            <==> forall irq: Irq | irq !in s.mask && s.Rank(top) < s.Rank(irq) :: Blocked(s, irq)
  {
    var top := stack[|stack| - 1];
    assert top in s.inService;
    forall requests: set<Irq> | s.(requests := requests).NextIrq().Some?
      ensures var irq := s.(requests := requests).NextIrq().value;
              irq !in s.mask && irq != top && !Blocked(s, irq)
    {
      FullyNested(s.(requests := requests), s.(requests := requests).NextIrq().value);
    }
    forall irq: Irq | irq !in s.mask && s.Rank(top) < s.Rank(irq) && !Blocked(s, irq)
      ensures s.(requests := {irq}).NextIrq() == Some(irq)
    {
      FullyNested(s.(requests := {irq}), irq);
    }
    RanksDiffer(s);
  }

  // An unmasked interrupt in service stands at or above the input.
  predicate Blocked(s: State, irq: Irq) {
    exists i <- s.inService - s.mask :: s.Rank(i) <= s.Rank(irq)
  }

  /** There a plain end of interrupt ends the latest acceptance exactly when that one is not masked. */
  lemma SpecialMaskEndExact(s: State, stack: seq<Irq>, e: Event)
    requires Stacked(s, stack) && s.specialMask && stack != [] && PlainEnd(e)
    ensures var top := stack[|stack| - 1];
            Apply(s, e).inService == s.inService - {top} <==> top !in s.mask
  {
    hide State.EndOrRotate, Bit;
    var top := stack[|stack| - 1];
    assert top in s.inService;
    PlainEndEffect(s, e);
    UpdateIsQuiet(s.EndOrRotate(e.value));
    assert Apply(s, e) == s.EndOrRotate(e.value).Updated();
    if top !in s.mask { HighestOfStack(s, stack, s.inService - s.mask); }
  }

  // ----- runs from power-on that leave the nesting

  // One event of a run.
  lemma RunOn(s: State, stack: seq<Irq>, e: Event, rest: seq<Event>)
    ensures Run(s, [e] + rest) == Run(Apply(s, e), rest)
    ensures History(stack, s, [e] + rest) == History(Nesting(stack, s, e), Apply(s, e), rest)
  {
    assert ([e] + rest)[1..] == rest;
  }

  lemma UnmaskedAll()
    ensures Irqs(0) == {} && Irqs(4) == {2}
  {
    forall i: Irq ensures !Bit(0, Weight(i)) && (Bit(4, Weight(i)) <==> i == 2) {}
  }

  lemma RaisesEdge(s: State, irq: Irq)
    requires !s.levelTriggered && s.requests == {} && irq !in s.levels
    ensures Apply(s, Line(irq, true)) ==
            s.(levels := s.levels + {irq}, requests := {irq}, waker := Apply(s, Line(irq, true)).waker)
  {}

  lemma AcceptsOnly(s: State, irq: Irq)
    requires s.initialization.Ready? && !s.levelTriggered && !s.autoEoi
    requires s.requests == {irq} && irq !in s.mask && forall i <- s.BlockingService() :: s.Rank(irq) < s.Rank(i)
    ensures s.NextIrq() == Some(irq)
    ensures Apply(s, Accept) == s.(requests := {}, inService := s.inService + {irq}, waker := true)
  {
    FullyNested(s, irq);
    FullyNested(s.(waker := true), irq);
    assert s.requests - {irq} == {};
  }

  // An edge and its acceptance, with nothing of its rank or above pending or in service.
  lemma TakesEdge(s: State, irq: Irq)
    requires s.initialization.Ready? && !s.levelTriggered && !s.autoEoi
    requires s.requests == {} && irq !in s.levels && irq !in s.mask
    requires forall i <- s.BlockingService() :: s.Rank(irq) < s.Rank(i)
    ensures Apply(Apply(s, Line(irq, true)), Accept) ==
            s.(levels := s.levels + {irq}, inService := s.inService + {irq}, waker := true)
    ensures Taken(Apply(s, Line(irq, true)), Accept) == Some(irq)
  {
    RaisesEdge(s, irq);
    hide Apply, State.NextIrq, RankBelow;
    var raised := Apply(s, Line(irq, true));
    assert raised.BlockingService() == s.BlockingService();
    AcceptsOnly(raised, irq);
  }

  lemma RunTwo(s: State, stack: seq<Irq>, e: Event, f: Event)
    ensures Run(s, [e, f]) == Apply(Apply(s, e), f)
  {
    RunOn(s, stack, e, [f]);
    RunOn(Apply(s, e), stack, f, []);
    assert [e] + [f] == [e, f] && [f] + [] == [f];
  }

  // Unmasking everything and taking one interrupt after another.
  function Unmasked(): State { New(8).(mask := {}) }

  lemma Unmasks(stack: seq<Irq>)
    ensures Apply(New(8), WriteData(0)) == Unmasked() && Nesting(stack, New(8), WriteData(0)) == stack
  {
    UnmaskedAll();
    assert New(8).Data(0) == Unmasked();
    FullyNested(Unmasked(), 0);
    assert Unmasked().NextIrq().None?;
  }

  const PRIORITY_RUN: seq<Event> :=
    [WriteData(0), Line(5, true), Accept, Line(2, true), Accept, WriteCommand(0xc2), WriteCommand(0x20)]

  lemma RunEdge(s: State, stack: seq<Irq>, irq: Irq, rest: seq<Event>)
    requires s.initialization.Ready? && !s.levelTriggered && !s.autoEoi
    requires s.requests == {} && irq !in s.levels && irq !in s.mask
    requires forall i <- s.BlockingService() :: s.Rank(irq) < s.Rank(i)
    ensures var taken := s.(levels := s.levels + {irq}, inService := s.inService + {irq}, waker := true);
            && Run(s, [Line(irq, true), Accept] + rest) == Run(taken, rest)
            && History(stack, s, [Line(irq, true), Accept] + rest) == History(stack + [irq], taken, rest)
  {
    TakesEdge(s, irq);
    var raised := Apply(s, Line(irq, true));
    assert [Line(irq, true), Accept] + rest == [Line(irq, true)] + ([Accept] + rest);
    RunOn(s, stack, Line(irq, true), [Accept] + rest);
    RunOn(raised, stack, Accept, rest);
  }

  // IRQ 5 in service, and IRQ 2 above it.
  function FiveAndTwo(): State { Unmasked().(levels := {2, 5}, inService := {2, 5}, waker := true) }

  // The first edge accepted after unmasking.
  lemma TakesFirst(irq: Irq, later: seq<Event>)
    ensures var taken := Unmasked().(levels := {irq}, inService := {irq}, waker := true);
            && Run(New(8), [WriteData(0)] + ([Line(irq, true), Accept] + later)) == Run(taken, later)
            && History([], New(8), [WriteData(0)] + ([Line(irq, true), Accept] + later)) == History([irq], taken, later)
  {
    var u := Unmasked();
    hide Run, History, Apply, Nesting;
    Unmasks([]);
    RunOn(New(8), [], WriteData(0), [Line(irq, true), Accept] + later);
    assert u.levels + {irq} == {irq} && u.inService + {irq} == {irq};
    RunEdge(u, [], irq, later);
    assert [] + [irq] == [irq];
  }

  lemma TakesTwo(rest: seq<Event>)
    ensures var five := Unmasked().(levels := {5}, inService := {5}, waker := true);
            && Run(five, [Line(2, true), Accept] + rest) == Run(FiveAndTwo(), rest)
            && History([5], five, [Line(2, true), Accept] + rest) == History([5, 2], FiveAndTwo(), rest)
  {
    var five := Unmasked().(levels := {5}, inService := {5}, waker := true);
    hide Run, History, Apply, Nesting;
    assert five.levels + {2} == {2, 5} && five.inService + {2} == {2, 5};
    RunEdge(five, [5], 2, rest);
    assert [5] + [2] == [5, 2];
  }

  lemma ReachesFiveAndTwo(rest: seq<Event>)
    ensures Run(New(8), PRIORITY_RUN[..5] + rest) == Run(FiveAndTwo(), rest)
    ensures History([], New(8), PRIORITY_RUN[..5] + rest) == History([5, 2], FiveAndTwo(), rest)
  {
    var later := [Line(2, true), Accept] + rest;
    assert PRIORITY_RUN[..5] + rest == [WriteData(0)] + ([Line(5, true), Accept] + later);
    hide Run, History, Unmasked, FiveAndTwo;
    TakesFirst(5, later);
    TakesTwo(rest);
  }

  /** From power-on: IRQ 5 and then IRQ 2 are accepted, a priority command moves the lowest priority
      between them, and the plain end of interrupt ends IRQ 5 although IRQ 2 was accepted last. */
  lemma ExplicitPriorityBreaksNesting()
    ensures History([], New(8), PRIORITY_RUN[..5]) == [5, 2] && Run(New(8), PRIORITY_RUN[..5]) == FiveAndTwo()
    ensures Run(New(8), PRIORITY_RUN).inService == {2}
    ensures !KeepsNesting(FiveAndTwo(), [5, 2], PRIORITY_RUN[5])
  {
    var two := FiveAndTwo();
    MovedPriorityEndsOther(two);
    assert PRIORITY_RUN[..5] + [] == PRIORITY_RUN[..5];
    assert PRIORITY_RUN[..5] + [WriteCommand(0xc2), WriteCommand(0x20)] == PRIORITY_RUN;
    hide Apply, Nesting;
    ReachesFiveAndTwo([]);
    ReachesFiveAndTwo([WriteCommand(0xc2), WriteCommand(0x20)]);
    RunTwo(two, [5, 2], WriteCommand(0xc2), WriteCommand(0x20));
  }

  lemma MovedPriorityEndsOther(s: State)
    requires s.highest == 0 && s.inService == {2, 5} && !s.specialMask
    ensures Apply(Apply(s, WriteCommand(0xc2)), WriteCommand(0x20)).inService == {2}
    ensures !KeepsNesting(s, [5, 2], WriteCommand(0xc2))
  {
    NamesTwo(s);
    MovesLowest(s);
    hide Apply, Bit, SearchFrom;
    var moved := Apply(s, WriteCommand(0xc2));
    EndsHighest(moved);
    assert 5 in moved.inService && RankBelow(3, 5) < RankBelow(3, 2);
    assert HighestPriority(3, {2, 5}) == Some(5);
  }

  lemma NamesTwo(s: State)
    requires s.highest == 0
    ensures !KeepsNesting(s, [5, 2], WriteCommand(0xc2))
  {
    assert Specific(WriteCommand(0xc2)) && !SpecificEnd(WriteCommand(0xc2)) && Bit(0xc2, 128);
    assert !Rotatable(s, [5, 2], 2);
  }

  lemma MovesLowest(s: State)
    ensures var moved := Apply(s, WriteCommand(0xc2));
            moved.highest == 3 && moved.inService == s.inService && moved.specialMask == s.specialMask
  {
    assert s.Command(0xc2) == s.SetLowestPriority(2);
  }

  lemma EndsHighest(s: State)
    requires !s.specialMask
    ensures var found := HighestPriority(s.highest, s.inService);
            Apply(s, WriteCommand(0x20)).inService == if found.Some? then s.inService - {found.value} else s.inService
  {
    PlainEndEffect(s, WriteCommand(0x20));
  }

  const MASK_RUN: seq<Event> :=
    [WriteData(0), Line(2, true), Accept, WriteData(4), WriteCommand(0x68), Line(5, true), Accept,
     WriteData(0), WriteCommand(0x20)]

  // IRQ 2 in service and masked, under special mask mode.
  function TwoMasked(): State {
    Unmasked().(levels := {2}, inService := {2}, mask := {2}, specialMask := true, waker := true)
  }

  // IRQ 5 taken above it.
  function TwoThenFive(): State { TwoMasked().(levels := {2, 5}, inService := {2, 5}) }

  lemma EntersMask()
    ensures var two := Unmasked().(levels := {2}, inService := {2}, waker := true);
            && Apply(two, WriteData(4)) == two.(mask := {2})
            && Apply(two.(mask := {2}), WriteCommand(0x68)) == TwoMasked()
            && Nesting([2], two, WriteData(4)) == [2]
            && Nesting([2], two.(mask := {2}), WriteCommand(0x68)) == [2]
  {
    var two := Unmasked().(levels := {2}, inService := {2}, waker := true);
    UnmaskedAll();
    assert two.Data(4) == two.(mask := {2});
    assert two.(mask := {2}).Command(0x68) == TwoMasked();
    assert two.(mask := {2}).NextIrq().None? && TwoMasked().NextIrq().None?;
  }

  lemma TakesFive(rest: seq<Event>)
    ensures Run(TwoMasked(), [Line(5, true), Accept] + rest) == Run(TwoThenFive(), rest)
    ensures History([2], TwoMasked(), [Line(5, true), Accept] + rest) == History([2, 5], TwoThenFive(), rest)
  {
    var masked := TwoMasked();
    hide Run, History, Apply, Nesting;
    assert masked.BlockingService() == {};
    assert masked.levels + {5} == {2, 5} && masked.inService + {5} == {2, 5};
    RunEdge(masked, [2], 5, rest);
    assert [2] + [5] == [2, 5];
  }

  lemma ReachesTwoThenFive(rest: seq<Event>)
    ensures Run(New(8), MASK_RUN[..7] + rest) == Run(TwoThenFive(), rest)
    ensures History([], New(8), MASK_RUN[..7] + rest) == History([2, 5], TwoThenFive(), rest)
  {
    var two := Unmasked().(levels := {2}, inService := {2}, waker := true);
    var last := [Line(5, true), Accept] + rest;
    var later := [WriteData(4)] + ([WriteCommand(0x68)] + last);
    assert MASK_RUN[..7] + rest == [WriteData(0)] + ([Line(2, true), Accept] + later);
    EntersMask();
    hide Run, History, Apply, Nesting, Unmasked, TwoMasked, TwoThenFive;
    TakesFirst(2, later);
    RunOn(two, [2], WriteData(4), [WriteCommand(0x68)] + last);
    RunOn(two.(mask := {2}), [2], WriteCommand(0x68), last);
    TakesFive(rest);
  }

  /** From power-on, in special mask mode: IRQ 5 is accepted above IRQ 2, which outranks it, and the plain
      end of interrupt then ends IRQ 2 although IRQ 5 was accepted last. */
  lemma SpecialMaskBreaksNesting()
    ensures History([], New(8), MASK_RUN[..7]) == [2, 5] && Run(New(8), MASK_RUN[..7]) == TwoThenFive()
    ensures TwoThenFive().Rank(5) > TwoThenFive().Rank(2)
    ensures Run(New(8), MASK_RUN).inService == {5}
  {
    var five := TwoThenFive();
    UnmaskedEndsTwo();
    assert MASK_RUN[..7] + [] == MASK_RUN[..7];
    assert MASK_RUN[..7] + [WriteData(0), WriteCommand(0x20)] == MASK_RUN;
    hide Apply, Nesting;
    ReachesTwoThenFive([]);
    ReachesTwoThenFive([WriteData(0), WriteCommand(0x20)]);
    RunTwo(five, [2, 5], WriteData(0), WriteCommand(0x20));
  }

  lemma UnmaskedEndsTwo()
    ensures Apply(Apply(TwoThenFive(), WriteData(0)), WriteCommand(0x20)).inService == {5}
  {
    UnmaskedAll();
    var s := Apply(TwoThenFive(), WriteData(0));
    assert s.highest == 0 && s.BlockingService() == {2, 5};
    PlainEndEffect(s, WriteCommand(0x20));
    assert 2 in s.inService && RankBelow(0, 2) < RankBelow(0, 5);
    assert HighestPriority(0, {2, 5}) == Some(2);
  }

  // ----- initialization

  // ICW1 and ICW2, then ICW3 and ICW4 if ICW1 announces them.
  function InitializationWords(icw1: Byte, icw2: Byte, icw3: Byte, icw4: Byte): seq<Event> {
    [WriteCommand(icw1), WriteData(icw2)]
    + (if icw1 / 2 % 2 == 0 then [WriteData(icw3)] else [])
    + (if icw1 % 2 == 1 then [WriteData(icw4)] else [])
  }

  // A controller under initialization whose words still to come are given.
  ghost predicate Initializing(t: State, levels: set<Irq>, level: bool, cascade: bool, last: bool, base: bool) {
    && t.inService == {} && t.levels == levels && t.highest == 0 && t.mask == {}
    && t.levelTriggered == level && !t.autoEoi && !t.rotateOnAutoEoi
    && !t.specialMask && !t.readInService && !t.pollPending
    && t.initialization == (if base then VectorBase(cascade, last) else if cascade then Cascade(last)
                            else if last then Mode else Ready)
    && t.requests == if level && !base then levels else {}
  }

  lemma InitializationStarts(s: State, icw1: Byte)
    requires icw1 / 16 % 2 == 1
    ensures Initializing(Apply(s, WriteCommand(icw1)), s.levels,
                         icw1 / 8 % 2 == 1, icw1 / 2 % 2 == 0, icw1 % 2 == 1, true)
  {
    hide HighestPriority;
    assert s.Command(icw1) == s.Initialize(icw1);
  }

  lemma TakesVectorBase(t: State, levels: set<Irq>, level: bool, cascade: bool, last: bool, value: Byte)
    requires Initializing(t, levels, level, cascade, last, true)
    ensures var after := Apply(t, WriteData(value));
            Initializing(after, levels, level, cascade, last, false) && after.vectorBase == value - value % 8
  {
    hide State.NextIrq, Irqs, Bit;
  }

  lemma TakesCascade(t: State, levels: set<Irq>, level: bool, last: bool, value: Byte)
    requires Initializing(t, levels, level, true, last, false)
    ensures var after := Apply(t, WriteData(value));
            Initializing(after, levels, level, false, last, false) && after.vectorBase == t.vectorBase
  {
    hide State.NextIrq, Irqs, Bit;
  }

  // Everything but automatic end of interrupt is as during the sequence.
  ghost predicate Initialized(t: State, levels: set<Irq>, level: bool, autoEoi: bool) {
    Initializing(t.(autoEoi := false), levels, level, false, false, false) && t.autoEoi == autoEoi
  }

  lemma TakesMode(t: State, levels: set<Irq>, level: bool, value: Byte)
    requires Initializing(t, levels, level, false, true, false)
    ensures var after := Apply(t, WriteData(value));
            Initialized(after, levels, level, value / 2 % 2 == 1) && after.vectorBase == t.vectorBase
  {
    hide State.NextIrq, Irqs;
  }

  /** From any state, exactly the announced words are taken as initialization, and nothing is delivered before
      the last. They leave no mask, nothing in service, the vector base of ICW2 rounded down to eight, the
      trigger mode of ICW1 and the automatic end of interrupt of ICW4; lines keep their levels. */
  lemma InitializationRun(s: State, icw1: Byte, icw2: Byte, icw3: Byte, icw4: Byte)
    requires icw1 / 16 % 2 == 1
    ensures var words := InitializationWords(icw1, icw2, icw3, icw4); var after := Run(s, words);
            && Initialized(after, s.levels, icw1 / 8 % 2 == 1, icw1 % 2 == 1 && icw4 / 2 % 2 == 1)
            && after.initialization.Ready? && after.vectorBase == icw2 - icw2 % 8
            && forall k | 1 <= k < |words| ::
                 !Run(s, words[..k]).initialization.Ready? && Run(s, words[..k]).NextIrq().None?
  {
    var words := InitializationWords(icw1, icw2, icw3, icw4);
    var level, cascade, last := icw1 / 8 % 2 == 1, icw1 / 2 % 2 == 0, icw1 % 2 == 1;
    hide Apply, Initializing;
    var t1 := Apply(s, WriteCommand(icw1));
    var t2 := Apply(t1, WriteData(icw2));
    InitializationStarts(s, icw1);
    TakesVectorBase(t1, s.levels, level, cascade, last, icw2);
    RunPrefix(s, words);
    InitializingWaits(t1, s.levels, level, cascade, last, true);
    InitializingWaits(t2, s.levels, level, cascade, last, false);
    if cascade {
      var t3 := Apply(t2, WriteData(icw3));
      TakesCascade(t2, s.levels, level, last, icw3);
      InitializingWaits(t3, s.levels, level, false, last, false);
      if last { TakesMode(t3, s.levels, level, icw4); }
    } else if last {
      TakesMode(t2, s.levels, level, icw4);
    }
  }

  lemma InitializingWaits(t: State, levels: set<Irq>, level: bool, cascade: bool, last: bool, base: bool)
    requires Initializing(t, levels, level, cascade, last, base)
    ensures base || cascade || last ==> !t.initialization.Ready? && t.NextIrq().None?
    ensures !(base || cascade || last) ==> t.initialization.Ready? && Initialized(t, levels, level, false)
  {}

  // A run of at most four events, one event at a time.
  lemma RunPrefix(s: State, events: seq<Event>)
    requires 2 <= |events| <= 4
    ensures var t2 := Apply(Apply(s, events[0]), events[1]);
            && Run(s, events[..1]) == Apply(s, events[0]) && Run(s, events[..2]) == t2
            && (|events| == 2 ==> Run(s, events) == t2)
            && (|events| >= 3 ==> Run(s, events[..3]) == Apply(t2, events[2]))
            && (|events| == 3 ==> Run(s, events) == Apply(t2, events[2]))
            && (|events| == 4 ==> Run(s, events) == Apply(Apply(t2, events[2]), events[3]))
  {
    hide Apply;
    forall k | 0 <= k < |events| { RunSnoc(s, events, k); }
    assert events[..0] == [] && events[..|events|] == events;
  }

  lemma {:induction false} RunSnoc(s: State, events: seq<Event>, k: nat)
    requires k < |events|
    ensures Run(s, events[..k + 1]) == Apply(Run(s, events[..k]), events[k])
    decreases k
  {
    hide Apply;
    if k > 0 {
      RunSnoc(Apply(s, events[0]), events[1..], k - 1);
      assert events[..k + 1][1..] == events[1..][..k] && events[..k][1..] == events[1..][..k - 1];
    } else {
      assert events[..1][1..] == [];
    }
  }

  /** The vector base only changes by initialization. */
  lemma VectorBaseKept(s: State, e: Event)
    requires !(e.WriteCommand? && e.value / 16 % 2 == 1) && !(e.WriteData? && s.initialization.VectorBase?)
    ensures Apply(s, e).vectorBase == s.vectorBase
  {
    hide State.ReadCommand, State.Acknowledge, State.Command, State.Data, State.SetLevel, State.RecordLevel,
         State.Updated;
    match e
    case Accept => AcknowledgeVector(s.(waker := true));
    case ReadStatus => ReadVector(s);
    case WriteCommand(value) =>
      CommandVector(s, value);
      UpdatedWaker(s.Command(value));
    case WriteData(value) =>
      DataVector(s, value);
      UpdatedWaker(s.Data(value));
    case Line(irq, high) =>
      LevelVector(s, irq, high);
      UpdatedWaker(s.SetLevel(irq, high));
    case Connect(irq, high) =>
      LevelVector(s, irq, high);
      UpdatedWaker(s.RecordLevel(irq, high));
    case Unmask(irq) => UpdatedWaker(s.(mask := s.mask - {irq}));
  }

  lemma ReadVector(s: State)
    ensures s.ReadCommand().0.vectorBase == s.vectorBase
  {
    hide State.NextIrq, State.Acknowledge, Register;
    AcknowledgeVector(s.(pollPending := false));
  }

  lemma LevelVector(s: State, irq: Irq, high: bool)
    ensures s.SetLevel(irq, high).vectorBase == s.RecordLevel(irq, high).vectorBase == s.vectorBase
  {}

  lemma UpdatedWaker(s: State)
    ensures s.Updated() == s.(waker := s.Updated().waker)
  {}

  lemma DataVector(s: State, value: Byte)
    requires !s.initialization.VectorBase?
    ensures s.Data(value).vectorBase == s.vectorBase
  {
    hide Irqs, Bit;
  }

  lemma AcknowledgeVector(s: State)
    ensures s.Acknowledge().vectorBase == s.vectorBase
  {
    hide State.NextIrq;
  }

  lemma CommandVector(s: State, value: Byte)
    requires value / 16 % 2 == 0
    ensures s.Command(value).vectorBase == s.vectorBase
  {
    hide HighestPriority;
  }

  /** After it, an edge on any input is delivered with the upper bits of ICW2 and the number of the input. */
  lemma InitializedDelivers(s: State, icw1: Byte, icw2: Byte, icw3: Byte, icw4: Byte, irq: Irq)
    requires icw1 / 16 % 2 == 1 && icw1 / 8 % 2 == 0 && irq !in s.levels
    ensures var raised := Apply(Run(s, InitializationWords(icw1, icw2, icw3, icw4)), Line(irq, true));
            raised.NextIrq() == Some(irq) && raised.vectorBase == icw2 - icw2 % 8
  {
    InitializationRun(s, icw1, icw2, icw3, icw4);
    var t := Run(s, InitializationWords(icw1, icw2, icw3, icw4));
    hide Run, InitializationWords;
    RaisesEdge(t, irq);
    var raised := Apply(t, Line(irq, true));
    hide Apply;
    FullyNested(raised, irq);
  }

  // ----- registers, polls and modes

  /** What OCW3 selects is what the next read of the command port shows: a poll once, or a register until the
      next selection. A poll hands over an interrupt as acknowledging does. */
  lemma SelectionReads(s: State, value: Byte)
    requires value / 16 % 2 == 0 && value / 8 % 2 == 1
    ensures var selected := Apply(s, WriteCommand(value)); var (after, byte) := selected.ReadCommand();
            var service := if value / 2 % 2 == 1 then value % 2 == 1 else s.readInService;
            && selected.readInService == service
            && selected.specialMask == (if value / 64 % 2 == 1 then value / 32 % 2 == 1 else s.specialMask)
            && selected.inService == s.inService && selected.requests == s.requests && selected.mask == s.mask
            && !after.pollPending
            && (if value / 4 % 2 == 1 then
                  && after == selected.(pollPending := false).Acknowledge()
                  && byte == (match selected.NextIrq() case Some(irq) => 0x80 + irq case None => 0)
                else
                  after == selected && byte == Register(if service then s.inService else s.requests))
  {
    hide State.NextIrq, Register, State.SelectModes, State.Command, State.Updated, State.Acknowledge;
    SelectsModes(s, value);
    UpdatedWaker(s.Command(value));
    var selected := Apply(s, WriteCommand(value));
    PollSame(selected);
    AcknowledgeKeepsPoll(selected.(pollPending := false));
  }

  lemma SelectsModes(s: State, value: Byte)
    requires value / 16 % 2 == 0 && value / 8 % 2 == 1
    ensures var selected := s.Command(value);
            selected == s.(readInService := if value / 2 % 2 == 1 then value % 2 == 1 else s.readInService,
                           specialMask := if value / 64 % 2 == 1 then value / 32 % 2 == 1 else s.specialMask,
                           pollPending := value / 4 % 2 == 1)
  {}

  lemma PollSame(s: State)
    ensures s.(pollPending := false).NextIrq() == s.NextIrq()
  {}

  lemma AcknowledgeKeepsPoll(s: State)
    ensures s.Acknowledge().pollPending == s.pollPending
  {
    hide State.NextIrq;
  }

  /** Taking an interrupt withdraws its edge, or in level mode leaves requests to the lines; it enters service
      unless it is ended automatically, and then it may become the lowest priority. */
  lemma AcceptanceTakes(s: State, irq: Irq)
    requires s.NextIrq() == Some(irq)
    ensures var after := Apply(s, Accept);
            && after.requests == (if s.levelTriggered then s.levels else s.requests - {irq})
            && after.inService == (if s.autoEoi then s.inService else s.inService + {irq})
            && after.highest == (if !s.autoEoi || !s.rotateOnAutoEoi then s.highest
                                 else if irq == 7 then 0 else irq + 1)
            && after.mask == s.mask && after.levels == s.levels && after.waker
  {
    hide State.NextIrq;
    WakerSame(s);
  }

  lemma WakerSame(s: State)
    ensures s.(waker := true).NextIrq() == s.NextIrq()
  {}

  /** Without anything to take, accepting only registers the waiting processor. */
  lemma AcceptanceWaits(s: State)
    requires s.NextIrq().None?
    ensures Apply(s, Accept) == s.(waker := true)
  {
    hide State.NextIrq;
    WakerSame(s);
  }

  /** OCW2 by its upper three bits: 0 and 4 switch rotation on automatic ends, 2 does nothing, and 6 names the
      lowest priority; only the others end an interrupt. */
  lemma RotationSwitch(s: State, value: Byte)
    requires value / 16 % 2 == 0 && value / 8 % 2 == 0
    ensures var after := s.Command(value);
            && (value / 32 == 0 ==> after == s.(rotateOnAutoEoi := false))
            && (value / 32 == 4 ==> after == s.(rotateOnAutoEoi := true))
            && (value / 32 == 2 ==> after == s)
            && (value / 32 == 6 ==> after == s.(highest := if value % 8 == 7 then 0 else value % 8 + 1))
  {
    hide HighestPriority;
    CommandBits(value);
  }

  lemma CommandBits(value: Byte)
    ensures (value / 32 == 0 || value / 32 == 4) ==> value / 32 % 2 == 0 && value / 64 % 2 == 0
    ensures (value / 32 == 2 || value / 32 == 6) ==> value / 32 % 2 == 0 && value / 64 % 2 == 1
    ensures value / 128 % 2 == 1 <==> value / 32 >= 4
  {}

  /** A mask written to a running controller reads back, and changes nothing else but what is delivered. */
  lemma MaskReadsBack(s: State, value: Byte)
    requires s.initialization.Ready?
    ensures var after := Apply(s, WriteData(value));
            && Register(after.mask) == value && after.inService == s.inService && after.highest == s.highest
            && after.levels == s.levels && after.requests == if s.levelTriggered then s.levels else s.requests
  {
    IrqsRegisterBack(value);
    hide State.NextIrq, Irqs, Register, Bit;
  }

  /** Attaching a line records its level and invents no edge. */
  lemma ConnectionRecords(s: State, irq: Irq, high: bool)
    ensures var after := Apply(s, Connect(irq, high));
            && after.levels == (if high then s.levels + {irq} else s.levels - {irq})
            && after.requests == (if s.levelTriggered then after.levels else s.requests)
            && SameService(s, after) && after.mask == s.mask
  {
    hide State.NextIrq;
  }

  // ----- wakeups

  /** A CPU left waiting for an interrupt has none to take. */
  ghost predicate NoLostWakeup(s: State, waiting: bool) {
    waiting && s.waker ==> s.NextIrq().None?
  }

  // The CPU waits after a poll that delivered nothing and until it polls again.
  function Waiting(waiting: bool, s: State, e: Event): bool {
    if e.Accept? then s.NextIrq().None? else waiting
  }

  lemma UpdatedWakeup(s: State, waiting: bool)
    ensures NoLostWakeup(s.Updated(), waiting)
  {}

  /** No event leaves a deliverable interrupt behind a sleeping CPU. */
  lemma WakeupStep(s: State, waiting: bool, e: Event)
    requires NoLostWakeup(s, waiting)
    ensures NoLostWakeup(Apply(s, e), Waiting(waiting, s, e))
  {
    match e
    case Accept => assert s.(waker := true).NextIrq() == s.NextIrq();
    case ReadStatus => assert s.(pollPending := false).NextIrq() == s.NextIrq();
    case WriteCommand(value) => UpdatedWakeup(s.Command(value), waiting);
    case WriteData(value) => UpdatedWakeup(s.Data(value), waiting);
    case Line(irq, high) => UpdatedWakeup(s.SetLevel(irq, high), waiting);
    case Connect(irq, high) => UpdatedWakeup(s.RecordLevel(irq, high), waiting);
    case Unmask(irq) => UpdatedWakeup(s.(mask := s.mask - {irq}), waiting);
  }

  /** The wakeup is sent by exactly the event that makes an interrupt deliverable. */
  lemma WakeupExact(s: State, e: Event)
    requires s.waker && s.NextIrq().None? && !e.Accept?
    ensures Apply(s, e).NextIrq().Some? <==> !Apply(s, e).waker
  {
    hide State.NextIrq, State.Command, State.Data, State.SetLevel, State.RecordLevel, State.Updated, Register;
    match e
    case ReadStatus => PollSame(s);
    case WriteCommand(value) => CommandKeepsWaker(s, value); UpdateIsQuiet(s.Command(value));
    case WriteData(value) => DataKeepsWaker(s, value); UpdateIsQuiet(s.Data(value));
    case Line(irq, high) => LevelKeepsWaker(s, irq, high); UpdateIsQuiet(s.SetLevel(irq, high));
    case Connect(irq, high) => LevelKeepsWaker(s, irq, high); UpdateIsQuiet(s.RecordLevel(irq, high));
    case Unmask(irq) => UpdateIsQuiet(s.(mask := s.mask - {irq}));
  }

  lemma LevelKeepsWaker(s: State, irq: Irq, high: bool)
    ensures s.SetLevel(irq, high).waker == s.RecordLevel(irq, high).waker == s.waker
  {}

  lemma CommandKeepsWaker(s: State, value: Byte)
    ensures s.Command(value).waker == s.waker
  {}

  lemma DataKeepsWaker(s: State, value: Byte)
    ensures s.Data(value).waker == s.waker
  {}
}

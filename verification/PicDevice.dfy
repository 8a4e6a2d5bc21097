/** The 8259A as the execution worker holds it: registers updated in place, one wakeup slot. */
module PicDevices {
  import opened Wrappers
  import opened Machine
  import opened Pics

  const COMMAND_PORT := 0x20
  const MASK_PORT := 0x21
  const OPEN_BUS := TWO_32 - 1

  class Controller {
    var vectorBase: Byte
    var mask: set<Irq>
    var requests: set<Irq>
    var inService: set<Irq>
    var levels: set<Irq>
    var highest: Irq
    var levelTriggered: bool
    var autoEoi: bool
    var rotateOnAutoEoi: bool
    var specialMask: bool
    var readInService: bool
    var pollPending: bool
    var initialization: Initialization
    var waker: bool

    function Value(): State
      reads this
    {
      State(vectorBase, mask, requests, inService, levels, highest, levelTriggered, autoEoi, rotateOnAutoEoi,
            specialMask, readInService, pollPending, initialization, waker)
    }

    constructor (vectorBase: Byte)
      ensures Value() == New(vectorBase)
    {
      this.vectorBase, mask, requests, inService, levels := vectorBase, AllIrqs(), {}, {}, {};
      highest, levelTriggered, autoEoi, rotateOnAutoEoi := 0, false, false, false;
      specialMask, readInService, pollPending, initialization, waker := false, false, false, Ready, false;
    }

    method RefreshLevels()
      modifies this`requests
      ensures Value() == old(Value()).RefreshLevels()
    {
      if levelTriggered {
        requests := levels;
      }
    }

    method Acknowledge() returns (taken: Option<Irq>)
      modifies this
      ensures taken == old(Value()).NextIrq()
      ensures Value() == old(Value()).Acknowledge()
    {
      taken := Value().NextIrq();
      if taken.None? {
        return;
      }
      var irq: int := taken.value;
      requests := requests - {irq};
      if autoEoi {
        if rotateOnAutoEoi {
          highest := (irq + 1) % 8;
        }
      } else {
        inService := inService + {irq};
      }
      RefreshLevels();
    }

    method RecordLevel(irq: Irq, high: bool)
      modifies this
      ensures Value() == old(Value()).RecordLevel(irq, high)
    {
      levels := if high then levels + {irq} else levels - {irq};
      RefreshLevels();
    }

    method SetLevel(irq: Irq, high: bool)
      modifies this
      ensures Value() == old(Value()).SetLevel(irq, high)
    {
      if high && irq !in levels {
        requests := requests + {irq};
      }
      RecordLevel(irq, high);
    }

    method ReadCommand() returns (byte: Byte)
      modifies this
      ensures (Value(), byte) == old(Value()).ReadCommand()
    {
      if pollPending {
        pollPending := false;
        var taken := Acknowledge();
        byte := match taken case Some(irq) => 0x80 + irq case None => 0;
      } else {
        byte := Register(if readInService then inService else requests);
      }
    }

    method Command(value: Byte)
      modifies this
      ensures Value() == old(Value()).Command(value)
    {
      if Bit(value, 16) {
        Initialize(value);
      } else if Bit(value, 8) {
        SelectModes(value);
      } else {
        EndOrRotate(value);
      }
    }

    // The input levels and the sleeping CPU outlive a reinitialization.
    method Initialize(value: Byte)
      modifies this
      ensures Value() == old(Value()).Initialize(value)
    {
      hide Bit;
      vectorBase, mask, requests, inService, highest := 0, {}, {}, {}, 0;
      autoEoi, rotateOnAutoEoi, specialMask, readInService, pollPending := false, false, false, false, false;
      levelTriggered := Bit(value, 8);
      initialization := VectorBase(!Bit(value, 2), Bit(value, 1));
    }

    method EndOrRotate(value: Byte)
      modifies this
      ensures Value() == old(Value()).EndOrRotate(value)
    {
      hide Bit, HighestPriority, State.BlockingService, RankBelow;
      var specific, rotate := Bit(value, 64), Bit(value, 128);
      if Bit(value, 32) {
        var ended: Option<Irq> := if specific then Some(value % 8)
                                  else HighestPriority(highest, Value().BlockingService());
        if ended.Some? {
          inService := inService - {ended.value};
          if rotate {
            highest := (ended.value + 1) % 8;
          }
        }
      } else if !specific {
        rotateOnAutoEoi := rotate;
      } else if rotate {
        highest := (value % 8 + 1) % 8;
      }
    }

    method SelectModes(value: Byte)
      modifies this
      ensures Value() == old(Value()).SelectModes(value)
    {
      if Bit(value, 2) {
        readInService := Bit(value, 1);
      }
      if Bit(value, 64) {
        specialMask := Bit(value, 32);
      }
      pollPending := Bit(value, 4);
    }

    method Data(value: Byte)
      modifies this
      ensures Value() == old(Value()).Data(value)
    {
      match initialization {
        case Ready => mask := Irqs(value);
        case VectorBase(needsCascade, needsIcw4) =>
          vectorBase := value - value % 8;
          initialization := if needsCascade then Cascade(needsIcw4) else if needsIcw4 then Mode else Ready;
        case Cascade(needsIcw4) => initialization := if needsIcw4 then Mode else Ready;
        case Mode =>
          autoEoi := Bit(value, 2);
          initialization := Ready;
      }
      RefreshLevels();
    }
  }

  /** The shared handle: every change ends by waking a waiting CPU that has something to take. */
  class Pic {
    const state: Controller

    constructor (vectorBase: Byte)
      requires vectorBase % 8 == 0
      ensures fresh(state) && state.Value() == New(vectorBase)
    {
      state := new Controller(vectorBase);
    }

    method Wake() returns (woken: bool)
      modifies state`waker
      ensures state.Value() == old(state.Value()).Updated()
      ensures woken == (old(state.waker) && !state.waker)
    {
      woken := false;
      if state.Value().NextIrq().Some? {
        woken := state.waker;
        state.waker := false;
      }
    }

    method Line(irq: Irq, high: bool)
      modifies state
      ensures state.Value() == Apply(old(state.Value()), Event.Line(irq, high))
    {
      state.SetLevel(irq, high);
      var _ := Wake();
    }

    method Connect(irq: Irq, high: bool)
      modifies state
      ensures state.Value() == Apply(old(state.Value()), Event.Connect(irq, high))
    {
      state.RecordLevel(irq, high);
      var _ := Wake();
    }

    /** Enables an input; whatever it has pending stays pending, and may wake the CPU. */
    method UnmaskIrq(irq: Irq)
      modifies state
      ensures state.Value() == Apply(old(state.Value()), Event.Unmask(irq))
      ensures state.requests == old(state.requests) && state.mask == old(state.mask) - {irq}
    {
      state.mask := state.mask - {irq};
      var _ := Wake();
    }

    /** Leaves the line low and, in edge mode, its request pending, whether or not it was before. */
    method Pulse(irq: Irq)
      modifies state
      ensures state.Value() == Pulsed(old(state.Value()), irq)
    {
      Line(irq, false);
      Line(irq, true);
      Line(irq, false);
    }

    method PollInterrupt() returns (vector: Option<Byte>)
      requires state.vectorBase % 8 == 0
      modifies state
      ensures state.Value() == Apply(old(state.Value()), Accept)
      ensures state.vectorBase % 8 == 0
      ensures match old(state.Value()).NextIrq()
              case Some(irq) => vector == Some(old(state.vectorBase) + irq)
              case None => vector == None
    {
      state.waker := true;
      var taken := state.Acknowledge();
      vector := if taken.Some? then Some(state.vectorBase + taken.value) else None;
    }

    method WritePort(port: Word, bytes: Byte, value: nat)
      requires value < TWO_32
      modifies state
      ensures state.Value() ==
              if bytes != 1 then old(state.Value())
              else if port == COMMAND_PORT then Apply(old(state.Value()), WriteCommand(value % 0x100))
              else if port == MASK_PORT then Apply(old(state.Value()), WriteData(value % 0x100))
              else old(state.Value()).Updated()
    {
      hide State.Command, State.Data, State.NextIrq;
      if bytes != 1 {
        return;
      }
      if port == COMMAND_PORT {
        state.Command(value % 0x100);
      } else if port == MASK_PORT {
        state.Data(value % 0x100);
      }
      var _ := Wake();
    }

    method ReadPort(port: Word, bytes: Byte) returns (value: nat)
      modifies state
      ensures if bytes == 1 && port == COMMAND_PORT then (state.Value(), value) == old(state.Value()).ReadCommand()
              else state.Value() == old(state.Value())
                   && value == if bytes == 1 && port == MASK_PORT then Register(state.mask) else OPEN_BUS
      ensures bytes == 1 && port == MASK_PORT ==> value < 0x100 && Irqs(value) == state.mask
      ensures bytes == 1 && port == COMMAND_PORT && !old(state.pollPending) ==>
                value < 0x100 && Irqs(value) == if state.readInService then state.inService else state.requests
    {
      RegisterShowsIrqs(state.mask);
      RegisterShowsIrqs(if state.readInService then state.inService else state.requests);
      if bytes != 1 {
        return OPEN_BUS;
      }
      if port == COMMAND_PORT {
        value := state.ReadCommand();
      } else if port == MASK_PORT {
        value := Register(state.mask);
      } else {
        value := OPEN_BUS;
      }
    }
  }

  function Pulsed(s: State, irq: Irq): State {
    Apply(Apply(Apply(s, Event.Line(irq, false)), Event.Line(irq, true)), Event.Line(irq, false))
  }

  lemma UpdateFrame(s: State)
    ensures s.Updated() == s.(waker := s.Updated().waker)
  {}

  /** A line moves a request by its rising edge only; lowering never withdraws one in edge mode. */
  lemma LineChange(s: State, irq: Irq, high: bool)
    ensures var after := Apply(s, Event.Line(irq, high));
            && after.levels == (if high then s.levels + {irq} else s.levels - {irq})
            && after.requests == (if s.levelTriggered then after.levels
                                  else if high && irq !in s.levels then s.requests + {irq} else s.requests)
            && SameService(s, after) && after.levelTriggered == s.levelTriggered && after.mask == s.mask
  {
    SetLevelChange(s, irq, high);
    UpdateFrame(s.SetLevel(irq, high));
  }

  lemma SetLevelChange(s: State, irq: Irq, high: bool)
    ensures var after := s.SetLevel(irq, high);
            && after.levels == (if high then s.levels + {irq} else s.levels - {irq})
            && after.requests == (if s.levelTriggered then after.levels
                                  else if high && irq !in s.levels then s.requests + {irq} else s.requests)
            && SameService(s, after) && after.levelTriggered == s.levelTriggered && after.mask == s.mask
  {}

  /** In edge mode a pulse leaves the request pending whatever the line was; in level mode it
      leaves no trace beyond a low line. */
  lemma PulseLatchesEdge(s: State, irq: Irq)
    ensures var after := Pulsed(s, irq);
            && after.levels == s.levels - {irq}
            && after.requests == (if s.levelTriggered then s.levels - {irq} else s.requests + {irq})
            && SameService(s, after) && after.levelTriggered == s.levelTriggered && after.mask == s.mask
  {
    var lowered := Apply(s, Event.Line(irq, false));
    var raised := Apply(lowered, Event.Line(irq, true));
    LineChange(s, irq, false);
    LineChange(lowered, irq, true);
    LineChange(raised, irq, false);
  }

  lemma CommandVectorBase(s: State, value: Byte)
    ensures s.Command(value).vectorBase == if Bit(value, 16) then 0 else s.vectorBase
  {}

  lemma DataVectorBase(s: State, value: Byte)
    requires s.vectorBase % 8 == 0
    ensures s.Data(value).vectorBase % 8 == 0
  {
    assert s.initialization.VectorBase? ==> s.Data(value).vectorBase == value - value % 8;
    AlignDown(value);
  }

  lemma AlignDown(value: Byte)
    ensures (value - value % 8) % 8 == 0
  {}

  lemma AcknowledgeVectorBase(s: State)
    ensures s.Acknowledge().vectorBase == s.vectorBase
  {}

  lemma LevelVectorBase(s: State, irq: Irq, high: bool)
    ensures s.SetLevel(irq, high).vectorBase == s.RecordLevel(irq, high).vectorBase == s.vectorBase
  {}

  lemma UpdatedVectorBase(s: State)
    ensures s.Updated().vectorBase == s.vectorBase
  {}

  /** Programming keeps the vector base aligned, so base and input number never carry. */
  lemma VectorBaseAligned(s: State, e: Event)
    requires s.vectorBase % 8 == 0
    ensures Apply(s, e).vectorBase % 8 == 0
  {
    hide State.Command, State.Data, State.SetLevel, State.RecordLevel, State.Updated, State.Acknowledge;
    hide State.NextIrq, Register;
    match e
    case WriteCommand(value) => CommandVectorBase(s, value); UpdatedVectorBase(s.Command(value));
    case WriteData(value) => DataVectorBase(s, value); UpdatedVectorBase(s.Data(value));
    case Line(irq, high) => LevelVectorBase(s, irq, high); UpdatedVectorBase(s.SetLevel(irq, high));
    case Connect(irq, high) => LevelVectorBase(s, irq, high); UpdatedVectorBase(s.RecordLevel(irq, high));
    case Unmask(irq) => UpdatedVectorBase(s.(mask := s.mask - {irq}));
    case Accept => AcknowledgeVectorBase(s.(waker := true));
    case ReadStatus => AcknowledgeVectorBase(s.(pollPending := false));
  }

  lemma CommandLevels(s: State, value: Byte)
    ensures s.Command(value).levels == s.levels
  {}

  lemma DataLevels(s: State, value: Byte)
    ensures s.Data(value).levels == s.levels
  {
    hide Bit, Irqs;
  }

  lemma AcknowledgeLevels(s: State)
    ensures s.Acknowledge().levels == s.levels
  {}

  lemma UpdatedLevels(s: State)
    ensures s.Updated().levels == s.levels
  {}

  /** Recorded levels follow the input lines only; no programming or acknowledgement moves them. */
  lemma LevelsFollowLines(s: State, e: Event)
    ensures Apply(s, e).levels ==
            match e
            case Line(irq, high) => (if high then s.levels + {irq} else s.levels - {irq})
            case Connect(irq, high) => (if high then s.levels + {irq} else s.levels - {irq})
            case _ => s.levels
  {
    match e
    case WriteCommand(value) => CommandLevels(s, value); UpdatedLevels(s.Command(value));
    case WriteData(value) => DataLevels(s, value); UpdatedLevels(s.Data(value));
    case Line(irq, high) => SetLevelChange(s, irq, high); UpdatedLevels(s.SetLevel(irq, high));
    case Connect(irq, high) => UpdatedLevels(s.RecordLevel(irq, high));
    case Unmask(irq) => UpdatedLevels(s.(mask := s.mask - {irq}));
    case Accept => AcknowledgeLevels(s.(waker := true));
    case ReadStatus => AcknowledgeLevels(s.(pollPending := false));
  }
}

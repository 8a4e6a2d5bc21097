/** PC speaker synthesis: channel 2 integrated over playback samples, exactly. */
module SpeakerAudio {
  import opened Machine
  import opened Arithmetic
  import opened Counters
  import opened Clocks

  datatype BufferSize = Default | Fixed(frames: nat)

  function Frames(size: BufferSize): (frames: nat)
    ensures 1 <= frames <= 256
  {
    match size
    case Default => 256
    case Fixed(n) => if n < 1 then 1 else if n > 256 then 256 else n
  }

  function Level(s: State): nat { if s.Output() then 1 else 0 }

  // ----- playback positions, in units of 1/rate input clock

  // The counter at a playback position.
  ghost function At(s: State, rate: nat, position: nat): State
    requires rate > 0
  {
    Steps(s, Whole(rate, position))
  }

  // The time OUT2 spent high before a playback position.
  ghost function HighUnits(s: State, rate: nat, position: nat): int
    requires rate > 0
  {
    HighTime(s, Whole(rate, position)) * rate + Part(rate, position) * Level(At(s, rate, position))
  }

  // The exact high time between two playback positions.
  ghost function Between(s: State, rate: nat, from: nat, to: nat): int
    requires rate > 0
  {
    HighUnits(s, rate, to) - HighUnits(s, rate, from)
  }

  lemma HighUnitsStart(s: State, rate: nat, fraction: nat)
    requires fraction < rate
    ensures HighUnits(s, rate, fraction) == fraction * Level(s)
  {
    assert HighTime(s, 0) * rate == 0;
  }

  // Playback may be resumed at any position from the counter it has reached.
  lemma HighUnitsShift(s: State, rate: nat, start: nat, more: nat)
    requires rate > 0
    ensures At(s, rate, start + more) == At(At(s, rate, start), rate, Part(rate, start) + more)
    ensures Between(s, rate, start, start + more)
            == Between(At(s, rate, start), rate, Part(rate, start), Part(rate, start) + more)
  {
    var whole, fraction := Whole(rate, start), Part(rate, start);
    var reached := Steps(s, whole);
    WholeSum(rate, start, more);
    var further := Whole(rate, fraction + more);
    StepsAdd(s, whole, further);
    MulDistribute(HighTime(s, whole), HighTime(reached, further), rate);
    HighUnitsStart(reached, rate, fraction);
  }

  // ----- one sample

  // The value of one sample's window, as the source accumulates it.
  ghost function Window(s: State, rate: nat, fraction: nat): int
    requires rate > 0
  {
    Between(s, rate, fraction, fraction + INPUT_HZ)
  }

  lemma SampleIntegral(s: State, rate: nat, fraction: nat, high: nat)
    requires fraction < rate
    requires high == HighTime(s, Whole(rate, fraction + INPUT_HZ))
    ensures var span := fraction + INPUT_HZ;
            high * rate + Part(rate, span) * Level(At(s, rate, span)) - fraction * Level(s)
            == Window(s, rate, fraction)
  {
    HighUnitsStart(s, rate, fraction);
  }

  lemma Scale(level: nat, x: nat)
    requires level <= 1
    ensures x * level == if level == 1 then x else 0
  {}

  /** No sample underflows and none exceeds one full window of input clocks. */
  lemma WindowBounds(s: State, rate: nat, fraction: nat)
    requires fraction < rate
    ensures 0 <= Window(s, rate, fraction) <= INPUT_HZ
  {
    var span := fraction + INPUT_HZ;
    var whole, rest := Whole(rate, span), Part(rate, span);
    var high := HighTime(s, whole);
    WholeIdentity(rate, span);
    HighTimeBound(s, whole);
    SampleIntegral(s, rate, fraction, high);
    Scale(Level(s), fraction);
    Scale(Level(At(s, rate, span)), rest);
    MulMonotone(Level(s), high, rate);
    MulMonotone(high, whole + Level(s) - 1, rate);
    MulDistribute(whole, Level(s) - 1, rate);
  }

  // ----- buffers

  // Normalized amplitude of one sample.
  ghost function Amplitude(integral: int): real {
    0.2 * integral as real / INPUT_HZ as real
  }

  function Filled(value: real, channels: nat): seq<real> {
    seq(channels, _ => value)
  }

  // The exact high time of one frame's window, measured from the start of playback.
  ghost function FrameHigh(s: State, rate: nat, fraction: nat, frame: nat): int
    requires rate > 0
  {
    var end := fraction + frame * INPUT_HZ;
    Between(s, rate, end, end + INPUT_HZ)
  }

  /** Each frame carries, in every channel, the exact high time of its own window. */
  ghost function Samples(s: State, rate: nat, fraction: nat, frames: nat, channels: nat): seq<real>
    requires rate > 0
    decreases frames
  {
    if frames == 0 then []
    else
      Samples(s, rate, fraction, frames - 1, channels)
      + Filled(Amplitude(FrameHigh(s, rate, fraction, frames - 1)), channels)
  }

  // Where playback stands after some frames.
  ghost function Reached(s: State, rate: nat, fraction: nat, frames: nat): State
    requires rate > 0
  {
    At(s, rate, fraction + frames * INPUT_HZ)
  }

  ghost function Carried(rate: nat, fraction: nat, frames: nat): nat
    requires rate > 0
  {
    Part(rate, fraction + frames * INPUT_HZ)
  }

  // One more frame, in terms of the counter and fraction already reached.
  lemma NextFrame(s: State, rate: nat, fraction: nat, frames: nat)
    requires rate > 0
    ensures Carried(rate, fraction, frames) < rate
    ensures var now := Reached(s, rate, fraction, frames); var carried := Carried(rate, fraction, frames);
            var span := carried + INPUT_HZ;
            && FrameHigh(s, rate, fraction, frames) == Window(now, rate, carried)
            && At(now, rate, span) == Reached(s, rate, fraction, frames + 1)
            && Part(rate, span) == Carried(rate, fraction, frames + 1)
  {
    var end := fraction + frames * INPUT_HZ;
    HighUnitsShift(s, rate, end, INPUT_HZ);
    WholeSum(rate, end, INPUT_HZ);
  }

  lemma ReachedCompose(s: State, rate: nat, fraction: nat, first: nat, second: nat)
    requires rate > 0
    ensures var now := Reached(s, rate, fraction, first); var carried := Carried(rate, fraction, first);
            && Reached(now, rate, carried, second) == Reached(s, rate, fraction, first + second)
            && Carried(rate, carried, second) == Carried(rate, fraction, first + second)
  {
    var start := fraction + first * INPUT_HZ;
    assert start + second * INPUT_HZ == fraction + (first + second) * INPUT_HZ;
    WholeSum(rate, start, second * INPUT_HZ);
    HighUnitsShift(s, rate, start, second * INPUT_HZ);
  }

  // A later frame has the same window whether or not playback was resumed before it.
  lemma FrameShift(s: State, rate: nat, fraction: nat, first: nat, frame: nat)
    requires rate > 0
    ensures FrameHigh(s, rate, fraction, first + frame)
            == FrameHigh(Reached(s, rate, fraction, first), rate, Carried(rate, fraction, first), frame)
  {
    var start, skipped := fraction + first * INPUT_HZ, frame * INPUT_HZ;
    assert fraction + (first + frame) * INPUT_HZ == start + skipped;
    HighUnitsShift(s, rate, start, skipped);
    HighUnitsShift(s, rate, start, skipped + INPUT_HZ);
  }

  lemma AppendFrame(s: State, rate: nat, fraction: nat, frames: nat, channels: nat)
    requires rate > 0
    ensures Samples(s, rate, fraction, frames + 1, channels)
            == Samples(s, rate, fraction, frames, channels)
               + Filled(Amplitude(FrameHigh(s, rate, fraction, frames)), channels)
  {}

  /** Consecutive buffers are one longer buffer: no window is lost, repeated or shifted. */
  lemma {:induction false} BuffersCompose(s: State, rate: nat, fraction: nat, first: nat, second: nat, channels: nat)
    requires rate > 0
    ensures Samples(s, rate, fraction, first + second, channels)
            == Samples(s, rate, fraction, first, channels)
               + Samples(Reached(s, rate, fraction, first), rate, Carried(rate, fraction, first), second, channels)
    decreases second
  {
    if second != 0 {
      BuffersCompose(s, rate, fraction, first, second - 1, channels);
      FrameShift(s, rate, fraction, first, second - 1);
      AppendFrame(s, rate, fraction, first + (second - 1), channels);
      AppendFrame(Reached(s, rate, fraction, first), rate, Carried(rate, fraction, first), second - 1, channels);
    }
  }

  // The integrals of consecutive samples, added up.
  ghost function Total(s: State, rate: nat, fraction: nat, frames: nat): int
    requires rate > 0
    decreases frames
  {
    if frames == 0 then 0
    else
      Total(s, rate, fraction, frames - 1)
      + Window(Reached(s, rate, fraction, frames - 1), rate, Carried(rate, fraction, frames - 1))
  }

  /** The samples add up to the exact time OUT2 was high over all of them. */
  lemma {:induction false} SamplesTelescope(s: State, rate: nat, fraction: nat, frames: nat)
    requires rate > 0
    ensures Total(s, rate, fraction, frames) == Between(s, rate, fraction, fraction + frames * INPUT_HZ)
    decreases frames
  {
    hide At, Reached, Carried, Window, HighUnits;
    if frames != 0 {
      SamplesTelescope(s, rate, fraction, frames - 1);
      NextFrame(s, rate, fraction, frames - 1);
      FrameTelescopes(s, rate, fraction, frames - 1);
    } else {
      assert frames * INPUT_HZ == 0;
    }
  }

  // One more frame extends the interval by its own part.
  lemma FrameTelescopes(s: State, rate: nat, fraction: nat, frames: nat)
    requires rate > 0
    ensures Between(s, rate, fraction, fraction + (frames + 1) * INPUT_HZ) ==
            Between(s, rate, fraction, fraction + frames * INPUT_HZ) + FrameHigh(s, rate, fraction, frames)
  {}

  // One channel's values added up over some frames.
  ghost function ChannelSum(samples: seq<real>, channels: nat, channel: nat, frames: nat): real
    requires channel < channels && |samples| == frames * channels
    decreases frames
  {
    if frames == 0 then 0.0
    else
      LastFrame(frames, channels);
      ChannelSum(samples[..(frames - 1) * channels], channels, channel, frames - 1)
      + samples[(frames - 1) * channels + channel]
  }

  lemma LastFrame(frames: nat, channels: nat)
    requires frames > 0
    ensures 0 <= (frames - 1) * channels && (frames - 1) * channels + channels == frames * channels
  {
    MulSuccessor(frames - 1, channels);
    MulNonNegative(frames - 1, channels);
  }

  lemma {:induction false} SamplesLength(s: State, rate: nat, fraction: nat, frames: nat, channels: nat)
    requires rate > 0
    ensures |Samples(s, rate, fraction, frames, channels)| == frames * channels
    decreases frames
  {
    if frames > 0 {
      SamplesLength(s, rate, fraction, frames - 1, channels);
      LastFrame(frames, channels);
    }
  }

  /** Every channel's values add up to a fifth of the clocks that OUT2 was high over the buffer, as a share of
      the clocks in a second of it. */
  lemma {:induction false} ChannelsTelescope(
      s: State, rate: nat, fraction: nat, frames: nat, channels: nat, channel: nat)
    requires rate > 0 && channel < channels
    ensures |Samples(s, rate, fraction, frames, channels)| == frames * channels
    ensures ChannelSum(Samples(s, rate, fraction, frames, channels), channels, channel, frames) ==
            Between(s, rate, fraction, fraction + frames * INPUT_HZ) as real / 5.0 / 1193182.0
    decreases frames
  {
    hide Between, At, Amplitude, FrameHigh;
    SamplesLength(s, rate, fraction, frames, channels);
    if frames == 0 {
      NothingBetween(s, rate, fraction);
      assert frames * INPUT_HZ == 0;
    } else {
      var samples := Samples(s, rate, fraction, frames, channels);
      ChannelsTelescope(s, rate, fraction, frames - 1, channels, channel);
      LastFrame(frames, channels);
      FrameTelescopes(s, rate, fraction, frames - 1);
      var high := FrameHigh(s, rate, fraction, frames - 1);
      assert samples[..(frames - 1) * channels] == Samples(s, rate, fraction, frames - 1, channels);
      assert samples[(frames - 1) * channels + channel] == Amplitude(high);
      AmplitudeScales(high);
    }
  }

  lemma NothingBetween(s: State, rate: nat, position: nat)
    requires rate > 0
    ensures Between(s, rate, position, position) == 0
  {}

  lemma AmplitudeScales(high: int)
    ensures Amplitude(high) == high as real / 5.0 / 1193182.0
  {}

  /** A fixed size is used as asked, up to 256 frames; the host's default is 256. */
  lemma FramesAsked(n: nat)
    ensures Frames(Default) == 256 && Frames(Fixed(0)) == 1
    ensures 1 <= n <= 256 ==> Frames(Fixed(n)) == n
    ensures n > 256 ==> Frames(Fixed(n)) == 256
  {}

  class Audio {
    const rate: nat
    const channels: nat
    const size: BufferSize
    var counter: Counter
    var fraction: nat

    ghost predicate Valid()
      reads this, counter
    {
      0 < rate < TWO_32 && 0 < channels < TWO_16 && fraction < rate && counter.Valid()
    }

    constructor (rate: nat, channels: nat, size: BufferSize, channel2: State)
      requires 0 < rate < TWO_32 && 0 < channels < TWO_16 && channel2.Valid()
      ensures Valid() && fraction == 0 && fresh(counter) && counter.Value() == channel2
      ensures this.rate == rate && this.channels == channels && this.size == size
    {
      this.rate, this.channels, this.size, fraction := rate, channels, size, 0;
      counter := new Counter.Clone(channel2);
    }

    /** Restarts at the phase of a sound-changing register write. */
    method Update(channel2: State)
      requires Valid() && channel2.Valid()
      modifies this
      ensures Valid() && fraction == 0 && fresh(counter) && counter.Value() == channel2
    {
      counter := new Counter.Clone(channel2);
      fraction := 0;
    }

    // One playback sample: the high time of its window of INPUT_HZ position units.
    method Sample() returns (integral: nat)
      requires Valid()
      modifies this`fraction, counter
      ensures Valid() && integral <= INPUT_HZ
      ensures integral == Window(old(counter.Value()), rate, old(fraction))
      ensures counter.Value() == At(old(counter.Value()), rate, old(fraction) + INPUT_HZ)
      ensures fraction == Part(rate, old(fraction) + INPUT_HZ)
    {
      var initialHigh := Level(counter.Value());
      var span := fraction + INPUT_HZ;
      QuotientAndRemainder(rate, span);
      WholeBound(rate, span);
      var high := counter.Advance(span / rate);
      var nextFraction := span % rate;
      SampleIntegral(old(counter.Value()), rate, fraction, high);
      WindowBounds(old(counter.Value()), rate, fraction);
      // The whole clocks and the two fractional ends; the subtraction cannot underflow.
      integral := high * rate + nextFraction * Level(counter.Value()) - fraction * initialHigh;
      fraction := nextFraction;
    }

    /** One buffer: silence leaves playback where it is. */
    method Buffer(enabled: bool) returns (buffer: seq<real>)
      requires Valid()
      modifies this`fraction, counter
      ensures Valid()
      ensures enabled ==>
                && buffer == Samples(old(counter.Value()), rate, old(fraction), Frames(size), channels)
                && counter.Value() == Reached(old(counter.Value()), rate, old(fraction), Frames(size))
                && fraction == Carried(rate, old(fraction), Frames(size))
      ensures !enabled ==>
                && buffer == Filled(0.0, Frames(size) * channels)
                && counter.Value() == old(counter.Value()) && fraction == old(fraction)
    {
      var batch := Frames(size);
      buffer := [];
      if !enabled {
        buffer := Filled(0.0, batch * channels);
        return;
      }
      ghost var start, carried := counter.Value(), fraction;
      for frame := 0 to batch
        invariant Valid()
        invariant buffer == Samples(start, rate, carried, frame, channels)
        invariant counter.Value() == Reached(start, rate, carried, frame)
        invariant fraction == Carried(rate, carried, frame)
      {
        NextFrame(start, rate, carried, frame);
        AppendFrame(start, rate, carried, frame, channels);
        var integral := Sample();
        var amplitude := 0.2 * integral as real / INPUT_HZ as real;
        buffer := buffer + Filled(amplitude, channels);
      }
    }
  }
}

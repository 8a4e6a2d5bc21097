/** The display raster of crates/vga/src/raster.rs and timing.rs: nanoseconds to dot clocks without
    drift, missed retraces counted without a loop, deadlines rounded to the exact nanosecond. */
module Rasters {
  import opened Wrappers
  import opened Machine
  import opened Arithmetic
  import opened Times

  // Largest representable time: 2^64 - 1 seconds and 999 999 999 nanoseconds.
  const MAX_DURATION := TWO_64 * NANOS - 1

  datatype Timing = Timing(
    oscillatorHz: nat,
    dotClockDivisor: nat,
    dotsPerHorizontalCount: nat,
    horizontalTotal: nat,
    horizontalDisplay: nat,
    horizontalDisplaySkew: nat,
    verticalTotal: nat,
    verticalDisplay: nat,
    scanlinesPerVerticalCount: nat,
    verticalRetraceStart: nat,
    verticalRetraceEnd: nat,
    wrappedRetraceEnd: nat,
    resetActive: bool,
    syncEnabled: bool)
  {
    // What both decoders of timing registers supply.
    ghost predicate Valid() {
      && dotClockDivisor > 0 && dotsPerHorizontalCount > 0
      && horizontalTotal > 0 && verticalTotal > 0 && scanlinesPerVerticalCount > 0
      && FrameDots() > 0
    }

    function FrameDots(): nat {
      MulNonNegative(horizontalTotal, verticalTotal);
      MulNonNegative(horizontalTotal * verticalTotal, scanlinesPerVerticalCount);
      horizontalTotal * verticalTotal * scanlinesPerVerticalCount
    }

    function RetraceDot(): Option<nat> {
      MulNonNegative(verticalRetraceStart, scanlinesPerVerticalCount);
      MulNonNegative(verticalRetraceStart * scanlinesPerVerticalCount, horizontalTotal);
      if oscillatorHz != 0 && verticalRetraceStart < verticalTotal then
        Some(verticalRetraceStart * scanlinesPerVerticalCount * horizontalTotal)
      else None
    }

    function PhaseDenominator(): nat { NANOS * dotClockDivisor }

    // The four numbers that the passage of time depends on.
    function Speed(): Rate {
      Rate(oscillatorHz, PhaseDenominator(), FrameDots(), RetraceDot())
    }
  }

  datatype Rate = Rate(oscillator: nat, denominator: nat, frame: nat, boundary: Option<nat>) {
    ghost predicate Valid() {
      && denominator > 0 && frame > 0
      && (boundary.Some? ==> oscillator > 0 && boundary.value < frame)
    }
  }

  datatype Beam = Beam(updated: nat, dot: nat, remainder: nat, retraceCount: nat) {
    ghost predicate Valid(r: Rate) {
      dot < r.frame && remainder < r.denominator
    }
  }

  lemma TimingSpeed(t: Timing)
    requires t.Valid()
    ensures t.Speed().Valid()
  {
    if t.RetraceDot().Some? {
      var start, lines, dots := t.verticalRetraceStart, t.scanlinesPerVerticalCount, t.horizontalTotal;
      MulMonotone(start + 1, t.verticalTotal, lines);
      MulSuccessor(start, lines);
      MulMonotone(start * lines + 1, t.verticalTotal * lines, dots);
      MulSuccessor(start * lines, dots);
      FrameOrder(t);
    }
  }

  lemma FrameOrder(t: Timing)
    ensures t.FrameDots() == t.verticalTotal * t.scanlinesPerVerticalCount * t.horizontalTotal
  {}

  // ----- the passage of time

  // Phase numerator after some nanoseconds: dots are whole denominators of it.
  ghost function Numerator(r: Rate, s: Beam, elapsed: nat): nat {
    MulNonNegative(elapsed, r.oscillator);
    elapsed * r.oscillator + s.remainder
  }

  ghost function Dots(r: Rate, s: Beam, elapsed: nat): nat
    requires r.Valid()
  {
    Whole(r.denominator, Numerator(r, s, elapsed))
  }

  // Dots since the retrace boundary was last crossed.
  ghost function SinceBoundary(r: Rate, s: Beam): (since: nat)
    requires r.Valid() && s.Valid(r) && r.boundary.Some?
    ensures since < r.frame
  {
    Part(r.frame, s.dot + r.frame - r.boundary.value)
  }

  ghost function Frames(r: Rate, s: Beam, elapsed: nat): nat
    requires r.Valid() && s.Valid(r)
  {
    if r.boundary.None? then 0
    else Whole(r.frame, SinceBoundary(r, s) + Dots(r, s, elapsed))
  }

  // How far, in phase units, the beam is past the latest boundary after some nanoseconds.
  ghost function PastBoundary(r: Rate, s: Beam, elapsed: nat): nat
    requires r.Valid() && s.Valid(r) && r.boundary.Some?
  {
    var since := Part(r.frame, SinceBoundary(r, s) + Dots(r, s, elapsed));
    MulNonNegative(since, r.denominator);
    since * r.denominator + Part(r.denominator, Numerator(r, s, elapsed))
  }

  ghost function Advanced(r: Rate, s: Beam, now: nat): Beam
    requires r.Valid() && s.Valid(r)
  {
    var elapsed := if now < s.updated then 0 else now - s.updated;
    if r.oscillator == 0 then s.(updated := now)
    else
      Beam(now, Part(r.frame, s.dot + Dots(r, s, elapsed)),
           Part(r.denominator, Numerator(r, s, elapsed)),
           s.retraceCount + Frames(r, s, elapsed))
  }

  // The latest retrace crossed on the way to `now`, dated.
  ghost function Completed(r: Rate, s: Beam, now: nat): Option<int>
    requires r.Valid() && s.Valid(r)
  {
    var elapsed := if now < s.updated then 0 else now - s.updated;
    if Frames(r, s, elapsed) == 0 then None
    else Some(now - Whole(r.oscillator, PastBoundary(r, s, elapsed)))
  }

  // ----- schedule independence

  lemma DotsAdd(r: Rate, s: Beam, first: nat, second: nat)
    requires r.Valid() && s.Valid(r) && r.oscillator > 0
    ensures var mid := Advanced(r, s, s.updated + first);
            && Dots(r, s, first + second) == Dots(r, s, first) + Dots(r, mid, second)
            && Part(r.denominator, Numerator(r, s, first + second))
               == Part(r.denominator, Numerator(r, mid, second))
  {
    MulDistribute(first, second, r.oscillator);
    WholeSum(r.denominator, Numerator(r, s, first), second * r.oscillator);
  }

  lemma SinceAdd(r: Rate, s: Beam, first: nat)
    requires r.Valid() && s.Valid(r) && r.boundary.Some?
    ensures SinceBoundary(r, Advanced(r, s, s.updated + first))
            == Part(r.frame, SinceBoundary(r, s) + Dots(r, s, first))
  {
    var offset := r.frame - r.boundary.value;
    var dots := Dots(r, s, first);
    WholeSum(r.frame, s.dot + offset, dots);
    WholeSum(r.frame, s.dot + dots, offset);
    assert s.dot + offset + dots == s.dot + dots + offset;
  }

  lemma FramesAdd(r: Rate, s: Beam, first: nat, second: nat)
    requires r.Valid() && s.Valid(r) && r.boundary.Some?
    ensures Frames(r, s, first + second)
            == Frames(r, s, first) + Frames(r, Advanced(r, s, s.updated + first), second)
  {
    var half := Advanced(r, s, s.updated + first);
    SinceAdd(r, s, first);
    DotsAdd(r, s, first, second);
    WholeSum(r.frame, SinceBoundary(r, s) + Dots(r, s, first), Dots(r, half, second));
  }

  lemma DotAdd(r: Rate, s: Beam, first: nat, second: nat)
    requires r.Valid() && s.Valid(r) && r.oscillator > 0
    ensures Part(r.frame, Advanced(r, s, s.updated + first).dot + Dots(r, Advanced(r, s, s.updated + first), second))
            == Part(r.frame, s.dot + Dots(r, s, first + second))
  {
    DotsAdd(r, s, first, second);
    WholeSum(r.frame, s.dot + Dots(r, s, first), Dots(r, Advanced(r, s, s.updated + first), second));
  }

  lemma AdvanceTwice(r: Rate, s: Beam, mid: nat, end: nat)
    requires r.Valid() && s.Valid(r) && s.updated <= mid <= end
    ensures Advanced(r, Advanced(r, s, mid), end) == Advanced(r, s, end)
  {
    var first, second := mid - s.updated, end - mid;
    if r.oscillator > 0 {
      DotsAdd(r, s, first, second);
      DotAdd(r, s, first, second);
      if r.boundary.Some? { FramesAdd(r, s, first, second); }
    }
  }

  // A boundary crossed earlier is just that much further behind.
  lemma PastBoundaryGrows(r: Rate, s: Beam, first: nat, second: nat)
    requires r.Valid() && s.Valid(r) && r.boundary.Some?
    requires Frames(r, Advanced(r, s, s.updated + first), second) == 0
    ensures second * r.oscillator >= 0
    ensures PastBoundary(r, s, first + second) == PastBoundary(r, s, first) + second * r.oscillator
  {
    var half := Advanced(r, s, s.updated + first);
    var since := SinceBoundary(r, half);
    var more := Dots(r, half, second);
    SinceAdd(r, s, first);
    DotsAdd(r, s, first, second);
    WholeSum(r.frame, SinceBoundary(r, s) + Dots(r, s, first), more);
    WholeSmall(r.frame, since + more);
    WholeIdentity(r.denominator, Numerator(r, half, second));
    MulDistribute(since, more, r.denominator);
    MulNonNegative(second, r.oscillator);
  }

  lemma WholeSmall(d: nat, x: nat)
    requires d > 0 && Whole(d, x) == 0
    ensures x < d && Part(d, x) == x
  {}

  lemma PastBoundaryShared(r: Rate, s: Beam, first: nat, second: nat)
    requires r.Valid() && s.Valid(r) && r.boundary.Some?
    ensures PastBoundary(r, Advanced(r, s, s.updated + first), second) == PastBoundary(r, s, first + second)
  {
    var half := Advanced(r, s, s.updated + first);
    SinceAdd(r, s, first);
    DotsAdd(r, s, first, second);
    WholeSum(r.frame, SinceBoundary(r, s) + Dots(r, s, first), Dots(r, half, second));
  }

  /** The last date reported over two updates is the date reported by one. */
  lemma CompletedTwice(r: Rate, s: Beam, mid: nat, end: nat)
    requires r.Valid() && s.Valid(r) && s.updated <= mid <= end
    ensures var second := Completed(r, Advanced(r, s, mid), end);
            Completed(r, s, end) == if second.Some? then second else Completed(r, s, mid)
  {
    if r.boundary.Some? {
      var first, second := mid - s.updated, end - mid;
      FramesAdd(r, s, first, second);
      PastBoundaryShared(r, s, first, second);
      if Frames(r, Advanced(r, s, mid), second) == 0 && Frames(r, s, first) != 0 {
        PastBoundaryGrows(r, s, first, second);
        WholeAddMultiple(r.oscillator, PastBoundary(r, s, first), second);
      }
    }
  }

  ghost function AdvancedAll(r: Rate, s: Beam, times: seq<nat>): (after: Beam)
    requires r.Valid() && s.Valid(r)
    ensures after.Valid(r)
    decreases |times|
  {
    if times == [] then s else AdvancedAll(r, Advanced(r, s, times[0]), times[1..])
  }

  // The last retrace reported by any of the updates.
  ghost function LastCompleted(r: Rate, s: Beam, times: seq<nat>): Option<int>
    requires r.Valid() && s.Valid(r)
    decreases |times|
  {
    if times == [] then None
    else
      var later := LastCompleted(r, Advanced(r, s, times[0]), times[1..]);
      if later.Some? then later else Completed(r, s, times[0])
  }

  /** Under one timing, updating through any rising times equals one update to the last:
      the same position, fraction, retrace count and latest retrace date. */
  lemma {:induction false} ScheduleIndependent(r: Rate, s: Beam, times: seq<nat>)
    requires r.Valid() && s.Valid(r) && times != [] && Rising(s.updated, times)
    ensures AdvancedAll(r, s, times) == Advanced(r, s, times[|times| - 1])
    ensures LastCompleted(r, s, times) == Completed(r, s, times[|times| - 1])
    decreases |times|
  {
    var next, rest := Advanced(r, s, times[0]), times[1..];
    if rest == [] {
      assert AdvancedAll(r, next, rest) == next;
      assert LastCompleted(r, next, rest) == None;
    } else {
      RisingLast(times[0], rest);
      ScheduleIndependent(r, next, rest);
      AdvanceTwice(r, s, times[0], times[|times| - 1]);
      CompletedTwice(r, s, times[0], times[|times| - 1]);
    }
  }

  // ----- what a timing's own fields mean

  /** In as many seconds as the oscillator is divided by, exactly one oscillator count of dots passes, from
      any beam, and the fraction of a dot is as before. */
  lemma DotsPerSecond(t: Timing, s: Beam)
    requires t.Valid() && t.Speed().Valid() && s.Valid(t.Speed())
    ensures Dots(t.Speed(), s, t.dotClockDivisor * NANOS) == t.oscillatorHz
    ensures Part(t.Speed().denominator, Numerator(t.Speed(), s, t.dotClockDivisor * NANOS)) == s.remainder
  {
    var d := t.PhaseDenominator();
    assert t.dotClockDivisor * NANOS == d;
    MulNonNegative(d, t.oscillatorHz);
    assert d * t.oscillatorHz + s.remainder == s.remainder + t.oscillatorHz * d;
    WholeAddMultiple(d, s.remainder, t.oscillatorHz);
    WholeSmall(d, s.remainder);
    PartAddMultiple(d, s.remainder, t.oscillatorHz);
  }

  lemma {:induction false} PartAddMultiple(d: nat, x: nat, k: nat)
    requires d > 0
    ensures k * d >= 0 && Part(d, x + k * d) == Part(d, x)
    decreases k
  {
    if k == 0 {
      assert k * d == 0;
    } else {
      MulSuccessor(k - 1, d);
      PartAddMultiple(d, x, k - 1);
      MulNonNegative(k, d);
    }
  }

  /** The dot after some dots, moved one at a time and wrapping at the frame. */
  function DotAfter(frame: nat, dot: nat, dots: nat): nat
    requires frame > 0
  {
    if dots == 0 then dot
    else
      var before := DotAfter(frame, dot, dots - 1);
      if before + 1 == frame then 0 else before + 1
  }

  /** How often those dots enter a boundary. */
  function Entered(frame: nat, dot: nat, dots: nat, boundary: nat): nat
    requires frame > 0
  {
    if dots == 0 then 0
    else
      Entered(frame, dot, dots - 1, boundary) + if DotAfter(frame, dot, dots) == boundary then 1 else 0
  }

  // The first dot of the physical line where vertical retrace starts.
  function RetraceLineDot(t: Timing): int {
    t.verticalRetraceStart * t.scanlinesPerVerticalCount * t.horizontalTotal
  }

  lemma {:induction false} DotByDot(frame: nat, dot: nat, dots: nat)
    requires dot < frame
    ensures DotAfter(frame, dot, dots) == Part(frame, dot + dots)
    decreases dots
  {
    if dots != 0 {
      DotByDot(frame, dot, dots - 1);
      PartNext(frame, dot + dots - 1);
    }
  }

  lemma {:induction false} PartNext(d: nat, x: nat)
    requires d > 0
    ensures Part(d, x + 1) == if Part(d, x) + 1 == d then 0 else Part(d, x) + 1
    ensures Whole(d, x + 1) == Whole(d, x) + if Part(d, x) + 1 == d then 1 else 0
    decreases x
  {
    if x >= d { PartNext(d, x - d); }
  }

  // Counting from the boundary, a new frame begins exactly when it is entered.
  lemma {:induction false} EnteredByDot(frame: nat, dot: nat, dots: nat, boundary: nat)
    requires dot < frame && boundary < frame
    ensures Whole(frame, Part(frame, dot + frame - boundary) + dots) == Entered(frame, dot, dots, boundary)
    ensures Part(frame, Part(frame, dot + frame - boundary) + dots) ==
            (if DotAfter(frame, dot, dots) >= boundary then DotAfter(frame, dot, dots) - boundary
             else DotAfter(frame, dot, dots) + frame - boundary)
    decreases dots
  {
    var since := Part(frame, dot + frame - boundary);
    DotByDot(frame, dot, dots);
    if dots == 0 {
      assert dot >= boundary ==> Part(frame, dot - boundary) == dot - boundary;
      WholeSmall(frame, since);
    } else {
      DotByDot(frame, dot, dots - 1);
      EnteredByDot(frame, dot, dots - 1, boundary);
      PartNext(frame, since + dots - 1);
    }
  }

  /** Updates place the beam, and count retraces, as moving it dot by dot over the grid does: one retrace each
      time it enters dot 0 of the line where vertical retrace starts, and none without such a line. */
  lemma UpdatesDotByDot(t: Timing, s: Beam, elapsed: nat)
    requires t.Valid() && t.Speed().Valid() && s.Valid(t.Speed()) && t.oscillatorHz > 0
    ensures var frame := t.horizontalTotal * t.verticalTotal * t.scanlinesPerVerticalCount;
            var dots := Dots(t.Speed(), s, elapsed); var after := Advanced(t.Speed(), s, s.updated + elapsed);
            && frame > 0 && after.dot == DotAfter(frame, s.dot, dots)
            && RetraceLineDot(t) >= 0
            && after.retraceCount == s.retraceCount + if t.verticalRetraceStart < t.verticalTotal
                                                      then Entered(frame, s.dot, dots, RetraceLineDot(t)) else 0
  {
    var r, dots := t.Speed(), Dots(t.Speed(), s, elapsed);
    MulNonNegative(t.verticalRetraceStart, t.scanlinesPerVerticalCount);
    MulNonNegative(t.verticalRetraceStart * t.scanlinesPerVerticalCount, t.horizontalTotal);
    DotByDot(r.frame, s.dot, dots);
    if r.boundary.Some? { EnteredByDot(r.frame, s.dot, dots, r.boundary.value); }
  }

  /** A whole grid of dots returns the beam to its dot and counts one retrace. */
  lemma FrameReturns(t: Timing, s: Beam, elapsed: nat)
    requires t.Valid() && t.Speed().Valid() && s.Valid(t.Speed()) && t.oscillatorHz > 0
    requires Dots(t.Speed(), s, elapsed) == t.horizontalTotal * t.verticalTotal * t.scanlinesPerVerticalCount
    ensures var after := Advanced(t.Speed(), s, s.updated + elapsed);
            && after.dot == s.dot
            && after.retraceCount == s.retraceCount + if t.verticalRetraceStart < t.verticalTotal then 1 else 0
  {
    var r := t.Speed();
    assert Part(r.frame, s.dot + r.frame) == Part(r.frame, s.dot) == s.dot;
    if r.boundary.Some? {
      var since := SinceBoundary(r, s);
      assert Whole(r.frame, since + r.frame) == 1 + Whole(r.frame, since);
      WholeSmall(r.frame, since);
    }
  }

  // ----- deadlines

  // Dots until the boundary is crossed again: a full frame when the beam stands on it.
  ghost function Needed(r: Rate, s: Beam): (dots: nat)
    requires r.Valid() && s.Valid(r) && r.boundary.Some?
    ensures 0 < dots <= r.frame
  {
    r.frame - SinceBoundary(r, s)
  }

  // Phase units short of the boundary, rounded up to whole nanoseconds.
  ghost function RetraceDelay(r: Rate, s: Beam): (delay: nat)
    requires r.Valid() && s.Valid(r) && r.boundary.Some?
  {
    MulMonotone(1, Needed(r, s), r.denominator);
    Whole(r.oscillator, Needed(r, s) * r.denominator - s.remainder + r.oscillator - 1)
  }

  lemma CeilingCompare(d: nat, x: nat, q: nat)
    requires d > 0
    ensures q >= Whole(d, x + d - 1) <==> q * d >= x
  {
    WholeCompare(d, x + d - 1, q + 1);
    MulSuccessor(q, d);
  }

  /** The beam crosses the boundary exactly when the delay has passed. */
  lemma CrossesAtDelay(r: Rate, s: Beam, elapsed: nat)
    requires r.Valid() && s.Valid(r) && r.boundary.Some?
    ensures Frames(r, s, elapsed) >= 1 <==> elapsed >= RetraceDelay(r, s)
  {
    var need := Needed(r, s);
    MulMonotone(1, need, r.denominator);
    CeilingCompare(r.oscillator, need * r.denominator - s.remainder, elapsed);
    WholeCompare(r.denominator, Numerator(r, s, elapsed), need);
    WholeCompare(r.frame, SinceBoundary(r, s) + Dots(r, s, elapsed), 1);
  }

  // After the first crossing and before the second, the overshoot is the excess phase.
  lemma PastFirstBoundary(r: Rate, s: Beam, elapsed: nat)
    requires r.Valid() && s.Valid(r) && r.boundary.Some? && Frames(r, s, elapsed) == 1
    ensures PastBoundary(r, s, elapsed) == Numerator(r, s, elapsed) - Needed(r, s) * r.denominator
  {
    var need, dots := Needed(r, s), Dots(r, s, elapsed);
    var total := SinceBoundary(r, s) + dots;
    assert Whole(r.frame, total - r.frame) == 0;
    WholeSmall(r.frame, total - r.frame);
    assert Part(r.frame, total) == dots - need;
    WholeIdentity(r.denominator, Numerator(r, s, elapsed));
    MulDistribute(dots - need, need, r.denominator);
  }

  /** Serviced after one crossing, at the deadline or late, the retrace is dated at the deadline. */
  lemma DatedAtDeadline(r: Rate, s: Beam, elapsed: nat)
    requires r.Valid() && s.Valid(r) && r.boundary.Some? && Frames(r, s, elapsed) == 1
    ensures Completed(r, s, s.updated + elapsed) == Some(s.updated + RetraceDelay(r, s))
  {
    var short := Needed(r, s) * r.denominator - s.remainder;
    var delay := RetraceDelay(r, s);
    CrossesAtDelay(r, s, elapsed);
    PastFirstBoundary(r, s, elapsed);
    var past := PastBoundary(r, s, elapsed);
    assert past == elapsed * r.oscillator - short;
    MulMonotone(1, Needed(r, s), r.denominator);
    CeilingCompare(r.oscillator, short, delay);
    CeilingCompare(r.oscillator, short, delay - 1);
    MulSuccessor(delay - 1, r.oscillator);
    var overshoot := delay * r.oscillator - short;
    MulDistribute(elapsed - delay, delay, r.oscillator);
    WholeAddMultiple(r.oscillator, overshoot, elapsed - delay);
  }

  // At the deadline one retrace is counted unless rounding up to a nanosecond overshoots by a frame.
  lemma OvershootDecides(r: Rate, s: Beam)
    requires r.Valid() && s.Valid(r) && r.boundary.Some?
    ensures Frames(r, s, RetraceDelay(r, s)) == 1 <==>
              RetraceDelay(r, s) * r.oscillator - (Needed(r, s) * r.denominator - s.remainder)
              < r.frame * r.denominator
  {
    var need, delay := Needed(r, s), RetraceDelay(r, s);
    CrossesAtDelay(r, s, delay);
    MulDistribute(need, r.frame, r.denominator);
    MulNonNegative(need + r.frame, r.denominator);
    WholeCompare(r.denominator, Numerator(r, s, delay), need + r.frame);
    WholeCompare(r.frame, SinceBoundary(r, s) + Dots(r, s, delay), 2);
  }

  /** From every position, service at the deadline counts one retrace and dates it there, when a
      frame lasts at least a nanosecond. */
  lemma OneRetraceAtDeadline(r: Rate, s: Beam)
    requires r.Valid() && s.Valid(r) && r.boundary.Some?
    requires r.oscillator <= r.frame * r.denominator
    ensures Frames(r, s, RetraceDelay(r, s)) == 1
    ensures Completed(r, s, s.updated + RetraceDelay(r, s)) == Some(s.updated + RetraceDelay(r, s))
  {
    var delay := RetraceDelay(r, s);
    var short := Needed(r, s) * r.denominator - s.remainder;
    OvershootDecides(r, s);
    MulMonotone(1, Needed(r, s), r.denominator);
    CeilingCompare(r.oscillator, short, delay);
    if delay > 0 {
      CeilingCompare(r.oscillator, short, delay - 1);
      MulSuccessor(delay - 1, r.oscillator);
    }
    DatedAtDeadline(r, s, delay);
  }

  // One phase unit before the boundary: the next nanosecond crosses it.
  function OnTheBrink(r: Rate): (s: Beam)
    requires r.Valid() && r.boundary.Some?
    ensures s.Valid(r)
  {
    Beam(0, if r.boundary.value == 0 then r.frame - 1 else r.boundary.value - 1, r.denominator - 1, 0)
  }

  lemma BrinkDelay(r: Rate)
    requires r.Valid() && r.boundary.Some?
    ensures Needed(r, OnTheBrink(r)) == 1 && RetraceDelay(r, OnTheBrink(r)) == 1
  {
    var s, boundary := OnTheBrink(r), r.boundary.value;
    if boundary == 0 {
      assert Part(r.frame, s.dot + r.frame) == Part(r.frame, s.dot) == r.frame - 1;
    } else {
      assert Part(r.frame, s.dot + r.frame - boundary) == r.frame - 1;
    }
    assert Whole(r.oscillator, r.oscillator) == 1 + Whole(r.oscillator, 0);
  }

  /** Exactly which timings are served on time from every position: those whose frame lasts at
      least a nanosecond. Under any other, one phase unit before the boundary is too late. */
  lemma OneRetraceExactly(r: Rate)
    requires r.Valid() && r.boundary.Some?
    ensures (forall s: Beam | s.Valid(r) :: Frames(r, s, RetraceDelay(r, s)) == 1)
            <==> r.oscillator <= r.frame * r.denominator
  {
    if r.oscillator <= r.frame * r.denominator {
      forall s: Beam | s.Valid(r) ensures Frames(r, s, RetraceDelay(r, s)) == 1 { OneRetraceAtDeadline(r, s); }
    } else {
      var s := OnTheBrink(r);
      BrinkDelay(r);
      OvershootDecides(r, s);
      assert Frames(r, s, RetraceDelay(r, s)) != 1;
    }
  }

  /** An oscillator below a gigahertz, as both decoders of timing registers select, is always served on time. */
  lemma DecodedTimingsServeOne(t: Timing, s: Beam)
    requires t.Valid() && t.Speed().Valid() && t.RetraceDot().Some? && t.oscillatorHz <= NANOS
    requires s.Valid(t.Speed())
    ensures Frames(t.Speed(), s, RetraceDelay(t.Speed(), s)) == 1
  {
    MulMonotone(1, t.dotClockDivisor, NANOS);
    MulMonotone(1, t.FrameDots(), t.PhaseDenominator());
    OneRetraceExactly(t.Speed());
  }

  /** A reported retrace lies after the previous update and not in the future. */
  lemma DateInside(r: Rate, s: Beam, elapsed: nat)
    requires r.Valid() && s.Valid(r) && r.boundary.Some? && Frames(r, s, elapsed) >= 1
    ensures Whole(r.oscillator, PastBoundary(r, s, elapsed)) < elapsed
  {
    var dots := Dots(r, s, elapsed);
    var total := SinceBoundary(r, s) + dots;
    var since := Part(r.frame, total);
    WholeIdentity(r.frame, total);
    MulMonotone(1, Whole(r.frame, total), r.frame);
    WholeIdentity(r.denominator, Numerator(r, s, elapsed));
    MulMonotone(since + 1, dots, r.denominator);
    MulSuccessor(since, r.denominator);
    WholeCompare(r.oscillator, PastBoundary(r, s, elapsed), elapsed);
  }

  // A retrace is at most one frame in the past or the future.
  lemma PastWithinFrame(r: Rate, s: Beam, elapsed: nat)
    requires r.Valid() && s.Valid(r) && r.boundary.Some?
    ensures PastBoundary(r, s, elapsed) < r.frame * r.denominator
  {
    var since := Part(r.frame, SinceBoundary(r, s) + Dots(r, s, elapsed));
    MulMonotone(since + 1, r.frame, r.denominator);
    MulSuccessor(since, r.denominator);
  }

  // The deadline's own dot count agrees with the boundary arithmetic of updates.
  lemma NeededForms(r: Rate, s: Beam)
    requires r.Valid() && s.Valid(r) && r.boundary.Some?
    ensures var ahead := Part(r.frame, r.boundary.value + r.frame - s.dot);
            Needed(r, s) == if ahead == 0 then r.frame else ahead
  {
    var boundary := r.boundary.value;
    if s.dot >= boundary {
      assert Part(r.frame, s.dot - boundary) == s.dot - boundary;
    } else {
      assert Part(r.frame, boundary - s.dot) == boundary - s.dot;
    }
  }

  // ----- reprogramming

  // A physical line at the same count of the vertical counter, its line within the count scaled.
  function RetimedLine(line: nat, was: nat, now: nat): nat
    requires was > 0
  {
    MulNonNegative(line / was, now);
    MulNonNegative(line % was, now);
    line / was * now + line % was * now / was
  }

  // A dot across at the same count of the horizontal counter, no further than the count goes.
  function RetimedColumn(column: nat, was: nat, now: nat): nat
    requires was > 0 && now > 0
  {
    MulNonNegative(column / was, now);
    column / was * now + Min(column % was, now - 1)
  }

  // The dot that a changed timing continues from, keeping the counters' positions.
  function Retimed(was: Timing, dot: nat, now: Timing): nat
    requires was.horizontalTotal > 0 && was.scanlinesPerVerticalCount > 0 && was.dotsPerHorizontalCount > 0
    requires now.horizontalTotal > 0 && now.dotsPerHorizontalCount > 0 && now.FrameDots() > 0
  {
    var line := RetimedLine(dot / was.horizontalTotal, was.scanlinesPerVerticalCount, now.scanlinesPerVerticalCount);
    var column :=
      RetimedColumn(dot % was.horizontalTotal, was.dotsPerHorizontalCount, now.dotsPerHorizontalCount);
    MulNonNegative(line, now.horizontalTotal);
    (line * now.horizontalTotal + column % now.horizontalTotal) % now.FrameDots()
  }

  function Rescaled(was: Timing, remainder: nat, now: Timing): nat
    requires was.dotClockDivisor > 0
  {
    MulNonNegative(remainder, now.PhaseDenominator());
    remainder * now.PhaseDenominator() / was.PhaseDenominator()
  }

  function Reprogrammed(was: Timing, s: Beam, now: Timing): Beam
    requires was.horizontalTotal > 0 && was.scanlinesPerVerticalCount > 0 && was.dotsPerHorizontalCount > 0
    requires was.dotClockDivisor > 0
    requires now.horizontalTotal > 0 && now.dotsPerHorizontalCount > 0 && now.FrameDots() > 0
  {
    if was == now then s
    else if was.resetActive || now.resetActive then s.(dot := 0, remainder := 0)
    else s.(dot := Retimed(was, s.dot, now), remainder := Rescaled(was, s.remainder, now))
  }

  /** Reprogramming keeps the position inside the new frame and the fraction below one dot. */
  lemma SetTimingKeepsBounds(was: Timing, s: Beam, now: Timing)
    requires was.Valid() && now.Valid() && s.Valid(was.Speed())
    ensures Reprogrammed(was, s, now).Valid(now.Speed())
  {
    var from, to := was.PhaseDenominator(), now.PhaseDenominator();
    MulMonotone(s.remainder + 1, from, to);
    MulSuccessor(s.remainder, to);
    QuotientAndRemainder(from, s.remainder * to);
    WholeCompare(from, s.remainder * to, to);
  }

  /** Changing only the clock, the retrace or the displayed part does not move the beam, and the
      fraction of a dot already travelled is kept, rounded down to the new clock's units. */
  lemma SameGridKeepsDot(was: Timing, s: Beam, now: Timing)
    requires was.Valid() && now.Valid() && s.Valid(was.Speed()) && !was.resetActive && !now.resetActive
    requires now.horizontalTotal == was.horizontalTotal && now.verticalTotal == was.verticalTotal
    requires now.scanlinesPerVerticalCount == was.scanlinesPerVerticalCount
    requires now.dotsPerHorizontalCount == was.dotsPerHorizontalCount
    ensures Reprogrammed(was, s, now).dot == s.dot
    ensures var after := Reprogrammed(was, s, now).remainder;
            && after * was.PhaseDenominator() <= s.remainder * now.PhaseDenominator()
            && s.remainder * now.PhaseDenominator() < (after + 1) * was.PhaseDenominator()
  {
    SameGrid(s.dot, was.horizontalTotal, was.scanlinesPerVerticalCount, was.dotsPerHorizontalCount, was.FrameDots());
    MulSuccessor(Reprogrammed(was, s, now).remainder, was.PhaseDenominator());
  }

  /** Entering or leaving reset starts a frame over; writing the same timing changes nothing. */
  lemma ResetStartsOver(was: Timing, s: Beam, now: Timing)
    requires was.Valid() && now.Valid() && s.Valid(was.Speed())
    ensures was == now ==> Reprogrammed(was, s, now) == s
    ensures was != now && (was.resetActive || now.resetActive) ==>
              Reprogrammed(was, s, now) == s.(dot := 0, remainder := 0)
    ensures Reprogrammed(was, s, now).updated == s.updated && Reprogrammed(was, s, now).retraceCount == s.retraceCount
  {}

  /** When the grid changes, the beam keeps its vertical and its horizontal count as far as the new totals hold
      them, and wraps around them otherwise: the line within a vertical count scales, and the dot within a
      horizontal count is cut to its width. */
  lemma CountersKept(was: Timing, s: Beam, now: Timing, vertical: nat, subline: nat, count: nat, within: nat)
    requires was.Valid() && now.Valid() && s.Valid(was.Speed()) && !was.resetActive && !now.resetActive && was != now
    requires subline < was.scanlinesPerVerticalCount && within < was.dotsPerHorizontalCount
    requires count * was.dotsPerHorizontalCount + within < was.horizontalTotal
    requires s.dot == (vertical * was.scanlinesPerVerticalCount + subline) * was.horizontalTotal
                      + (count * was.dotsPerHorizontalCount + within)
    ensures var line := vertical * now.scanlinesPerVerticalCount
                        + subline * now.scanlinesPerVerticalCount / was.scanlinesPerVerticalCount;
            var column := count * now.dotsPerHorizontalCount + Min(within, now.dotsPerHorizontalCount - 1);
            && now.horizontalTotal * now.verticalTotal * now.scanlinesPerVerticalCount > 0
            && Reprogrammed(was, s, now).dot ==
               (line * now.horizontalTotal + column % now.horizontalTotal)
               % (now.horizontalTotal * now.verticalTotal * now.scanlinesPerVerticalCount)
            && (vertical < now.verticalTotal && column < now.horizontalTotal ==>
                  Reprogrammed(was, s, now).dot == line * now.horizontalTotal + column)
  {
    var oldLine := vertical * was.scanlinesPerVerticalCount + subline;
    var across := count * was.dotsPerHorizontalCount + within;
    var column := count * now.dotsPerHorizontalCount + Min(within, now.dotsPerHorizontalCount - 1);
    MulNonNegative(vertical, was.scanlinesPerVerticalCount);
    MulNonNegative(count, was.dotsPerHorizontalCount);
    MulNonNegative(count, now.dotsPerHorizontalCount);
    DivModUnique(s.dot, was.horizontalTotal, oldLine, across);
    DivModUnique(oldLine, was.scanlinesPerVerticalCount, vertical, subline);
    DivModUnique(across, was.dotsPerHorizontalCount, count, within);
    var line := RetimedLine(oldLine, was.scanlinesPerVerticalCount, now.scanlinesPerVerticalCount);
    if vertical < now.verticalTotal && column < now.horizontalTotal {
      LineFits(vertical, subline, was.scanlinesPerVerticalCount, now.scanlinesPerVerticalCount, now.verticalTotal);
      DotFits(line, column, now.horizontalTotal, now.verticalTotal * now.scanlinesPerVerticalCount);
      ModSmall(column, now.horizontalTotal);
      FrameOrder(now);
      ModSmall(line * now.horizontalTotal + column, now.FrameDots());
    }
  }

  /** The fraction of a dot already travelled is kept, rounded down to the new clock's units. */
  lemma FractionKept(was: Timing, s: Beam, now: Timing)
    requires was.Valid() && now.Valid() && s.Valid(was.Speed()) && !was.resetActive && !now.resetActive && was != now
    ensures var after := Reprogrammed(was, s, now).remainder;
            var from, into := NANOS * was.dotClockDivisor, NANOS * now.dotClockDivisor;
            after * from <= s.remainder * into < (after + 1) * from
  {
    MulSuccessor(Reprogrammed(was, s, now).remainder, was.PhaseDenominator());
  }

  lemma LineFits(vertical: nat, subline: nat, was: nat, now: nat, total: nat)
    requires subline < was && vertical < total && now > 0
    ensures subline * now >= 0 && 0 <= vertical * now + subline * now / was < total * now
  {
    MulMonotone(subline + 1, was, now);
    MulSuccessor(subline, now);
    MulNonNegative(subline, now);
    MulNonNegative(vertical, now);
    QuotientBelow(subline * now, was, now);
    MulMonotone(vertical + 1, total, now);
    MulSuccessor(vertical, now);
  }

  lemma QuotientBelow(x: nat, d: nat, bound: nat)
    requires d > 0 && x < d * bound
    ensures x / d < bound
  {
    MulMonotone(bound, x / d, d);
    assert x == x / d * d + x % d;
  }

  lemma DotFits(line: nat, column: nat, width: nat, lines: nat)
    requires line < lines && column < width
    ensures 0 <= line * width && line * width + column < lines * width
  {
    MulMonotone(line + 1, lines, width);
    MulSuccessor(line, width);
    MulNonNegative(line, width);
  }

  lemma SameGrid(dot: nat, width: nat, lines: nat, cell: nat, frame: nat)
    requires width > 0 && lines > 0 && cell > 0 && dot < frame
    ensures var line, across := dot / width, dot % width;
            && RetimedLine(line, lines, lines) == line && RetimedColumn(across, cell, cell) == across
            && (line * width + across % width) % frame == dot
  {
    var line, across := dot / width, dot % width;
    Rebuilt(line, lines);
    ProductQuotient(line % lines, lines);
    Rebuilt(across, cell);
    Rebuilt(dot, width);
    ModSmall(across, width);
    ModSmall(dot, frame);
  }

  lemma Rebuilt(x: nat, d: nat)
    requires d > 0
    ensures x / d * d + x % d == x && x % d <= d - 1
  {}

  lemma ProductQuotient(x: nat, d: nat)
    requires d > 0
    ensures x * d / d == x
  {
    DivModUnique(x * d, d, x, 0);
  }

  // ----- dates and delays as the device holds them

  // The date reported for the latest retrace; the time since it is kept in 64 bits of nanoseconds.
  ghost function Reported(r: Rate, s: Beam, now: nat): Option<int>
    requires r.Valid() && s.Valid(r)
  {
    var elapsed := if now < s.updated then 0 else now - s.updated;
    if Frames(r, s, elapsed) == 0 then None
    else Some(now - Whole(r.oscillator, PastBoundary(r, s, elapsed)) % TWO_64)
  }

  /** The reported date is the retrace's own exactly while the time since it fits 64 bits. */
  lemma ReportedExactly(r: Rate, s: Beam, now: nat)
    requires r.Valid() && s.Valid(r) && s.updated <= now
    ensures Reported(r, s, now) == Completed(r, s, now) <==>
              Frames(r, s, now - s.updated) == 0
              || PastBoundary(r, s, now - s.updated) < TWO_64 * r.oscillator
  {
    if Frames(r, s, now - s.updated) != 0 {
      var past := PastBoundary(r, s, now - s.updated);
      WholeCompare(r.oscillator, past, TWO_64);
    }
  }

  /** In a frame of less than 2^64 - 1 nanoseconds nothing is cut off: reports and deadlines are exact. */
  lemma ShortFramesExact(r: Rate, s: Beam, now: nat)
    requires r.Valid() && s.Valid(r) && r.boundary.Some? && s.updated <= now
    requires r.frame * r.denominator < r.oscillator * (TWO_64 - 1)
    ensures Reported(r, s, now) == Completed(r, s, now) && RetraceDelay(r, s) % TWO_64 == RetraceDelay(r, s)
  {
    PastFits(r, s, now - s.updated);
    DelayFits(r, s);
  }

  /** With no oscillator nothing moves and nothing is reported; a clock behind the last update counts as none. */
  lemma StoppedHolds(t: Timing, s: Beam, now: nat)
    requires t.Valid() && t.Speed().Valid() && s.Valid(t.Speed())
    ensures t.oscillatorHz == 0 ==>
              Advanced(t.Speed(), s, now) == s.(updated := now) && Reported(t.Speed(), s, now) == None
    ensures now < s.updated ==> Dots(t.Speed(), s, 0) == 0 && Advanced(t.Speed(), s, now) == s.(updated := now)
  {
    var r := t.Speed();
    MulNonNegative(0, r.oscillator);
    assert Numerator(r, s, 0) == s.remainder;
    WholeSmall(r.denominator, s.remainder);
    assert r.boundary.Some? ==> Whole(r.frame, SinceBoundary(r, s)) == 0;
  }

  // ----- the device's raster

  class Raster {
    var timing: Timing
    var updated: nat
    var dot: nat
    var dotRemainder: nat
    var retraceCount: nat

    function Value(): Beam
      reads this
    {
      Beam(updated, dot, dotRemainder, retraceCount)
    }

    ghost predicate Valid()
      reads this
    {
      timing.Valid() && timing.Speed().Valid() && Value().Valid(timing.Speed())
    }

    constructor (now: nat, timing: Timing)
      requires timing.Valid()
      ensures Valid() && this.timing == timing && Value() == Beam(now, 0, 0, 0)
    {
      TimingSpeed(timing);
      this.timing, updated, dot, dotRemainder, retraceCount := timing, now, 0, 0, 0;
    }

    // Whole dot clocks; the fraction is carried forward.
    method ElapsedDots(elapsed: nat) returns (dots: nat)
      requires Valid()
      modifies this`dotRemainder
      ensures dots == Dots(timing.Speed(), old(Value()), elapsed)
      ensures dotRemainder == Part(timing.PhaseDenominator(), Numerator(timing.Speed(), old(Value()), elapsed))
    {
      MulNonNegative(elapsed, timing.oscillatorHz);
      var numerator := elapsed * timing.oscillatorHz + dotRemainder;
      QuotientAndRemainder(timing.PhaseDenominator(), numerator);
      dotRemainder := numerator % timing.PhaseDenominator();
      dots := numerator / timing.PhaseDenominator();
    }

    // Rounded down: dates a boundary that has already been passed.
    method ElapsedForDots(dots: nat) returns (elapsed: nat)
      requires timing.oscillatorHz > 0
      ensures dots * timing.PhaseDenominator() >= 0
      ensures elapsed == Whole(timing.oscillatorHz, dots * timing.PhaseDenominator() + dotRemainder) % TWO_64
    {
      MulNonNegative(dots, timing.PhaseDenominator());
      var numerator := dots * timing.PhaseDenominator() + dotRemainder;
      QuotientAndRemainder(timing.oscillatorHz, numerator);
      elapsed := numerator / timing.oscillatorHz % TWO_64;
    }

    // Crossings of the boundary by some dots, and the date of the latest one.
    method CrossBoundary(now: nat, elapsed: nat, dots: nat, boundary: nat, ghost start: Beam)
      returns (completed: Option<nat>)
      requires timing.Valid() && start.Valid(timing.Speed())
      requires timing.RetraceDot() == Some(boundary) && dot == start.dot && retraceCount == start.retraceCount
      requires timing.Speed().Valid() && elapsed <= now
      requires dots == Dots(timing.Speed(), start, elapsed)
      requires dotRemainder == Part(timing.PhaseDenominator(), Numerator(timing.Speed(), start, elapsed))
      modifies this`retraceCount
      ensures retraceCount == start.retraceCount + Frames(timing.Speed(), start, elapsed)
      ensures if Frames(timing.Speed(), start, elapsed) == 0 then completed == None
              else completed == Some(now - Whole(timing.oscillatorHz, PastBoundary(timing.Speed(), start, elapsed))
                                           % TWO_64)
    {
      ghost var r := timing.Speed();
      var frame := timing.FrameDots();
      QuotientAndRemainder(frame, dot + frame - boundary);
      var since := (dot + frame - boundary) % frame;
      var advanced := since + dots;
      QuotientAndRemainder(frame, advanced);
      var frames := advanced / frame;
      if frames == 0 {
        return None;
      }
      retraceCount := retraceCount + frames;
      DateInside(r, start, elapsed);
      var late := ElapsedForDots(advanced % frame);
      completed := Some(now - late);
    }

    /** Brings the counters to `now` and reports the latest retrace passed on the way. */
    method UpdateTo(now: nat) returns (completed: Option<nat>)
      requires Valid()
      requires Advanced(timing.Speed(), Value(), now).retraceCount < TWO_64
      modifies this
      ensures Valid() && timing == old(timing)
      ensures Value() == Advanced(timing.Speed(), old(Value()), now)
      ensures completed == Reported(timing.Speed(), old(Value()), now)
    {
      ghost var start := Value();
      var elapsed := if now < updated then 0 else now - updated;
      updated := now;
      completed := None;
      if timing.oscillatorHz == 0 {
        return;
      }
      var dots := ElapsedDots(elapsed);
      var boundary := timing.RetraceDot();
      if boundary.Some? {
        completed := CrossBoundary(now, elapsed, dots, boundary.value, start);
      }
      QuotientAndRemainder(timing.FrameDots(), dot + dots);
      dot := (dot + dots) % timing.FrameDots();
    }

    /** Reports whether the running activity must replace its deadline. */
    method SetTiming(next: Timing) returns (changed: bool)
      requires Valid() && next.Valid()
      modifies this
      ensures Valid() && timing == next && changed == (old(timing) != next)
      ensures Value() == Reprogrammed(old(timing), old(Value()), next)
    {
      SetTimingKeepsBounds(timing, Value(), next);
      TimingSpeed(next);
      if timing == next {
        return false;
      }
      if timing.resetActive || next.resetActive {
        dot, dotRemainder := 0, 0;
      } else {
        dot, dotRemainder := Retimed(timing, dot, next), Rescaled(timing, dotRemainder, next);
      }
      timing := next;
      return true;
    }

    /** Begins a new display mode; the lifetime retrace count goes on. */
    method Restart(next: Timing)
      requires next.Valid()
      modifies this
      ensures Valid() && timing == next && Value() == old(Value()).(dot := 0, remainder := 0)
    {
      TimingSpeed(next);
      timing, dot, dotRemainder := next, 0, 0;
    }

    // Rounded up, so a deadline cannot precede its boundary.
    method RemainingForDots(dots: nat) returns (remaining: nat)
      requires timing.oscillatorHz > 0 && dots > 0 && dotRemainder < timing.PhaseDenominator()
      ensures dots * timing.PhaseDenominator() - dotRemainder > 0
      ensures remaining == Whole(timing.oscillatorHz, dots * timing.PhaseDenominator() - dotRemainder
                                                      + timing.oscillatorHz - 1) % TWO_64
    {
      MulMonotone(1, dots, timing.PhaseDenominator());
      var numerator := dots * timing.PhaseDenominator() - dotRemainder;
      QuotientAndRemainder(timing.oscillatorHz, numerator + timing.oscillatorHz - 1);
      remaining := (numerator + timing.oscillatorHz - 1) / timing.oscillatorHz % TWO_64;
    }

    /** The first nanosecond at which the retrace boundary is crossed, unless unrepresentable. */
    method NextRetraceAt() returns (deadline: Option<nat>)
      requires Valid()
      ensures if timing.RetraceDot().None? then deadline == None
              else var at := updated + RetraceDelay(timing.Speed(), Value()) % TWO_64;
                   deadline == if at <= MAX_DURATION then Some(at) else None
    {
      var boundary := timing.RetraceDot();
      if boundary.None? {
        return None;
      }
      var total := timing.FrameDots();
      QuotientAndRemainder(total, boundary.value + total - dot);
      NeededForms(timing.Speed(), Value());
      var dots := (boundary.value + total - dot) % total;
      if dots == 0 {
        dots := total;
      }
      var remaining := RemainingForDots(dots);
      deadline := if updated + remaining <= MAX_DURATION then Some(updated + remaining) else None;
    }
  }

  lemma PastFits(r: Rate, s: Beam, elapsed: nat)
    requires r.Valid() && s.Valid(r) && r.boundary.Some?
    requires r.frame * r.denominator < r.oscillator * (TWO_64 - 1)
    ensures Whole(r.oscillator, PastBoundary(r, s, elapsed)) < TWO_64
  {
    PastWithinFrame(r, s, elapsed);
    WholeCompare(r.oscillator, PastBoundary(r, s, elapsed), TWO_64 - 1);
  }

  lemma DelayFits(r: Rate, s: Beam)
    requires r.Valid() && s.Valid(r) && r.boundary.Some?
    requires r.frame * r.denominator < r.oscillator * (TWO_64 - 1)
    ensures RetraceDelay(r, s) < TWO_64
  {
    MulMonotone(1, Needed(r, s), r.denominator);
    MulMonotone(Needed(r, s), r.frame, r.denominator);
    CeilingCompare(r.oscillator, Needed(r, s) * r.denominator - s.remainder, TWO_64 - 1);
  }
}

/** Building the operand view in place: producers, use counts and the coverage walks. */
module OperandViews {
  import opened Wrappers
  import opened Operands

  // ----- producers and uses

  method FindProducers(body: Body) returns (producer: seq<Option<nat>>)
    requires body.Valid()
    ensures IsProducer(body, producer)
  {
    producer := seq(|body.definitions|, _ => None);
    for p := 0 to |body.inputs|
      invariant |producer| == |body.definitions|
      invariant forall v | 0 <= v < |producer| && producer[v].Some? ::
                  producer[v].value < p && v in body.results[producer[v].value]
      invariant forall q, v | 0 <= q < p && v in body.results[q] :: v < |producer| && producer[v] == Some(q)
    {
      assert body.Known(body.results[p]);
      for k := 0 to |body.results[p]|
        invariant |producer| == |body.definitions|
        invariant forall v | 0 <= v < |producer| && producer[v].Some? ::
                    producer[v].value <= p && v in body.results[producer[v].value]
        invariant forall q, v | 0 <= q < p && v in body.results[q] :: v < |producer| && producer[v] == Some(q)
        invariant forall j | 0 <= j < k :: body.results[p][j] < |producer| && producer[body.results[p][j]] == Some(p)
      {
        var result := body.results[p][k];
        assert result in body.results[p];
        producer := producer[result := Some(p)];
      }
    }
  }

  method AddUses(uses: seq<nat>, values: seq<Value>) returns (counted: seq<nat>)
    requires forall v <- values :: v < |uses|
    ensures |counted| == |uses|
    ensures forall v | 0 <= v < |uses| :: counted[v] == uses[v] + multiset(values)[v]
  {
    counted := uses;
    for k := 0 to |values|
      invariant |counted| == |uses|
      invariant forall v | 0 <= v < |uses| :: counted[v] == uses[v] + multiset(values[..k])[v]
    {
      var input := values[k];
      assert input in values;
      assert values[..k + 1] == values[..k] + [input];
      counted := counted[input := counted[input] + 1];
    }
    assert values[..|values|] == values;
  }

  method CountUses(body: Body) returns (uses: seq<nat>)
    requires body.Valid()
    ensures CountsUses(body, uses)
  {
    uses := body.usedElsewhere;
    for p := 0 to |body.inputs|
      invariant |uses| == |body.definitions|
      invariant forall v | 0 <= v < |uses| ::
                  uses[v] == body.usedElsewhere[v] + multiset(body.EarlierInputs(p))[v]
    {
      assert body.EarlierInputs(p + 1) == body.EarlierInputs(p) + body.inputs[p];
      uses := AddUses(uses, body.inputs[p]);
    }
    uses := AddUses(uses, body.exit);
  }

  // ----- what the walks have done so far

  /** Every use is seen, pending, or an input of an item not yet opened; decisions agree with the
      flags; and only values with a single use were taken. */
  ghost predicate Consistent(body: Body, view: View, walk: Walk, decided: seq<Decision>, seen: multiset<Value>) {
    && Shaped(body, view) && walk.cursor <= |body.inputs|
    && seen + multiset(walk.pending) + multiset(body.EarlierInputs(walk.cursor)) == multiset(body.AllUses())
    && Follows(view, decided)
    && (forall d <- decided :: d.value in seen)
    && forall p | 0 <= p < |view.inline| && view.inline[p] ::
         p >= walk.cursor && TakenOnce(view, body.results[p][0], seen)
  }

  ghost predicate TakenOnce(view: View, v: Value, seen: multiset<Value>) {
    v in seen && v < |view.uses| && view.uses[v] == 1
  }

  // The top of the stack has at least one use in the block, and is a value of the function.
  lemma TopIsUse(body: Body, view: View, walk: Walk, decided: seq<Decision>, seen: multiset<Value>)
    requires Consistent(body, view, walk, decided, seen) && walk.pending != []
    ensures var v := walk.pending[|walk.pending| - 1];
            v < |view.uses| && seen[v] + 1 <= view.uses[v]
  {
    var v := walk.pending[|walk.pending| - 1];
    assert multiset(walk.pending)[v] >= 1;
    assert multiset(body.AllUses())[v] >= seen[v] + 1;
    UsesInRange(body, v);
  }

  lemma {:induction false} EarlierInRange(body: Body, p: nat, v: Value)
    requires body.Valid() && p <= |body.inputs| && v in body.EarlierInputs(p)
    ensures v < |body.definitions|
    decreases p
  {
    if p != 0 && v !in body.inputs[p - 1] {
      EarlierInRange(body, p - 1, v);
    }
  }

  lemma UsesInRange(body: Body, v: Value)
    requires body.Valid() && multiset(body.AllUses())[v] >= 1
    ensures v < |body.definitions|
  {
    assert v in body.AllUses();
    if v !in body.exit {
      EarlierInRange(body, |body.inputs|, v);
    }
  }

  // A value whose producer was taken has had its only use, so it cannot come up again.
  lemma TopNotTaken(body: Body, view: View, walk: Walk, decided: seq<Decision>, seen: multiset<Value>)
    requires Consistent(body, view, walk, decided, seen) && walk.pending != []
    ensures !Inlined(view, walk.pending[|walk.pending| - 1])
    ensures var v := walk.pending[|walk.pending| - 1];
            v < |view.uses| && (v !in seen || view.uses[v] != 1)
  {
    InlinedTaken(body, view, walk, decided, seen);
    TopIsUse(body, view, walk, decided, seen);
  }

  lemma InlinedTaken(body: Body, view: View, walk: Walk, decided: seq<Decision>, seen: multiset<Value>)
    requires Consistent(body, view, walk, decided, seen)
    ensures forall v: Value | Inlined(view, v) :: TakenOnce(view, v, seen)
  {
    forall v: Value | Inlined(view, v) ensures TakenOnce(view, v, seen) {
      assert v in body.results[view.producer[v].value];
    }
  }

  lemma RejectStep(body: Body, view: View, walk: Walk, decided: seq<Decision>, seen: multiset<Value>)
    requires Consistent(body, view, walk, decided, seen) && walk.pending != []
    ensures var v := walk.pending[|walk.pending| - 1];
            Consistent(body, view, Walk(walk.pending[..|walk.pending| - 1], walk.cursor),
                       decided + [Decision(v, false)], seen + multiset{v})
  {
    var v, rest := walk.pending[|walk.pending| - 1], walk.pending[..|walk.pending| - 1];
    TopNotTaken(body, view, walk, decided, seen);
    FollowsReject(view, decided, v);
    hide Shaped, Follows, Inlined;
    assert walk.pending == rest + [v];
    assert seen + multiset{v} + multiset(rest) == seen + multiset(walk.pending);
  }

  lemma FollowsReject(view: View, decided: seq<Decision>, v: Value)
    requires Follows(view, decided) && !Inlined(view, v)
    ensures Follows(view, decided + [Decision(v, false)])
  {}

  lemma AcceptStep(body: Body, view: View, walk: Walk, decided: seq<Decision>, seen: multiset<Value>)
    requires Consistent(body, view, walk, decided, seen) && walk.pending != [] && walk.cursor > 0
    requires var v := walk.pending[|walk.pending| - 1];
             && v < |view.producer| && view.producer[v] == Some(walk.cursor - 1)
             && view.uses[v] == 1 && |body.results[walk.cursor - 1]| == 1
    ensures var v := walk.pending[|walk.pending| - 1]; var p := walk.cursor - 1;
            Consistent(body, view.(inline := view.inline[p := true]),
                       Walk(walk.pending[..|walk.pending| - 1] + body.inputs[p], p),
                       decided + [Decision(v, true)], seen + multiset{v})
  {
    hide Follows, TakenOnce, IsProducer, CountsUses, Body.AllUses, Body.EarlierInputs;
    var v, p := walk.pending[|walk.pending| - 1], walk.cursor - 1;
    var rest := walk.pending[..|walk.pending| - 1];
    OnlyResult(body, view, v, p);
    TopNotTaken(body, view, walk, decided, seen);
    AcceptFollows(body, view, decided, v, p);
    assert walk.pending == rest + [v];
    AcceptBags(body, rest, v, p, seen);
    AcceptTaken(body, view, walk.cursor, seen, v);
  }

  // Accepting an item moves its inputs from the uses to come to the pending ones.
  lemma AcceptBags(body: Body, rest: seq<Value>, v: Value, p: nat, seen: multiset<Value>)
    requires p < |body.inputs|
    requires seen + multiset(rest + [v]) + multiset(body.EarlierInputs(p + 1)) == multiset(body.AllUses())
    ensures seen + multiset{v} + multiset(rest + body.inputs[p]) + multiset(body.EarlierInputs(p))
            == multiset(body.AllUses())
  {
    OpenInputs(seen, rest, v, body.EarlierInputs(p), body.inputs[p]);
  }

  lemma OnlyResult(body: Body, view: View, v: Value, p: nat)
    requires Shaped(body, view) && v < |view.producer| && view.producer[v] == Some(p)
    requires p < |body.results| && |body.results[p]| == 1
    ensures body.results[p] == [v]
  {
    assert v in body.results[p];
  }

  lemma OpenInputs(seen: multiset<Value>, rest: seq<Value>, v: Value, earlier: seq<Value>, inputs: seq<Value>)
    ensures seen + multiset(rest + [v]) + multiset(earlier + inputs)
            == seen + multiset{v} + multiset(rest + inputs) + multiset(earlier)
  {}

  lemma AcceptTaken(body: Body, view: View, cursor: nat, seen: multiset<Value>, v: Value)
    requires Shaped(body, view) && 0 < cursor <= |body.inputs| && body.results[cursor - 1] == [v]
    requires v < |view.uses| && view.uses[v] == 1
    requires forall p | 0 <= p < |view.inline| && view.inline[p] ::
               p >= cursor && TakenOnce(view, body.results[p][0], seen)
    ensures var after := view.(inline := view.inline[cursor - 1 := true]);
            && Shaped(body, after)
            && forall p | 0 <= p < |after.inline| && after.inline[p] ::
                 p >= cursor - 1 && TakenOnce(after, body.results[p][0], seen + multiset{v})
  {
    var after := view.(inline := view.inline[cursor - 1 := true]);
    forall p | 0 <= p < |after.inline| && after.inline[p]
      ensures p >= cursor - 1 && TakenOnce(after, body.results[p][0], seen + multiset{v})
    {
      if p != cursor - 1 {
        assert view.inline[p];
        assert TakenOnce(view, body.results[p][0], seen);
      }
    }
  }

  lemma AcceptFollows(body: Body, view: View, decided: seq<Decision>, v: Value, p: nat)
    requires Shaped(body, view) && Follows(view, decided) && p < |body.results| && body.results[p] == [v]
    requires forall d <- decided :: d.value != v
    ensures Follows(view.(inline := view.inline[p := true]), decided + [Decision(v, true)])
  {
    assert v in body.results[p];
    var after := view.(inline := view.inline[p := true]);
    forall d | d in decided ensures d.taken <==> Inlined(after, d.value) {
      if d.value < |view.producer| && view.producer[d.value].Some? {
        assert d.value in body.results[view.producer[d.value].value];
      }
    }
  }

  // ----- one walk

  // Flags only appear from the cursor up to where the walk started.
  ghost predicate TookRun(flags: seq<bool>, inline: seq<bool>, cursor: nat, start: nat) {
    && |inline| == |flags| && cursor <= start <= |flags|
    && (forall p | 0 <= p < cursor :: inline[p] == flags[p])
    && (forall p | start <= p < |flags| :: inline[p] == flags[p])
    && (forall p | cursor <= p < start :: inline[p])
  }

  ghost predicate Walking(body: Body, view: View, walk: Walk, decided: seq<Decision>, seen: multiset<Value>,
                          start: Walk, trace: seq<Decision>)
  {
    && Consistent(body, view, walk, decided + trace, seen)
    && After(body, view.producer, start, trace) == Some(walk)
  }

  lemma WalkOn(body: Body, view: View, walk: Walk, decided: seq<Decision>, seen: multiset<Value>,
               start: Walk, trace: seq<Decision>)
    requires Walking(body, view, walk, decided, seen, start, trace) && walk.pending != []
    ensures |view.inline| == |body.inputs| == |body.results| && walk.cursor <= |body.inputs|
    ensures var rest, v := walk.pending[..|walk.pending| - 1], walk.pending[|walk.pending| - 1];
            && v < |view.producer| == |view.uses|
            && Walking(body, view, Walk(rest, walk.cursor), decided, seen + multiset{v}, start,
                       trace + [Decision(v, false)])
            && (walk.cursor > 0 && view.producer[v] == Some(walk.cursor - 1) && view.uses[v] == 1
                && |body.results[walk.cursor - 1]| == 1 ==>
                  Walking(body, view.(inline := view.inline[walk.cursor - 1 := true]),
                          Walk(rest + body.inputs[walk.cursor - 1], walk.cursor - 1),
                          decided, seen + multiset{v}, start, trace + [Decision(v, true)]))
  {
    hide Shaped, Follows, After, Consistent;
    var v := walk.pending[|walk.pending| - 1];
    WalkOnInRange(body, view, walk, decided + trace, seen);
    WalkOnReject(body, view, walk, decided, seen, start, trace);
    if walk.cursor > 0 && view.producer[v] == Some(walk.cursor - 1) && view.uses[v] == 1
       && |body.results[walk.cursor - 1]| == 1 {
      WalkOnAccept(body, view, walk, decided, seen, start, trace);
    }
  }

  lemma WalkOnInRange(body: Body, view: View, walk: Walk, decided: seq<Decision>, seen: multiset<Value>)
    requires Consistent(body, view, walk, decided, seen) && walk.pending != []
    ensures |view.inline| == |body.inputs| == |body.results| && walk.cursor <= |body.inputs|
    ensures walk.pending[|walk.pending| - 1] < |view.producer| == |view.uses|
  {
    TopIsUse(body, view, walk, decided, seen);
  }

  lemma WalkOnReject(body: Body, view: View, walk: Walk, decided: seq<Decision>, seen: multiset<Value>,
                     start: Walk, trace: seq<Decision>)
    requires Walking(body, view, walk, decided, seen, start, trace) && walk.pending != []
    requires walk.cursor <= |body.inputs|
    ensures var rest, v := walk.pending[..|walk.pending| - 1], walk.pending[|walk.pending| - 1];
            Walking(body, view, Walk(rest, walk.cursor), decided, seen + multiset{v}, start,
                    trace + [Decision(v, false)])
  {
    hide Consistent;
    var d := Decision(walk.pending[|walk.pending| - 1], false);
    RejectStep(body, view, walk, decided + trace, seen);
    AfterSnoc(body, view.producer, start, trace, d);
    assert decided + trace + [d] == decided + (trace + [d]);
  }

  lemma WalkOnAccept(body: Body, view: View, walk: Walk, decided: seq<Decision>, seen: multiset<Value>,
                     start: Walk, trace: seq<Decision>)
    requires Walking(body, view, walk, decided, seen, start, trace) && walk.pending != []
    requires 0 < walk.cursor <= |body.inputs| == |view.inline| == |body.results|
    requires var v := walk.pending[|walk.pending| - 1];
             && v < |view.producer| == |view.uses| && view.producer[v] == Some(walk.cursor - 1)
             && view.uses[v] == 1 && |body.results[walk.cursor - 1]| == 1
    ensures var rest, v := walk.pending[..|walk.pending| - 1], walk.pending[|walk.pending| - 1];
            Walking(body, view.(inline := view.inline[walk.cursor - 1 := true]),
                    Walk(rest + body.inputs[walk.cursor - 1], walk.cursor - 1),
                    decided, seen + multiset{v}, start, trace + [Decision(v, true)])
  {
    hide Consistent;
    var d := Decision(walk.pending[|walk.pending| - 1], true);
    AcceptStep(body, view, walk, decided + trace, seen);
    AfterSnoc(body, view.producer, start, trace, d);
    assert decided + trace + [d] == decided + (trace + [d]);
  }

  /** Where coverage ends: the last operand goes first, and its producer is taken when it is the item right
      before the cursor, has no other result, and this is its only use; then its own operands go next. */
  ghost function Covered(
      body: Body, producer: seq<Option<nat>>, uses: seq<nat>, pending: seq<Value>, cursor: nat): (end: nat)
    ensures end <= cursor
    decreases cursor, |pending|
  {
    if pending == [] then cursor
    else
      var v, rest := pending[|pending| - 1], pending[..|pending| - 1];
      if 0 < cursor <= |body.inputs| && cursor <= |body.results| && v < |producer| && producer[v] == Some(cursor - 1)
         && v < |uses| && uses[v] == 1 && |body.results[cursor - 1]| == 1 then
        Covered(body, producer, uses, rest + body.inputs[cursor - 1], cursor - 1)
      else Covered(body, producer, uses, rest, cursor)
  }

  /** Takes the run of items right before the cursor that the operands can keep on the stack. */
  method Cover(body: Body, producer: seq<Option<nat>>, uses: seq<nat>, flags: seq<bool>, start: nat,
               operands: seq<Value>, ghost decided: seq<Decision>, ghost seenBefore: multiset<Value>)
    returns (inline: seq<bool>, cursor: nat, ghost trace: seq<Decision>, ghost seen: multiset<Value>)
    requires Consistent(body, View(producer, flags, uses), Walk(operands, start), decided, seenBefore)
    ensures Walking(body, View(producer, inline, uses), Walk([], cursor), decided, seen, Walk(operands, start), trace)
    ensures TookRun(flags, inline, cursor, start)
    ensures cursor == Covered(body, producer, uses, operands, start)
  {
    hide Consistent, After;
    inline, cursor := flags, start;
    var pending := operands;
    trace, seen := [], seenBefore;
    WalkStart(body, View(producer, flags, uses), Walk(operands, start), decided, seen);
    while pending != []
      invariant Walking(body, View(producer, inline, uses), Walk(pending, cursor), decided, seen,
                        Walk(operands, start), trace)
      invariant TookRun(flags, inline, cursor, start)
      invariant Covered(body, producer, uses, pending, cursor) == Covered(body, producer, uses, operands, start)
      decreases cursor, |pending|
    {
      var input := pending[|pending| - 1];
      WalkOn(body, View(producer, inline, uses), Walk(pending, cursor), decided, seen, Walk(operands, start), trace);
      var taken := cursor != 0 && producer[input] == Some(cursor - 1) && uses[input] == 1
                   && |body.results[cursor - 1]| == 1;
      pending := pending[..|pending| - 1];
      if taken {
        cursor := cursor - 1;
        inline := inline[cursor := true];
        pending := pending + body.inputs[cursor];
      }
      trace, seen := trace + [Decision(input, taken)], seen + multiset{input};
    }
  }

  lemma WalkStart(body: Body, view: View, start: Walk, decided: seq<Decision>, seen: multiset<Value>)
    requires Consistent(body, view, start, decided, seen)
    ensures Walking(body, view, start, decided, seen, start, [])
    ensures start.cursor <= |view.inline|
  {
    assert decided + [] == decided;
  }

  // ----- all walks of a block

  // The record of one finished walk, whose run begins at `low` or right behind another consumer.
  ghost predicate Finished(body: Body, view: View, decided: seq<Decision>, p: nat, trace: seq<Decision>,
                           low: nat, consumers: set<nat>)
    requires p <= |body.inputs|
  {
    && (forall d <- trace :: d in decided)
    && var end := After(body, view.producer, Walk(body.Consumed(p), p), trace);
    && end.Some? && end.value.pending == []
    && low <= end.value.cursor <= p
    && (end.value.cursor == low || end.value.cursor - 1 in consumers)
  }

  ghost predicate Recorded(body: Body, view: View, low: nat, decided: seq<Decision>, traces: map<nat, seq<Decision>>) {
    && low <= |body.inputs| == |view.inline|
    && (forall p <- traces :: low <= p <= |body.inputs| && (p < |body.inputs| ==> !view.inline[p])
                              && Finished(body, view, decided, p, traces[p], low, traces.Keys))
    && (forall p | low <= p <= |body.inputs| :: p in traces || (p < |body.inputs| && view.inline[p]))
  }

  // What is recorded stays recorded when a walk below has finished.
  lemma FinishedStays(body: Body, view: View, after: View, decided: seq<Decision>, more: seq<Decision>, p: nat,
                      trace: seq<Decision>, low: nat, lower: nat, consumers: set<nat>)
    requires p <= |body.inputs| && Finished(body, view, decided, p, trace, low, consumers)
    requires after.producer == view.producer && 0 < low && lower <= low
    ensures Finished(body, after, decided + more, p, trace, lower, consumers + {low - 1})
  {}

  // A further walk extends the record downwards.
  lemma RecordWalk(body: Body, view: View, low: nat, decided: seq<Decision>, traces: map<nat, seq<Decision>>,
                   inline: seq<bool>, cursor: nat, trace: seq<Decision>)
    requires Recorded(body, view, low, decided, traces) && low > 0 && !view.inline[low - 1]
    requires TookRun(view.inline, inline, cursor, low - 1)
    requires After(body, view.producer, Walk(body.Consumed(low - 1), low - 1), trace) == Some(Walk([], cursor))
    ensures Recorded(body, view.(inline := inline), cursor, decided + trace, traces[low - 1 := trace])
  {
    hide Finished, After;
    var more, after := traces[low - 1 := trace], view.(inline := inline);
    assert more.Keys == traces.Keys + {low - 1};
    forall p | p in more
      ensures cursor <= p <= |body.inputs| && (p < |body.inputs| ==> !inline[p])
              && Finished(body, after, decided + trace, p, more[p], cursor, more.Keys)
    {
      if p == low - 1 {
        FinishedHere(body, after, decided, p, trace, cursor, more.Keys);
      } else {
        FinishedStays(body, view, after, decided, trace, p, traces[p], low, cursor, traces.Keys);
      }
    }
  }

  lemma FinishedHere(body: Body, view: View, decided: seq<Decision>, p: nat, trace: seq<Decision>, cursor: nat,
                     consumers: set<nat>)
    requires p <= |body.inputs| && cursor <= p
    requires After(body, view.producer, Walk(body.Consumed(p), p), trace) == Some(Walk([], cursor))
    ensures Finished(body, view, decided + trace, p, trace, cursor, consumers)
  {}

  lemma RunStartIs(inline: seq<bool>, p: nat, start: nat)
    requires start <= p <= |inline| && (forall q | start <= q < p :: inline[q])
    requires start > 0 ==> !inline[start - 1]
    ensures RunStart(inline, p) == start
    decreases p
  {
    if p > start {
      RunStartIs(inline, p - 1, start);
    }
  }

  // A finished record of a whole block is the order theorem for it.
  lemma RecordOrdered(body: Body, view: View, decided: seq<Decision>, traces: map<nat, seq<Decision>>)
    requires Shaped(body, view) && Follows(view, decided) && Recorded(body, view, 0, decided, traces)
    ensures Ordered(body, view)
  {
    forall p | 0 <= p <= |body.inputs| && (p == |body.inputs| || !view.inline[p])
      ensures Executed(body, view, body.Consumed(p)) == Range(RunStart(view.inline, p), p)
    {
      assert p in traces;
      ConsumerOrdered(body, view, decided, traces, p);
    }
  }

  lemma ConsumerOrdered(body: Body, view: View, decided: seq<Decision>, traces: map<nat, seq<Decision>>, p: nat)
    requires Shaped(body, view) && Follows(view, decided) && Recorded(body, view, 0, decided, traces) && p in traces
    ensures p <= |view.inline| && Executed(body, view, body.Consumed(p)) == Range(RunStart(view.inline, p), p)
  {
    hide Shaped, Executed, After;
    var end := FinishedOrder(body, view, decided, p, traces[p], traces.Keys);
    ExecutedInlined(body, view, body.Consumed(p));
    forall q | end <= q < p ensures view.inline[q] {
      assert Range(end, p)[q - end] == q;
    }
    RunStartIs(view.inline, p, end);
  }

  lemma FinishedOrder(body: Body, view: View, decided: seq<Decision>, p: nat, trace: seq<Decision>, consumers: set<nat>)
    returns (end: nat)
    requires Shaped(body, view) && Follows(view, decided) && p <= |body.inputs|
    requires Finished(body, view, decided, p, trace, 0, consumers)
    ensures end <= p && (end == 0 || end - 1 in consumers)
    ensures Executed(body, view, body.Consumed(p)) == Range(end, p)
  {
    hide Shaped;
    var start := Walk(body.Consumed(p), p);
    assert Follows(view, trace);
    WalkOrder(body, view, start, trace);
    end := After(body, view.producer, start, trace).value.cursor;
  }

  lemma OpenExit(body: Body, view: View)
    requires Shaped(body, view) && forall p | 0 <= p < |view.inline| :: !view.inline[p]
    ensures Consistent(body, view, Walk(body.exit, |body.inputs|), [], multiset{})
  {}

  // The next consumer's inputs become pending.
  lemma OpenItem(body: Body, view: View, p: nat, decided: seq<Decision>, seen: multiset<Value>)
    requires Consistent(body, view, Walk([], p + 1), decided, seen)
    ensures p < |body.inputs|
    ensures Consistent(body, view, Walk(body.inputs[p], p), decided, seen)
  {
    assert body.EarlierInputs(p + 1) == body.EarlierInputs(p) + body.inputs[p];
  }

  lemma WalkDone(body: Body, view: View, walk: Walk, decided: seq<Decision>, seen: multiset<Value>,
                 start: Walk, trace: seq<Decision>)
    requires Walking(body, view, walk, decided, seen, start, trace)
    ensures Consistent(body, view, walk, decided + trace, seen)
    ensures After(body, view.producer, start, trace) == Some(walk)
    ensures Shaped(body, view) && Follows(view, decided + trace)
    ensures |view.inline| == |body.inputs|
    ensures forall p | 0 <= p < |view.inline| && view.inline[p] :: p >= walk.cursor
  {}

  lemma RecordExit(body: Body, view: View, cursor: nat, trace: seq<Decision>)
    requires |view.inline| == |body.inputs|
    requires TookRun(seq(|body.inputs|, _ => false), view.inline, cursor, |body.inputs|)
    requires After(body, view.producer, Walk(body.exit, |body.inputs|), trace) == Some(Walk([], cursor))
    ensures Recorded(body, view, cursor, trace, map[|body.inputs| := trace])
  {}

  // Everything from `low` on has been placed: inlined, or walked from as a consumer.
  ghost predicate Progress(body: Body, view: View, low: nat, decided: seq<Decision>, seen: multiset<Value>,
                           traces: map<nat, seq<Decision>>)
  {
    && |view.inline| == |body.inputs|
    && (forall q | 0 <= q < |view.inline| && view.inline[q] :: q >= low)
    && Consistent(body, view, Walk([], low), decided, seen)
    && Recorded(body, view, low, decided, traces)
  }

  // Every consumer from `low` on has taken all that coverage gives it, and no more.
  ghost predicate Greedy(body: Body, view: View, low: nat) {
    && |view.inline| == |body.inputs|
    && forall q | low <= q <= |body.inputs| && (q == |body.inputs| || !view.inline[q]) ::
         Took(body, view, low, q)
  }

  ghost predicate Took(body: Body, view: View, low: nat, q: nat)
    requires q <= |body.inputs| == |view.inline|
  {
    var c := Covered(body, view.producer, view.uses, body.Consumed(q), q);
    && low <= c && (forall r | c <= r < q :: view.inline[r]) && (c > 0 ==> !view.inline[c - 1])
  }

  lemma GreedyRuns(body: Body, view: View, q: nat)
    requires Greedy(body, view, 0) && q <= |body.inputs| && (q == |body.inputs| || !view.inline[q])
    ensures RunStart(view.inline, q) == Covered(body, view.producer, view.uses, body.Consumed(q), q)
  {
    assert Took(body, view, 0, q);
    RunStartIs(view.inline, q, Covered(body, view.producer, view.uses, body.Consumed(q), q));
  }

  method CoverExit(body: Body, producer: seq<Option<nat>>, uses: seq<nat>)
    returns (inline: seq<bool>, low: nat, ghost decided: seq<Decision>, ghost seen: multiset<Value>,
             ghost traces: map<nat, seq<Decision>>)
    requires Shaped(body, View(producer, seq(|body.inputs|, _ => false), uses))
    ensures Progress(body, View(producer, inline, uses), low, decided, seen, traces)
    ensures low <= |inline| && forall q | low <= q < |inline| :: inline[q]
    ensures Greedy(body, View(producer, inline, uses), low)
  {
    hide Consistent, After, Recorded, Shaped, Covered;
    var flags := seq(|body.inputs|, _ => false);
    OpenExit(body, View(producer, flags, uses));
    inline, low, decided, seen := Cover(body, producer, uses, flags, |body.inputs|, body.exit, [], multiset{});
    assert [] + decided == decided;
    WalkDone(body, View(producer, inline, uses), Walk([], low), [], seen, Walk(body.exit, |body.inputs|), decided);
    traces := map[|body.inputs| := decided];
    RecordExit(body, View(producer, inline, uses), low, decided);
  }

  // Taking a run below a consumer leaves all above it as they were.
  lemma GreedyOn(body: Body, view: View, inline: seq<bool>, position: nat, low: nat)
    requires Greedy(body, view, position + 1) && position < |body.inputs| && !view.inline[position]
    requires forall q | 0 <= q < |view.inline| && view.inline[q] :: q >= position + 1
    requires TookRun(view.inline, inline, low, position)
    requires low == Covered(body, view.producer, view.uses, body.inputs[position], position)
    ensures Greedy(body, view.(inline := inline), low)
  {
    hide Covered, Took;
    var after := view.(inline := inline);
    forall q | low <= q <= |body.inputs| && (q == |body.inputs| || !inline[q]) ensures Took(body, after, low, q) {
      if q > position {
        assert Took(body, view, position + 1, q);
        TookStays(body, view, inline, position, low, q);
      } else if q == position {
        TookHere(body, view, inline, position, low);
      }
    }
  }

  lemma TookStays(body: Body, view: View, inline: seq<bool>, position: nat, low: nat, q: nat)
    requires position < q <= |body.inputs| == |view.inline| && Took(body, view, position + 1, q)
    requires !view.inline[position] && TookRun(view.inline, inline, low, position)
    ensures Took(body, view.(inline := inline), low, q)
  {
    hide Covered;
    var c := Covered(body, view.producer, view.uses, body.Consumed(q), q);
    assert inline[position] == view.inline[position];
    assert c > 0 ==> inline[c - 1] == view.inline[c - 1];
  }

  lemma TookHere(body: Body, view: View, inline: seq<bool>, position: nat, low: nat)
    requires position < |body.inputs| == |view.inline| && TookRun(view.inline, inline, low, position)
    requires forall q | 0 <= q < |view.inline| && view.inline[q] :: q >= position + 1
    requires low == Covered(body, view.producer, view.uses, body.inputs[position], position)
    ensures Took(body, view.(inline := inline), low, position)
  {
    hide Covered;
    assert body.Consumed(position) == body.inputs[position];
    assert low > 0 ==> inline[low - 1] == view.inline[low - 1];
  }

  method CoverItem(body: Body, producer: seq<Option<nat>>, uses: seq<nat>, flags: seq<bool>, position: nat,
                   ghost before: seq<Decision>, ghost seenBefore: multiset<Value>,
                   ghost tracesBefore: map<nat, seq<Decision>>)
    returns (inline: seq<bool>, low: nat, ghost decided: seq<Decision>, ghost seen: multiset<Value>,
             ghost traces: map<nat, seq<Decision>>)
    requires Progress(body, View(producer, flags, uses), position + 1, before, seenBefore, tracesBefore)
    requires position < |body.inputs| && !flags[position]
    ensures Progress(body, View(producer, inline, uses), low, decided, seen, traces)
    ensures low <= position && forall q | low <= q < position :: inline[q]
    ensures Greedy(body, View(producer, flags, uses), position + 1) ==> Greedy(body, View(producer, inline, uses), low)
  {
    hide Consistent, After, Recorded, Shaped, Covered, Walking;
    OpenItem(body, View(producer, flags, uses), position, before, seenBefore);
    ghost var trace;
    inline, low, trace, seen := Cover(body, producer, uses, flags, position, body.inputs[position], before, seenBefore);
    WalkDone(body, View(producer, inline, uses), Walk([], low), before, seen,
             Walk(body.inputs[position], position), trace);
    RecordWalk(body, View(producer, flags, uses), position + 1, before, tracesBefore, inline, low, trace);
    decided, traces := before + trace, tracesBefore[position := trace];
    if Greedy(body, View(producer, flags, uses), position + 1) {
      GreedyOn(body, View(producer, flags, uses), inline, position, low);
    }
  }

  /** The view keeps every block's order of execution: inlining never moves an item past another,
      whatever effects they have. */
  method NewView(body: Body) returns (view: View)
    requires body.Valid()
    ensures Shaped(body, view) && Ordered(body, view)
    ensures forall q | 0 <= q <= |body.inputs| && (q == |body.inputs| || !view.inline[q]) ::
              RunStart(view.inline, q) == Covered(body, view.producer, view.uses, body.Consumed(q), q)
  {
    hide Consistent, Recorded, Took, Ordered, Covered, RunStart, IsProducer, CountsUses;
    var producer := FindProducers(body);
    var uses := CountUses(body);
    ghost var decided, seen, traces;
    var inline: seq<bool>;
    var low: nat;
    inline, low, decided, seen, traces := CoverExit(body, producer, uses);
    for position := |body.inputs| downto 0
      invariant 0 <= low <= position && |inline| == |body.inputs|
      invariant forall q | low <= q < position :: inline[q]
      invariant Progress(body, View(producer, inline, uses), low, decided, seen, traces)
      invariant Greedy(body, View(producer, inline, uses), low)
    {
      if inline[position] {
        continue;
      }
      assert low == position + 1;
      inline, low, decided, seen, traces := CoverItem(body, producer, uses, inline, position, decided, seen, traces);
    }
    view := View(producer, inline, uses);
    ViewSound(body, view, decided, seen, traces);
  }

  // What the walk over all items leaves.
  lemma ViewSound(body: Body, view: View, decided: seq<Decision>, seen: multiset<Value>,
                  traces: map<nat, seq<Decision>>)
    requires Progress(body, view, 0, decided, seen, traces) && Greedy(body, view, 0)
    ensures Shaped(body, view) && Ordered(body, view)
    ensures forall q | 0 <= q <= |body.inputs| && (q == |body.inputs| || !view.inline[q]) ::
              RunStart(view.inline, q) == Covered(body, view.producer, view.uses, body.Consumed(q), q)
  {
    hide Recorded, Ordered, Covered, RunStart, Follows;
    RecordOrdered(body, view, decided, traces);
    forall q | 0 <= q <= |body.inputs| && (q == |body.inputs| || !view.inline[q])
      ensures RunStart(view.inline, q) == Covered(body, view.producer, view.uses, body.Consumed(q), q)
    {
      GreedyRuns(body, view, q);
    }
  }

  /** In particular the only use of an item's only result, as the last operand of the item after it, is never
      stored: whenever that consumer stays, the item is left on the stack for it. */
  lemma LastOperandStays(body: Body, view: View, p: nat)
    requires Shaped(body, view) && 0 < p < |body.inputs| && !view.inline[p] && body.inputs[p] != []
    requires RunStart(view.inline, p) == Covered(body, view.producer, view.uses, body.inputs[p], p)
    requires var v := body.inputs[p][|body.inputs[p]| - 1];
             && v < |view.producer| && view.producer[v] == Some(p - 1) && v < |view.uses| && view.uses[v] == 1
    requires |body.results[p - 1]| == 1
    ensures view.inline[p - 1]
  {
    assert RunStart(view.inline, p) <= p - 1;
  }
}

/** Operand-stack coverage of crates/compiler/src/emit/view.rs: which items of a block can be left
    on the Wasm stack for their only consumer without changing the order of execution. */
module Operands {
  import opened Wrappers

  type Value = nat

  datatype Definition = Literal(bits: int) | EntryParameter(component: nat) | Other

  /** One placed block. Items are named by their position; the exit consumes last.
      Other blocks enter through the uses they make of each value. */
  datatype Body = Body(
    definitions: seq<Definition>,
    inputs: seq<seq<Value>>,
    results: seq<seq<Value>>,
    exit: seq<Value>,
    usedElsewhere: seq<nat>)
  {
    // Definitions come before uses, and every value is defined once.
    ghost predicate Valid() {
      && |results| == |inputs| && |usedElsewhere| == |definitions|
      && (forall p | 0 <= p < |inputs| :: Known(inputs[p]) && Known(results[p]) && Computed(results[p]))
      && Known(exit)
      && (forall p, q, v | 0 <= p <= q < |inputs| && v in inputs[p] :: v !in results[q])
      && (forall p, q, v | 0 <= p < q < |inputs| && v in results[p] :: v !in results[q])
      && (forall p, i, j | 0 <= p < |inputs| && 0 <= i < j < |results[p]| :: results[p][i] != results[p][j])
    }

    ghost predicate Known(values: seq<Value>) {
      forall v <- values :: v < |definitions|
    }

    ghost predicate Computed(values: seq<Value>)
      requires Known(values)
    {
      forall v <- values :: definitions[v].Other?
    }

    // What an item, or the exit at the last position, takes from the stack.
    function Consumed(p: nat): seq<Value>
      requires p <= |inputs|
    {
      if p == |inputs| then exit else inputs[p]
    }

    function EarlierInputs(p: nat): seq<Value>
      requires p <= |inputs|
    {
      if p == 0 then [] else EarlierInputs(p - 1) + inputs[p - 1]
    }

    function AllUses(): seq<Value> { EarlierInputs(|inputs|) + exit }
  }

  datatype View = View(producer: seq<Option<nat>>, inline: seq<bool>, uses: seq<nat>)

  ghost predicate IsProducer(body: Body, producer: seq<Option<nat>>)
    requires |body.results| == |body.inputs|
  {
    && |producer| == |body.definitions|
    && (forall v | 0 <= v < |producer| && producer[v].Some? ::
          producer[v].value < |body.inputs| && v in body.results[producer[v].value])
    && (forall p, v | 0 <= p < |body.inputs| && v in body.results[p] :: v < |producer| && producer[v] == Some(p))
  }

  ghost predicate CountsUses(body: Body, uses: seq<nat>)
    requires |body.usedElsewhere| == |body.definitions|
  {
    && |uses| == |body.definitions|
    && forall v | 0 <= v < |uses| :: uses[v] == body.usedElsewhere[v] + multiset(body.AllUses())[v]
  }

  ghost predicate Shaped(body: Body, view: View) {
    && body.Valid()
    && IsProducer(body, view.producer) && CountsUses(body, view.uses)
    && |view.inline| == |body.inputs|
    && forall p | 0 <= p < |view.inline| && view.inline[p] :: |body.results[p]| == 1
  }

  // Whether a use of a value takes the place of its producer.
  ghost predicate Inlined(view: View, v: Value) {
    && v < |view.producer| && view.producer[v].Some?
    && view.producer[v].value < |view.inline| && view.inline[view.producer[v].value]
  }

  // ----- recursion over operands

  ghost function Height(view: View, v: Value): nat {
    if v < |view.producer| && view.producer[v].Some? then view.producer[v].value + 1 else 0
  }

  ghost function MaxHeight(view: View, values: seq<Value>): (height: nat)
    ensures forall v <- values :: Height(view, v) <= height
  {
    if values == [] then 0
    else
      var rest, last := MaxHeight(view, values[..|values| - 1]), Height(view, values[|values| - 1]);
      assert values == values[..|values| - 1] + [values[|values| - 1]];
      if last > rest then last else rest
  }

  lemma {:induction false} MaxHeightBound(view: View, values: seq<Value>, bound: nat)
    requires forall v <- values :: Height(view, v) <= bound
    ensures MaxHeight(view, values) <= bound
    decreases |values|
  {
    if values != [] {
      MaxHeightBound(view, values[..|values| - 1], bound);
    }
  }

  // The operands of an item are defined before it.
  lemma InputsLower(body: Body, view: View, p: nat)
    requires Shaped(body, view) && p < |body.inputs|
    ensures MaxHeight(view, body.inputs[p]) <= p
  {
    forall v | v in body.inputs[p] ensures Height(view, v) <= p {
      if view.producer[v].Some? {
        assert v in body.results[view.producer[v].value];
      }
    }
    MaxHeightBound(view, body.inputs[p], p);
  }

  /** The items executed by placing some values on the stack, in execution order. */
  ghost function Executed(body: Body, view: View, values: seq<Value>): seq<nat>
    requires Shaped(body, view)
    decreases MaxHeight(view, values), |values|
  {
    if values == [] then []
    else
      var v := values[|values| - 1];
      MaxHeightBound(view, values[..|values| - 1], MaxHeight(view, values));
      Executed(body, view, values[..|values| - 1])
      + if !Inlined(view, v) then []
        else
          var p := view.producer[v].value;
          InputsLower(body, view, p);
          assert v in values;
          Executed(body, view, body.inputs[p]) + [p]
  }

  lemma ExecutedSnoc(body: Body, view: View, values: seq<Value>, v: Value)
    requires Shaped(body, view)
    ensures Executed(body, view, values + [v])
            == Executed(body, view, values) + if !Inlined(view, v) then []
               else Executed(body, view, body.inputs[view.producer[v].value]) + [view.producer[v].value]
  {
    assert (values + [v])[..|values|] == values;
  }

  lemma {:induction false} ExecutedConcat(body: Body, view: View, a: seq<Value>, b: seq<Value>)
    requires Shaped(body, view)
    ensures Executed(body, view, a + b) == Executed(body, view, a) + Executed(body, view, b)
    decreases |b|
  {
    if b == [] {
      assert a + b == a;
    } else {
      var prefix, v := b[..|b| - 1], b[|b| - 1];
      ExecutedConcat(body, view, a, prefix);
      assert a + b == a + prefix + [v] && b == prefix + [v];
      ExecutedSnoc(body, view, a + prefix, v);
      ExecutedSnoc(body, view, prefix, v);
    }
  }

  // ----- consecutive positions

  lemma {:induction false} ExecutedInlined(body: Body, view: View, values: seq<Value>)
    requires Shaped(body, view)
    ensures forall q <- Executed(body, view, values) :: q < |view.inline| && view.inline[q]
    decreases MaxHeight(view, values), |values|
  {
    if values != [] {
      var v := values[|values| - 1];
      MaxHeightBound(view, values[..|values| - 1], MaxHeight(view, values));
      ExecutedInlined(body, view, values[..|values| - 1]);
      if Inlined(view, v) {
        InputsLower(body, view, view.producer[v].value);
        assert v in values;
        ExecutedInlined(body, view, body.inputs[view.producer[v].value]);
      }
    }
  }

  function Range(from: nat, to: nat): seq<nat>
    requires from <= to
  {
    seq(to - from, (i: nat) => from + i)
  }

  lemma RangeSplit(from: nat, mid: nat, to: nat)
    requires from <= mid <= to
    ensures Range(from, to) == Range(from, mid) + Range(mid, to)
    ensures mid == from + 1 ==> Range(from, mid) == [from]
  {}

  lemma SeqAssociative<T>(a: seq<T>, b: seq<T>, c: seq<T>)
    ensures a + (b + c) == (a + b) + c
  {}

  // Where the run of inlined items just before a position begins.
  function RunStart(inline: seq<bool>, p: nat): (start: nat)
    requires p <= |inline|
    ensures start <= p && (forall q | start <= q < p :: inline[q])
    ensures start > 0 ==> !inline[start - 1]
  {
    if p == 0 || !inline[p - 1] then p else RunStart(inline, p - 1)
  }

  /** Every item that is not inlined, and the exit, executes exactly the run of inlined items
      right before it, in their original order. */
  ghost predicate Ordered(body: Body, view: View)
    requires Shaped(body, view)
  {
    forall p | 0 <= p <= |body.inputs| && (p == |body.inputs| || !view.inline[p]) ::
      Executed(body, view, body.Consumed(p)) == Range(RunStart(view.inline, p), p)
  }

  // ----- the decisions of one coverage walk

  datatype Walk = Walk(pending: seq<Value>, cursor: nat)

  datatype Decision = Decision(value: Value, taken: bool)

  ghost predicate Allowed(body: Body, producer: seq<Option<nat>>, walk: Walk, d: Decision) {
    && walk.pending != [] && walk.pending[|walk.pending| - 1] == d.value
    && walk.cursor <= |body.inputs|
    && (d.taken ==> walk.cursor > 0 && d.value < |producer| && producer[d.value] == Some(walk.cursor - 1))
  }

  ghost function Decide(body: Body, producer: seq<Option<nat>>, walk: Walk, d: Decision): Walk
    requires Allowed(body, producer, walk, d)
  {
    var rest := walk.pending[..|walk.pending| - 1];
    if d.taken then Walk(rest + body.inputs[walk.cursor - 1], walk.cursor - 1) else Walk(rest, walk.cursor)
  }

  // The state a walk has reached by a trace of decisions, if each was allowed.
  ghost function After(body: Body, producer: seq<Option<nat>>, start: Walk, trace: seq<Decision>): Option<Walk>
    decreases |trace|
  {
    if trace == [] then Some(start)
    else
      match After(body, producer, start, trace[..|trace| - 1])
      case None => None
      case Some(before) =>
        var d := trace[|trace| - 1];
        if Allowed(body, producer, before, d) then Some(Decide(body, producer, before, d)) else None
  }

  lemma AfterSnoc(body: Body, producer: seq<Option<nat>>, start: Walk, trace: seq<Decision>, d: Decision)
    requires After(body, producer, start, trace).Some?
    requires Allowed(body, producer, After(body, producer, start, trace).value, d)
    ensures After(body, producer, start, trace + [d])
            == Some(Decide(body, producer, After(body, producer, start, trace).value, d))
  {
    assert (trace + [d])[..|trace|] == trace;
  }

  ghost predicate Follows(view: View, trace: seq<Decision>) {
    forall d <- trace :: d.taken <==> Inlined(view, d.value)
  }

  // One decision moves an item from the operands still to execute to the run before the cursor.
  lemma DecideOrder(body: Body, view: View, before: Walk, d: Decision, from: nat)
    requires Shaped(body, view) && before.cursor <= from
    requires Allowed(body, view.producer, before, d) && (d.taken <==> Inlined(view, d.value))
    ensures var after := Decide(body, view.producer, before, d);
            && after.cursor <= before.cursor
            && Executed(body, view, before.pending) + Range(before.cursor, from)
               == Executed(body, view, after.pending) + Range(after.cursor, from)
  {
    hide Shaped;
    var rest := before.pending[..|before.pending| - 1];
    assert before.pending == rest + [d.value];
    ExecutedSnoc(body, view, rest, d.value);
    if d.taken {
      var p := before.cursor - 1;
      ExecutedConcat(body, view, rest, body.inputs[p]);
      RangeSplit(p, before.cursor, from);
      var done, run := Executed(body, view, rest), Executed(body, view, body.inputs[p]);
      SeqAssociative(done, run, [p]);
      SeqAssociative(done + run, [p], Range(before.cursor, from));
    } else {
      assert Executed(body, view, before.pending) == Executed(body, view, rest) + [];
    }
  }

  /** Whatever a walk decided is what executing its operands does. */
  lemma {:induction false} WalkOrder(body: Body, view: View, start: Walk, trace: seq<Decision>)
    requires Shaped(body, view) && Follows(view, trace)
    requires After(body, view.producer, start, trace).Some?
    ensures var end := After(body, view.producer, start, trace).value;
            && end.cursor <= start.cursor
            && Executed(body, view, start.pending)
               == Executed(body, view, end.pending) + Range(end.cursor, start.cursor)
    decreases |trace|
  {
    if trace == [] {
      assert Executed(body, view, start.pending) + [] == Executed(body, view, start.pending);
    } else {
      var shorter, d := trace[..|trace| - 1], trace[|trace| - 1];
      assert d in trace && forall e <- shorter :: e in trace;
      WalkOrder(body, view, start, shorter);
      DecideOrder(body, view, After(body, view.producer, start, shorter).value, d, start.cursor);
    }
  }
}

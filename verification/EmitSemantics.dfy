/** Running emitted code: a Wasm operand stack, locals and a world that items may read and change,
    against the items executed one after another in the block's own order. */
module EmitSemantics {
  import opened Wrappers
  import opened Operands
  import opened Emission

  // Memory, globals and everything else an item may read or change.
  type World = map<int, int>

  // What an item does with its operands; any effects, any number of results.
  type Meaning = (nat, seq<int>, World) -> (seq<int>, World)

  ghost predicate Typed(body: Body, meaning: Meaning)
    requires |body.results| == |body.inputs|
  {
    forall p, args, world | 0 <= p < |body.inputs| :: |meaning(p, args, world).0| == |body.results[p]|
  }

  // ----- the block itself, item after item

  datatype Env = Env(values: map<Value, int>, world: World)

  function Get<K>(m: map<K, int>, k: K): int { if k in m then m[k] else 0 }

  function Lookup(body: Body, env: Env, v: Value): int
    requires v < |body.definitions|
  {
    if body.definitions[v].Literal? then body.definitions[v].bits else Get(env.values, v)
  }

  function Lookups(body: Body, env: Env, values: seq<Value>): (found: seq<int>)
    requires body.Known(values)
    ensures |found| == |values|
  {
    if values == [] then []
    else
      var v, prefix := values[|values| - 1], values[..|values| - 1];
      assert v in values && (forall u <- prefix :: u in values);
      Lookups(body, env, prefix) + [Lookup(body, env, v)]
  }

  lemma {:induction false} LookupsAre(body: Body, env: Env, values: seq<Value>, found: seq<int>)
    requires body.Known(values) && |found| == |values|
    requires forall i | 0 <= i < |values| :: values[i] < |body.definitions| && Lookup(body, env, values[i]) == found[i]
    ensures Lookups(body, env, values) == found
    decreases |values|
  {
    if values != [] {
      var last := |values| - 1;
      assert values[last] in values && (forall u <- values[..last] :: u in values);
      LookupsAre(body, env, values[..last], found[..last]);
      assert found == found[..last] + [found[last]];
    }
  }

  lemma {:induction false} SameLookups(body: Body, a: Env, b: Env, values: seq<Value>)
    requires body.Known(values) && forall v <- values :: Lookup(body, a, v) == Lookup(body, b, v)
    ensures Lookups(body, a, values) == Lookups(body, b, values)
    decreases |values|
  {
    if values != [] {
      var last := |values| - 1;
      assert values[last] in values && (forall u <- values[..last] :: u in values);
      SameLookups(body, a, b, values[..last]);
    }
  }

  function Bind(values: map<Value, int>, results: seq<Value>, outs: seq<int>): map<Value, int>
    requires |outs| == |results|
  {
    if results == [] then values
    else
      var last := |results| - 1;
      Bind(values, results[..last], outs[..last])[results[last] := outs[last]]
  }

  // The values and the world after the first p items.
  ghost function At(body: Body, meaning: Meaning, start: Env, p: nat): Env
    requires body.Valid() && Typed(body, meaning) && p <= |body.inputs|
  {
    if p == 0 then start
    else
      var env := At(body, meaning, start, p - 1);
      assert body.Known(body.inputs[p - 1]);
      var (outs, world) := meaning(p - 1, Lookups(body, env, body.inputs[p - 1]), env.world);
      Env(Bind(env.values, body.results[p - 1], outs), world)
  }

  lemma {:induction false} BindOther(values: map<Value, int>, results: seq<Value>, outs: seq<int>, v: Value)
    requires |outs| == |results| && v !in results
    ensures Get(Bind(values, results, outs), v) == Get(values, v)
    decreases |results|
  {
    if results != [] {
      var last := |results| - 1;
      assert results[last] in results && forall u <- results[..last] :: u in results;
      BindOther(values, results[..last], outs[..last], v);
    }
  }

  lemma {:induction false} BindAt(values: map<Value, int>, results: seq<Value>, outs: seq<int>, k: nat)
    requires |outs| == |results| && k < |results|
    requires forall i, j | 0 <= i < j < |results| :: results[i] != results[j]
    ensures Get(Bind(values, results, outs), results[k]) == outs[k]
    decreases |results|
  {
    var last := |results| - 1;
    if k < last {
      BindAt(values, results[..last], outs[..last], k);
    }
  }

  // A value keeps what its producer gave it, and outside values never change.
  lemma {:induction false} Stable(body: Body, meaning: Meaning, start: Env, v: Value, from: nat, end: nat)
    requires body.Valid() && Typed(body, meaning) && from <= end <= |body.inputs| && v < |body.definitions|
    requires forall q | from <= q < end :: v !in body.results[q]
    ensures Lookup(body, At(body, meaning, start, from), v) == Lookup(body, At(body, meaning, start, end), v)
    decreases end
  {
    if from != end {
      Stable(body, meaning, start, v, from, end - 1);
      var env := At(body, meaning, start, end - 1);
      assert body.Known(body.inputs[end - 1]);
      BindOther(env.values, body.results[end - 1],
                meaning(end - 1, Lookups(body, env, body.inputs[end - 1]), env.world).0, v);
    }
  }

  // ----- the machine

  datatype Machine = Machine(stack: seq<int>, locals: map<nat, int>, world: World)

  // One instruction; None where Wasm validation would have refused the stack.
  ghost function Step(body: Body, meaning: Meaning, m: Machine, i: Instruction): Option<Machine> {
    var height := |m.stack|;
    match i
    case Const(bits) => Some(m.(stack := m.stack + [bits]))
    case LocalGet(slot) => Some(m.(stack := m.stack + [Get(m.locals, slot)]))
    case LocalSet(slot) =>
      if height == 0 then None
      else Some(m.(stack := m.stack[..height - 1], locals := m.locals[slot := m.stack[height - 1]]))
    case Drop => if height == 0 then None else Some(m.(stack := m.stack[..height - 1]))
    case Perform(p) =>
      if p >= |body.inputs| || height < |body.inputs[p]| then None
      else
        var base := height - |body.inputs[p]|;
        var (outs, world) := meaning(p, m.stack[base..], m.world);
        Some(m.(stack := m.stack[..base] + outs, world := world))
  }

  ghost function Exec(body: Body, meaning: Meaning, code: seq<Instruction>, m: Machine): Option<Machine>
    decreases |code|
  {
    if code == [] then Some(m)
    else
      match Exec(body, meaning, code[..|code| - 1], m)
      case None => None
      case Some(before) => Step(body, meaning, before, code[|code| - 1])
  }

  lemma {:induction false} ExecConcat(
      body: Body, meaning: Meaning, a: seq<Instruction>, b: seq<Instruction>, m: Machine)
    ensures Exec(body, meaning, a + b, m) ==
            match Exec(body, meaning, a, m)
            case None => None
            case Some(mid) => Exec(body, meaning, b, mid)
    decreases |b|
  {
    hide Step;
    if b == [] {
      assert a + b == a;
    } else {
      ExecConcat(body, meaning, a, b[..|b| - 1], m);
      assert (a + b)[..|a + b| - 1] == a + b[..|b| - 1];
    }
  }

  lemma ExecSnoc(body: Body, meaning: Meaning, code: seq<Instruction>, i: Instruction, m: Machine)
    ensures Exec(body, meaning, code + [i], m) ==
            match Exec(body, meaning, code, m)
            case None => None
            case Some(mid) => Step(body, meaning, mid, i)
  {
    assert (code + [i])[..|code|] == code;
  }

  // ----- locals hold what has been computed

  /** Values kept in locals before position c: outside values, and used results of items in place. */
  ghost predicate Available(plan: Plan, v: Value, c: nat)
    requires plan.Valid() && v < |plan.body.definitions|
  {
    && !plan.body.definitions[v].Literal? && !Inlined(plan.view, v)
    && (plan.view.producer[v].Some? ==> plan.view.producer[v].value < c && plan.view.uses[v] != 0)
  }

  function Slot(plan: Plan, v: Value): nat
    requires v < |plan.locals| && plan.locals[v].Some?
  {
    plan.locals[v].value
  }

  ghost predicate Ready(plan: Plan, locals: map<nat, int>, env: Env, c: nat)
    requires plan.Valid()
  {
    forall v: Value | v < |plan.body.definitions| && Available(plan, v, c) ::
      Get(locals, Slot(plan, v)) == Lookup(plan.body, env, v)
  }

  // What an operand may be when the run of inlined items before p starts at c.
  ghost predicate Obtainable(plan: Plan, v: Value, c: nat)
    requires plan.Valid()
  {
    && v < |plan.body.definitions|
    && (plan.body.definitions[v].Literal? || Inlined(plan.view, v) || Available(plan, v, c))
  }

  lemma ResultOf(plan: Plan, v: Value, q: nat)
    requires plan.Valid() && v < |plan.body.definitions| && q < |plan.body.inputs| && v in plan.body.results[q]
    ensures plan.view.producer[v] == Some(q) && !plan.body.definitions[v].Literal?
  {
    assert plan.body.Known(plan.body.results[q]) && plan.body.Computed(plan.body.results[q]);
  }

  // Values obtained before a position are the same from there on.
  lemma AvailableStable(plan: Plan, meaning: Meaning, start: Env, v: Value, from: nat, to: nat)
    requires plan.Valid() && Typed(plan.body, meaning) && from <= to <= |plan.body.inputs|
    requires v < |plan.body.definitions|
    requires plan.body.definitions[v].Literal? || plan.view.producer[v].None? || plan.view.producer[v].value < from
    ensures Lookup(plan.body, At(plan.body, meaning, start, from), v)
            == Lookup(plan.body, At(plan.body, meaning, start, to), v)
  {
    forall q | from <= q < to ensures v !in plan.body.results[q] {
      if v in plan.body.results[q] { ResultOf(plan, v, q); }
    }
    Stable(plan.body, meaning, start, v, from, to);
  }

  // A run of inlined items leaves the locals as they should be.
  lemma ReadyAcrossRun(plan: Plan, meaning: Meaning, start: Env, locals: map<nat, int>, c: nat, mid: nat)
    requires plan.Valid() && Typed(plan.body, meaning) && c <= mid <= |plan.body.inputs|
    requires Ready(plan, locals, At(plan.body, meaning, start, c), c)
    requires forall q | c <= q < mid :: plan.view.inline[q]
    ensures Ready(plan, locals, At(plan.body, meaning, start, mid), mid)
  {
    forall v: Value | v < |plan.body.definitions| && Available(plan, v, mid)
      ensures Get(locals, Slot(plan, v)) == Lookup(plan.body, At(plan.body, meaning, start, mid), v)
    {
      assert Available(plan, v, c);
      AvailableStable(plan, meaning, start, v, c, mid);
    }
  }

  // ----- operands

  lemma RangeParts(a: seq<nat>, b: seq<nat>, from: nat, to: nat)
    requires from <= to && a + b == Range(from, to)
    ensures from + |a| <= to && a == Range(from, from + |a|) && b == Range(from + |a|, to)
  {
    var whole := Range(from, to);
    assert |a| + |b| == to - from;
    forall i | 0 <= i < |a| ensures a[i] == from + i {
      assert (a + b)[i] == whole[i];
    }
    forall i | 0 <= i < |b| ensures b[i] == from + |a| + i {
      assert (a + b)[|a| + i] == whole[|a| + i];
    }
  }

  lemma {:induction false} InlinedIsExecuted(body: Body, view: View, values: seq<Value>, v: Value)
    requires Shaped(body, view) && v in values && Inlined(view, v)
    ensures view.producer[v].value in Executed(body, view, values)
    decreases |values|
  {
    hide Shaped;
    var prefix, last := values[..|values| - 1], values[|values| - 1];
    assert values == prefix + [last];
    ExecutedSnoc(body, view, prefix, last);
    if v != last {
      assert v in prefix;
      InlinedIsExecuted(body, view, prefix, v);
    }
  }

  lemma UsedInItem(body: Body, p: nat, v: Value)
    requires body.Valid() && p < |body.inputs| && v in body.inputs[p]
    ensures multiset(body.AllUses())[v] >= 1
  {
    EarlierContains(body, |body.inputs|, p, v);
    assert v in body.AllUses();
  }

  lemma {:induction false} EarlierContains(body: Body, n: nat, p: nat, v: Value)
    requires p < n <= |body.inputs| && v in body.inputs[p]
    ensures v in body.EarlierInputs(n)
    decreases n
  {
    if p < n - 1 {
      EarlierContains(body, n - 1, p, v);
    }
  }

  // Operands of an item or of the exit can be obtained where the run before it starts.
  lemma InputsObtainable(plan: Plan, p: nat, c: nat)
    requires plan.Valid() && c <= p <= |plan.body.inputs|
    requires forall q | c <= q < p :: plan.view.inline[q]
    ensures forall v <- plan.body.Consumed(p) :: Obtainable(plan, v, c)
  {
    var values := plan.body.Consumed(p);
    assert plan.body.Known(values);
    forall v | v in values ensures Obtainable(plan, v, c) {
      if p < |plan.body.inputs| { UsedInItem(plan.body, p, v); } else { assert v in plan.body.AllUses(); }
      assert plan.view.uses[v] != 0;
      if !plan.body.definitions[v].Literal? && plan.view.producer[v].Some? && !Inlined(plan.view, v) {
        var q := plan.view.producer[v].value;
        assert v in plan.body.results[q];
        assert q < p;
      }
    }
  }

  // Performing an item on its own operands.
  lemma PerformStep(plan: Plan, meaning: Meaning, start: Env, p: nat, m: Machine, base: seq<int>)
    requires plan.Valid() && Typed(plan.body, meaning) && p < |plan.body.inputs|
    requires plan.body.Known(plan.body.inputs[p])
    requires m.world == At(plan.body, meaning, start, p).world
    requires m.stack == base + Lookups(plan.body, At(plan.body, meaning, start, p), plan.body.inputs[p])
    ensures plan.body.Known(plan.body.results[p])
    ensures Step(plan.body, meaning, m, Perform(p))
            == Some(m.(stack := base + Lookups(plan.body, At(plan.body, meaning, start, p + 1), plan.body.results[p]),
                       world := At(plan.body, meaning, start, p + 1).world))
  {
    var env := At(plan.body, meaning, start, p);
    var args := Lookups(plan.body, env, plan.body.inputs[p]);
    assert m.stack[|base|..] == args && m.stack[..|base|] == base;
    ResultsAre(plan.body, meaning, start, p);
  }

  // The values bound by an item are what it put out.
  lemma ResultsAre(body: Body, meaning: Meaning, start: Env, p: nat)
    requires body.Valid() && Typed(body, meaning) && p < |body.inputs| && body.Known(body.inputs[p])
    ensures body.Known(body.results[p])
    ensures var env := At(body, meaning, start, p); var after := At(body, meaning, start, p + 1);
            (Lookups(body, after, body.results[p]), after.world)
            == meaning(p, Lookups(body, env, body.inputs[p]), env.world)
  {
    var env := At(body, meaning, start, p);
    var (outs, world) := meaning(p, Lookups(body, env, body.inputs[p]), env.world);
    var after := At(body, meaning, start, p + 1);
    assert after == Env(Bind(env.values, body.results[p], outs), world);
    assert body.Known(body.results[p]) && body.Computed(body.results[p]);
    forall k | 0 <= k < |outs|
      ensures body.results[p][k] < |body.definitions| && Lookup(body, after, body.results[p][k]) == outs[k]
    {
      BindAt(env.values, body.results[p], outs, k);
      assert body.results[p][k] in body.results[p];
    }
    LookupsAre(body, after, body.results[p], outs);
  }

  // The machine after placing some operands whose run ends at p.
  ghost function Placed(plan: Plan, meaning: Meaning, start: Env, m: Machine, values: seq<Value>, p: nat): Machine
    requires plan.Valid() && Typed(plan.body, meaning) && p <= |plan.body.inputs| && plan.body.Known(values)
  {
    m.(stack := m.stack + Lookups(plan.body, At(plan.body, meaning, start, p), values),
       world := At(plan.body, meaning, start, p).world)
  }

  // Where placing operands may begin: the run before p starts at c, and the machine stands there.
  ghost predicate Poised(plan: Plan, meaning: Meaning, start: Env, values: seq<Value>, c: nat, p: nat, m: Machine) {
    && plan.Valid() && Typed(plan.body, meaning) && c <= p <= |plan.body.inputs|
    && Executed(plan.body, plan.view, values) == Range(c, p)
    && (forall v <- values :: Obtainable(plan, v, c))
    && m.world == At(plan.body, meaning, start, c).world
    && Ready(plan, m.locals, At(plan.body, meaning, start, c), c)
  }

  /** Code for operands pushes their values and performs exactly the run of items they stand for. */
  lemma {:induction false} CodeSound(
      plan: Plan, meaning: Meaning, start: Env, values: seq<Value>, c: nat, p: nat, m: Machine)
    requires Poised(plan, meaning, start, values, c, p, m)
    ensures Readable(plan, values)
    ensures Exec(plan.body, meaning, Code(plan, values), m) == Some(Placed(plan, meaning, start, m, values, p))
    decreases MaxHeight(plan.view, values), |values|, 1
  {
    assert Readable(plan, values);
    if values == [] {
      assert Range(c, p) == [];
      assert m.stack + [] == m.stack;
    } else {
      var prefix, v := values[..|values| - 1], values[|values| - 1];
      assert values == prefix + [v];
      var mid := PoisedPrefix(plan, meaning, start, prefix, v, c, p, m);
      MaxHeightBound(plan.view, prefix, MaxHeight(plan.view, values));
      CodeSound(plan, meaning, start, prefix, c, mid, m);
      OperandSound(plan, meaning, start, prefix, v, c, mid, p, m);
      CodeSnoc(plan, prefix, v);
      ExecConcat(plan.body, meaning, Code(plan, prefix), ValueCode(plan, v), m);
    }
  }

  lemma PoisedPrefix(plan: Plan, meaning: Meaning, start: Env, prefix: seq<Value>, v: Value, c: nat, p: nat, m: Machine)
    returns (mid: nat)
    requires Poised(plan, meaning, start, prefix + [v], c, p, m)
    ensures c <= mid <= p && Poised(plan, meaning, start, prefix, c, mid, m)
    ensures v < |plan.body.definitions| && Obtainable(plan, v, c)
    ensures if Inlined(plan.view, v) then
              plan.view.producer[v].value == p - 1 && mid < p
              && Executed(plan.body, plan.view, plan.body.inputs[p - 1]) == Range(mid, p - 1)
            else mid == p
  {
    hide Shaped, DistinctLocals, At, Ready, Typed;
    ExecutedSnoc(plan.body, plan.view, prefix, v);
    assert v in prefix + [v] && forall u <- prefix :: u in prefix + [v];
    assert Obtainable(plan, v, c);
    ReadsOrInlines(plan, v);
    var first := Executed(plan.body, plan.view, prefix);
    mid := c + |first|;
    if Inlined(plan.view, v) {
      var r := plan.view.producer[v].value;
      var own := Executed(plan.body, plan.view, plan.body.inputs[r]);
      RangeParts(first, own + [r], c, p);
      RangeParts(own, [r], mid, p);
      assert Range(mid + |own|, p)[0] == mid + |own|;
    } else {
      assert first == Range(c, p);
    }
  }

  // The last operand, on top of those before it.
  lemma OperandSound(
      plan: Plan, meaning: Meaning, start: Env, prefix: seq<Value>, v: Value, c: nat, mid: nat, p: nat,
      m: Machine)
    requires Poised(plan, meaning, start, prefix, c, mid, m)
    requires mid <= p <= |plan.body.inputs| && plan.body.Known(prefix)
    requires v < |plan.body.definitions| && Obtainable(plan, v, c)
    requires if Inlined(plan.view, v) then
               plan.view.producer[v].value == p - 1 && mid < p
               && Executed(plan.body, plan.view, plan.body.inputs[p - 1]) == Range(mid, p - 1)
             else mid == p
    ensures plan.body.Known(prefix + [v])
    ensures Exec(plan.body, meaning, ValueCode(plan, v), Placed(plan, meaning, start, m, prefix, mid))
            == Some(Placed(plan, meaning, start, m, prefix + [v], p))
    decreases MaxHeight(plan.view, prefix + [v]), |prefix| + 1, 0
  {
    hide Executed, At, Step, Code;
    SnocLookups(plan.body, At(plan.body, meaning, start, mid), prefix, v);
    var m1 := Placed(plan, meaning, start, m, prefix, mid);
    if !Inlined(plan.view, v) {
      ReadSound(plan, meaning, start, prefix, v, c, p, m);
      ReadsOrInlines(plan, v);
      ExecSnoc(plan.body, meaning, [], plan.Read(v), m1);
      assert [] + [plan.Read(v)] == [plan.Read(v)];
    } else {
      var r := p - 1;
      PoisedInline(plan, meaning, start, prefix, v, r, c, mid, m);
      CodeSound(plan, meaning, start, plan.body.inputs[r], mid, r, m1);
      InlinePerform(plan, meaning, start, prefix, v, r, c, mid, m);
      ExecSnoc(plan.body, meaning, Code(plan, plan.body.inputs[r]), Perform(r), m1);
    }
  }

  lemma PoisedInline(
      plan: Plan, meaning: Meaning, start: Env, prefix: seq<Value>, v: Value, r: nat, c: nat, mid: nat,
      m: Machine)
    requires Poised(plan, meaning, start, prefix, c, mid, m) && mid <= r < |plan.body.inputs| && plan.body.Known(prefix)
    requires v < |plan.body.definitions| && plan.view.producer[v] == Some(r)
    requires Executed(plan.body, plan.view, plan.body.inputs[r]) == Range(mid, r)
    ensures Poised(plan, meaning, start, plan.body.inputs[r], mid, r, Placed(plan, meaning, start, m, prefix, mid))
    ensures plan.body.Known(plan.body.inputs[r])
    ensures MaxHeight(plan.view, plan.body.inputs[r]) < MaxHeight(plan.view, prefix + [v])
  {
    InlineReady(plan, meaning, start, prefix, c, mid, m);
    InlineObtainable(plan, r, mid, Range(mid, r));
    InputsLower(plan.body, plan.view, r);
    assert v in prefix + [v];
    assert Height(plan.view, v) == r + 1;
  }

  // Reading a value that is not recomputed in place.
  lemma ReadSound(plan: Plan, meaning: Meaning, start: Env, prefix: seq<Value>, v: Value, c: nat, p: nat, m: Machine)
    requires plan.Valid() && Typed(plan.body, meaning) && c <= p <= |plan.body.inputs|
    requires plan.body.Known(prefix) && Obtainable(plan, v, c) && !Inlined(plan.view, v)
    requires Ready(plan, m.locals, At(plan.body, meaning, start, c), c)
    ensures plan.body.Known(prefix + [v])
    ensures Step(plan.body, meaning, Placed(plan, meaning, start, m, prefix, p), plan.Read(v))
            == Some(Placed(plan, meaning, start, m, prefix + [v], p))
  {
    var env := At(plan.body, meaning, start, p);
    AvailableStable(plan, meaning, start, v, c, p);
    SnocLookups(plan.body, env, prefix, v);
    assert m.stack + Lookups(plan.body, env, prefix) + [Lookup(plan.body, env, v)]
           == m.stack + Lookups(plan.body, env, prefix + [v]);
  }

  lemma SnocLookups(body: Body, env: Env, prefix: seq<Value>, v: Value)
    requires body.Known(prefix) && v < |body.definitions|
    ensures body.Known(prefix + [v])
    ensures Lookups(body, env, prefix + [v]) == Lookups(body, env, prefix) + [Lookup(body, env, v)]
  {
    assert forall u <- prefix + [v] :: u in prefix || u == v;
    assert (prefix + [v])[..|prefix|] == prefix;
  }

  // Inlined runs between operands.
  lemma InlineReady(plan: Plan, meaning: Meaning, start: Env, prefix: seq<Value>, c: nat, mid: nat, m: Machine)
    requires plan.Valid() && Typed(plan.body, meaning) && c <= mid <= |plan.body.inputs|
    requires Executed(plan.body, plan.view, prefix) == Range(c, mid)
    requires Ready(plan, m.locals, At(plan.body, meaning, start, c), c)
    ensures Ready(plan, m.locals, At(plan.body, meaning, start, mid), mid)
  {
    RunInlined(plan, prefix, c, mid);
    ReadyAcrossRun(plan, meaning, start, m.locals, c, mid);
  }

  lemma RunInlined(plan: Plan, values: seq<Value>, c: nat, p: nat)
    requires plan.Valid() && c <= p && Executed(plan.body, plan.view, values) == Range(c, p)
    ensures forall q | c <= q < p :: q < |plan.view.inline| && plan.view.inline[q]
  {
    ExecutedInlined(plan.body, plan.view, values);
    forall q | c <= q < p ensures q < |plan.view.inline| && plan.view.inline[q] {
      assert Range(c, p)[q - c] == q;
      assert q in Range(c, p);
    }
  }

  lemma InlineObtainable(plan: Plan, r: nat, mid: nat, own: seq<nat>)
    requires plan.Valid() && mid <= r < |plan.body.inputs|
    requires own == Executed(plan.body, plan.view, plan.body.inputs[r]) && own == Range(mid, r)
    ensures forall u <- plan.body.inputs[r] :: Obtainable(plan, u, mid)
  {
    RunInlined(plan, plan.body.inputs[r], mid, r);
    InputsObtainable(plan, r, mid);
  }

  // The inlined item's instruction, and the earlier operands below it.
  lemma InlinePerform(
      plan: Plan, meaning: Meaning, start: Env, prefix: seq<Value>, v: Value, r: nat, c: nat, mid: nat,
      m: Machine)
    requires plan.Valid() && Typed(plan.body, meaning) && c <= mid <= r < |plan.body.inputs|
    requires plan.body.Known(prefix) && plan.body.Known(plan.body.inputs[r]) && v < |plan.body.definitions|
    requires Inlined(plan.view, v) && plan.view.producer[v] == Some(r)
    requires Executed(plan.body, plan.view, prefix) == Range(c, mid) && forall u <- prefix :: Obtainable(plan, u, c)
    ensures plan.body.Known(prefix + [v])
    ensures var m1 := Placed(plan, meaning, start, m, prefix, mid);
            Step(plan.body, meaning, Placed(plan, meaning, start, m1, plan.body.inputs[r], r), Perform(r))
            == Some(Placed(plan, meaning, start, m, prefix + [v], r + 1))
  {
    hide At, Step, Obtainable, Executed;
    var m1 := Placed(plan, meaning, start, m, prefix, mid);
    var after := At(plan.body, meaning, start, r + 1);
    PerformInlined(plan, meaning, start, v, r, m1);
    PrefixStable(plan, meaning, start, prefix, c, mid, r + 1);
    SnocLookups(plan.body, after, prefix, v);
    SeqAssociative(m.stack, Lookups(plan.body, after, prefix), [Lookup(plan.body, after, v)]);
  }

  lemma PerformInlined(plan: Plan, meaning: Meaning, start: Env, v: Value, r: nat, m: Machine)
    requires plan.Valid() && Typed(plan.body, meaning) && r < |plan.body.inputs|
    requires plan.body.Known(plan.body.inputs[r]) && v < |plan.body.definitions|
    requires Inlined(plan.view, v) && plan.view.producer[v] == Some(r)
    ensures Step(plan.body, meaning, Placed(plan, meaning, start, m, plan.body.inputs[r], r), Perform(r))
            == Some(m.(stack := m.stack + [Lookup(plan.body, At(plan.body, meaning, start, r + 1), v)],
                       world := At(plan.body, meaning, start, r + 1).world))
  {
    hide At, Step;
    PerformStep(plan, meaning, start, r, Placed(plan, meaning, start, m, plan.body.inputs[r], r), m.stack);
    SingleResult(plan, v, r);
    SingleLookup(plan.body, At(plan.body, meaning, start, r + 1), v);
  }

  lemma SingleLookup(body: Body, env: Env, v: Value)
    requires v < |body.definitions|
    ensures body.Known([v]) && Lookups(body, env, [v]) == [Lookup(body, env, v)]
  {
    LookupsAre(body, env, [v], [Lookup(body, env, v)]);
  }

  lemma SingleResult(plan: Plan, v: Value, r: nat)
    requires plan.Valid() && v < |plan.body.definitions| && Inlined(plan.view, v) && plan.view.producer[v] == Some(r)
    ensures r < |plan.body.results| && plan.body.results[r] == [v]
  {
    assert v in plan.body.results[r];
  }

  lemma PrefixStable(plan: Plan, meaning: Meaning, start: Env, prefix: seq<Value>, c: nat, mid: nat, to: nat)
    requires plan.Valid() && Typed(plan.body, meaning) && c <= mid <= to <= |plan.body.inputs|
    requires plan.body.Known(prefix)
    requires Executed(plan.body, plan.view, prefix) == Range(c, mid) && forall u <- prefix :: Obtainable(plan, u, c)
    ensures Lookups(plan.body, At(plan.body, meaning, start, mid), prefix)
            == Lookups(plan.body, At(plan.body, meaning, start, to), prefix)
  {
    forall u | u in prefix
      ensures Lookup(plan.body, At(plan.body, meaning, start, mid), u)
              == Lookup(plan.body, At(plan.body, meaning, start, to), u)
    {
      if Inlined(plan.view, u) {
        InlinedIsExecuted(plan.body, plan.view, prefix, u);
      }
      AvailableStable(plan, meaning, start, u, mid, to);
    }
    SameLookups(plan.body, At(plan.body, meaning, start, mid), At(plan.body, meaning, start, to), prefix);
  }

  // ----- whole blocks

  // Locals after the results of an item have been stored.
  ghost function Stored(plan: Plan, locals: map<nat, int>, results: seq<Value>, outs: seq<int>): map<nat, int>
    requires |outs| == |results| && |plan.view.uses| == |plan.locals|
    requires forall v <- results :: v < |plan.locals| && plan.locals[v].Some?
    decreases |results|
  {
    if results == [] then locals
    else
      var last := |results| - 1;
      var v := results[last];
      assert v in results && (forall u <- results[..last] :: u in results);
      Stored(plan, if plan.view.uses[v] == 0 then locals else locals[Slot(plan, v) := outs[last]],
             results[..last], outs[..last])
  }

  lemma {:induction false} StoreSound(
      plan: Plan, meaning: Meaning, results: seq<Value>, outs: seq<int>, m: Machine, base: seq<int>)
    requires |outs| == |results| && |plan.view.uses| == |plan.locals|
    requires forall v <- results :: v < |plan.locals| && plan.locals[v].Some?
    requires m.stack == base + outs
    ensures Exec(plan.body, meaning, StoreCode(plan, results), m)
            == Some(m.(stack := base, locals := Stored(plan, m.locals, results, outs)))
    decreases |results|
  {
    if results == [] {
      assert base + outs == base;
    } else {
      var last := |results| - 1;
      var v := results[last];
      assert v in results && (forall u <- results[..last] :: u in results);
      assert outs == outs[..last] + [outs[last]];
      var i := if plan.view.uses[v] == 0 then Drop else LocalSet(plan.locals[v].value);
      var next := StoreOne(plan, meaning, v, outs[..last], outs[last], m, base);
      StoreSound(plan, meaning, results[..last], outs[..last], next, base);
      ExecSnoc(plan.body, meaning, [], i, m);
      assert [] + [i] == [i];
      ExecConcat(plan.body, meaning, [i], StoreCode(plan, results[..last]), m);
    }
  }

  lemma StoreOne(plan: Plan, meaning: Meaning, v: Value, below: seq<int>, top: int, m: Machine, base: seq<int>)
    returns (next: Machine)
    requires |plan.view.uses| == |plan.locals| && v < |plan.locals| && plan.locals[v].Some?
    requires m.stack == base + (below + [top])
    ensures next == m.(stack := base + below,
                       locals := if plan.view.uses[v] == 0 then m.locals else m.locals[Slot(plan, v) := top])
    ensures Step(plan.body, meaning, m, if plan.view.uses[v] == 0 then Drop else LocalSet(plan.locals[v].value))
            == Some(next)
  {
    next := m.(stack := base + below,
               locals := if plan.view.uses[v] == 0 then m.locals else m.locals[Slot(plan, v) := top]);
    assert m.stack[..|m.stack| - 1] == base + below;
  }

  lemma {:induction false} StoredOther(
      plan: Plan, locals: map<nat, int>, results: seq<Value>, outs: seq<int>, slot: nat)
    requires |outs| == |results| && |plan.view.uses| == |plan.locals|
    requires forall v <- results :: v < |plan.locals| && plan.locals[v].Some? && Slot(plan, v) != slot
    ensures Get(Stored(plan, locals, results, outs), slot) == Get(locals, slot)
    decreases |results|
  {
    if results != [] {
      var last := |results| - 1;
      var v := results[last];
      assert v in results && (forall u <- results[..last] :: u in results);
      StoredOther(plan, if plan.view.uses[v] == 0 then locals else locals[Slot(plan, v) := outs[last]],
                  results[..last], outs[..last], slot);
    }
  }

  lemma {:induction false} StoredAt(plan: Plan, locals: map<nat, int>, results: seq<Value>, outs: seq<int>, k: nat)
    requires |outs| == |results| && |plan.view.uses| == |plan.locals| && k < |results|
    requires forall v <- results :: v < |plan.locals| && plan.locals[v].Some?
    requires forall i, j | 0 <= i < j < |results| :: results[i] != results[j]
    requires DistinctLocals(plan.body.definitions, plan.locals)
    requires results[k] < |plan.view.uses| && plan.view.uses[results[k]] != 0
    ensures Get(Stored(plan, locals, results, outs), Slot(plan, results[k])) == outs[k]
    decreases |results|
  {
    var last := |results| - 1;
    var v := results[last];
    assert v in results && results[k] in results && (forall u <- results[..last] :: u in results);
    var next := if plan.view.uses[v] == 0 then locals else locals[Slot(plan, v) := outs[last]];
    if k < last {
      StoredAt(plan, next, results[..last], outs[..last], k);
    } else {
      forall u | u in results[..last]
        ensures u < |plan.locals| && plan.locals[u].Some? && Slot(plan, u) != Slot(plan, v)
      {
        var j :| 0 <= j < last && results[j] == u;
        if u < v { assert plan.locals[u].value != plan.locals[v].value; }
        else { assert plan.locals[v].value != plan.locals[u].value; }
      }
      StoredOther(plan, next, results[..last], outs[..last], Slot(plan, v));
    }
  }

  // After an item in place, its used results are in their locals and all others are where they were.
  lemma ReadyAfterItem(plan: Plan, meaning: Meaning, start: Env, locals: map<nat, int>, c: nat, p: nat)
    requires plan.Valid() && Typed(plan.body, meaning) && c <= p < |plan.body.inputs|
    requires Ready(plan, locals, At(plan.body, meaning, start, c), c)
    requires (forall q | c <= q < p :: plan.view.inline[q]) && !plan.view.inline[p]
    ensures plan.body.Known(plan.body.results[p]) && |plan.view.uses| == |plan.locals|
    ensures forall v <- plan.body.results[p] :: v < |plan.locals| && plan.locals[v].Some?
    ensures var outs := Lookups(plan.body, At(plan.body, meaning, start, p + 1), plan.body.results[p]);
            Ready(plan, Stored(plan, locals, plan.body.results[p], outs), At(plan.body, meaning, start, p + 1), p + 1)
  {
    ResultsStorable(plan, p);
    assert plan.body.Known(plan.body.results[p]);
    var results := plan.body.results[p];
    var env := At(plan.body, meaning, start, p + 1);
    var outs := Lookups(plan.body, env, results);
    forall v: Value | v < |plan.body.definitions| && Available(plan, v, p + 1)
      ensures Get(Stored(plan, locals, results, outs), Slot(plan, v)) == Lookup(plan.body, env, v)
    {
      if v in results {
        StoredResult(plan, meaning, start, locals, p, v);
      } else {
        ReadyElsewhere(plan, meaning, start, locals, c, p, v, outs);
      }
    }
  }

  lemma StoredResult(plan: Plan, meaning: Meaning, start: Env, locals: map<nat, int>, p: nat, v: Value)
    requires plan.Valid() && Typed(plan.body, meaning) && p < |plan.body.inputs| && v in plan.body.results[p]
    requires plan.body.Known(plan.body.results[p]) && Available(plan, v, p + 1)
    requires forall u <- plan.body.results[p] :: u < |plan.locals| && plan.locals[u].Some?
    ensures var env := At(plan.body, meaning, start, p + 1);
            var outs := Lookups(plan.body, env, plan.body.results[p]);
            Get(Stored(plan, locals, plan.body.results[p], outs), Slot(plan, v)) == Lookup(plan.body, env, v)
  {
    var results := plan.body.results[p];
    var env := At(plan.body, meaning, start, p + 1);
    var k :| 0 <= k < |results| && results[k] == v;
    ResultOf(plan, v, p);
    StoredAt(plan, locals, results, Lookups(plan.body, env, results), k);
    LookupsAt(plan.body, env, results, k);
  }

  lemma {:induction false} LookupsAt(body: Body, env: Env, values: seq<Value>, k: nat)
    requires body.Known(values) && k < |values|
    ensures values[k] < |body.definitions| && Lookups(body, env, values)[k] == Lookup(body, env, values[k])
    decreases |values|
  {
    var last := |values| - 1;
    assert values[last] in values && (forall u <- values[..last] :: u in values);
    if k < last { LookupsAt(body, env, values[..last], k); }
  }

  lemma ReadyElsewhere(
      plan: Plan, meaning: Meaning, start: Env, locals: map<nat, int>, c: nat, p: nat, v: Value, outs: seq<int>)
    requires plan.Valid() && Typed(plan.body, meaning) && c <= p < |plan.body.inputs|
    requires Ready(plan, locals, At(plan.body, meaning, start, c), c)
    requires (forall q | c <= q < p :: plan.view.inline[q]) && !plan.view.inline[p]
    requires v < |plan.body.definitions| && Available(plan, v, p + 1) && v !in plan.body.results[p]
    requires |outs| == |plan.body.results[p]|
    requires forall u <- plan.body.results[p] :: u < |plan.locals| && plan.locals[u].Some?
    ensures Get(Stored(plan, locals, plan.body.results[p], outs), Slot(plan, v))
            == Lookup(plan.body, At(plan.body, meaning, start, p + 1), v)
  {
    hide Stored, At, DistinctLocals, Available, Ready, IsProducer, CountsUses, Inlined;
    var results := plan.body.results[p];
    ReadyGives(plan, meaning, start, locals, c, p, v);
    SlotsApart(plan, results, v);
    StoredOther(plan, locals, results, outs, Slot(plan, v));
  }

  // What the local of a value held before the run of an item it still holds for the block after the item.
  lemma ReadyGives(plan: Plan, meaning: Meaning, start: Env, locals: map<nat, int>, c: nat, p: nat, v: Value)
    requires plan.Valid() && Typed(plan.body, meaning) && c <= p < |plan.body.inputs|
    requires Ready(plan, locals, At(plan.body, meaning, start, c), c) && v < |plan.body.definitions|
    requires (forall q | c <= q < p :: plan.view.inline[q]) && !plan.view.inline[p]
    requires Available(plan, v, p + 1) && v !in plan.body.results[p]
    ensures |plan.view.uses| == |plan.locals| && v < |plan.locals| && plan.locals[v].Some?
    ensures Get(locals, Slot(plan, v)) == Lookup(plan.body, At(plan.body, meaning, start, p + 1), v)
  {
    hide At;
    AvailableLocal(plan, v, p + 1);
    AvailableBefore(plan, v, c, p);
    AvailableStable(plan, meaning, start, v, c, p + 1);
  }

  lemma AvailableLocal(plan: Plan, v: Value, c: nat)
    requires plan.Valid() && v < |plan.body.definitions| && Available(plan, v, c)
    ensures |plan.view.uses| == |plan.locals| && v < |plan.locals| && plan.locals[v].Some?
  {}

  // What is available after an item but not its result was available before the run inlined into it.
  lemma AvailableBefore(plan: Plan, v: Value, c: nat, p: nat)
    requires plan.Valid() && c <= p < |plan.body.inputs| && v < |plan.body.definitions|
    requires (forall q | c <= q < p :: plan.view.inline[q]) && !plan.view.inline[p]
    requires Available(plan, v, p + 1) && v !in plan.body.results[p]
    ensures Available(plan, v, c)
  {
    if plan.view.producer[v].Some? {
      assert v in plan.body.results[plan.view.producer[v].value];
    }
  }

  lemma SlotsApart(plan: Plan, results: seq<Value>, v: Value)
    requires plan.Valid() && v < |plan.locals| && plan.locals[v].Some? && v !in results
    requires forall u <- results :: u < |plan.locals| && plan.locals[u].Some?
    ensures forall u <- results :: Slot(plan, u) != Slot(plan, v)
  {
    forall u | u in results ensures Slot(plan, u) != Slot(plan, v) {
      if u < v { assert plan.locals[u].value != plan.locals[v].value; }
      else { assert plan.locals[v].value != plan.locals[u].value; }
    }
  }

  // The machine between two items: everything before the pending run has happened, nothing else.
  ghost predicate Between(plan: Plan, meaning: Meaning, start: Env, base: seq<int>, p: nat, m: Machine)
    requires plan.Valid() && Typed(plan.body, meaning) && p <= |plan.body.inputs|
  {
    var c := RunStart(plan.view.inline, p);
    && m.stack == base
    && m.world == At(plan.body, meaning, start, c).world
    && Ready(plan, m.locals, At(plan.body, meaning, start, c), c)
  }

  /** One item in place, with its stores. */
  lemma ItemSound(plan: Plan, meaning: Meaning, start: Env, base: seq<int>, p: nat, m: Machine)
    requires plan.Valid() && Ordered(plan.body, plan.view) && Typed(plan.body, meaning)
    requires p < |plan.body.inputs| && !plan.view.inline[p] && Between(plan, meaning, start, base, p, m)
    ensures |plan.view.uses| == |plan.locals|
    ensures forall v <- plan.body.results[p] :: v < |plan.locals| && plan.locals[v].Some?
    ensures var code := ItemCode(plan, p) + StoreCode(plan, plan.body.results[p]);
            var after := Exec(plan.body, meaning, code, m);
            after.Some? && Between(plan, meaning, start, base, p + 1, after.value)
  {
    hide At, Ready, Code, Executed;
    var c := RunStart(plan.view.inline, p);
    assert plan.body.Consumed(p) == plan.body.inputs[p];
    InputsObtainable(plan, p, c);
    CodeSound(plan, meaning, start, plan.body.inputs[p], c, p, m);
    var placed := Placed(plan, meaning, start, m, plan.body.inputs[p], p);
    PerformStep(plan, meaning, start, p, placed, base);
    ReadyAfterItem(plan, meaning, start, m.locals, c, p);
    var outs := Lookups(plan.body, At(plan.body, meaning, start, p + 1), plan.body.results[p]);
    var performed := placed.(stack := base + outs, world := At(plan.body, meaning, start, p + 1).world);
    ExecSnoc(plan.body, meaning, Code(plan, plan.body.inputs[p]), Perform(p), m);
    StoreSound(plan, meaning, plan.body.results[p], outs, performed, base);
    ExecConcat(plan.body, meaning, ItemCode(plan, p), StoreCode(plan, plan.body.results[p]), m);
  }

  lemma {:induction false} BlockSound(plan: Plan, meaning: Meaning, start: Env, base: seq<int>, p: nat, m: Machine)
    requires plan.Valid() && Ordered(plan.body, plan.view) && Typed(plan.body, meaning) && p <= |plan.body.inputs|
    requires m.stack == base && m.world == start.world && Ready(plan, m.locals, start, 0)
    ensures var after := Exec(plan.body, meaning, BlockCode(plan, p), m);
            after.Some? && Between(plan, meaning, start, base, p, after.value)
    decreases p
  {
    hide Ready, Code, Executed, Step, StoreCode, At, Between, Exec, BlockCode, Ordered, DistinctLocals;
    if p == 0 {
      BlockBegins(plan, meaning, start, base, m);
    } else {
      BlockSound(plan, meaning, start, base, p - 1, m);
      var mid := Exec(plan.body, meaning, BlockCode(plan, p - 1), m).value;
      if plan.view.inline[p - 1] {
        BetweenInline(plan, meaning, start, base, p, mid);
      } else {
        BlockCodeItem(plan, p);
        ItemSound(plan, meaning, start, base, p - 1, mid);
        ExecConcat(plan.body, meaning, BlockCode(plan, p - 1),
                   ItemCode(plan, p - 1) + StoreCode(plan, plan.body.results[p - 1]), m);
      }
    }
  }

  lemma BlockBegins(plan: Plan, meaning: Meaning, start: Env, base: seq<int>, m: Machine)
    requires plan.Valid() && Typed(plan.body, meaning)
    requires m.stack == base && m.world == start.world && Ready(plan, m.locals, start, 0)
    ensures Exec(plan.body, meaning, BlockCode(plan, 0), m) == Some(m) && Between(plan, meaning, start, base, 0, m)
  {
    BlockStart(plan, meaning, start);
  }

  // An inlined item emits nothing in its place.
  lemma BetweenInline(plan: Plan, meaning: Meaning, start: Env, base: seq<int>, p: nat, m: Machine)
    requires plan.Valid() && Typed(plan.body, meaning) && 0 < p <= |plan.body.inputs|
    requires plan.view.inline[p - 1] && Between(plan, meaning, start, base, p - 1, m)
    ensures BlockCode(plan, p) == BlockCode(plan, p - 1) && Between(plan, meaning, start, base, p, m)
  {
    assert BlockCode(plan, p - 1) + [] == BlockCode(plan, p - 1);
  }

  lemma BlockCodeItem(plan: Plan, p: nat)
    requires plan.Valid() && 0 < p <= |plan.body.inputs| && !plan.view.inline[p - 1]
    ensures |plan.view.uses| == |plan.locals|
    ensures forall v <- plan.body.results[p - 1] :: v < |plan.locals| && plan.locals[v].Some?
    ensures BlockCode(plan, p) ==
            BlockCode(plan, p - 1) + (ItemCode(plan, p - 1) + StoreCode(plan, plan.body.results[p - 1]))
  {
    ResultsStorable(plan, p - 1);
  }

  /** The block's code leaves the operand stack as it was and every used result that is not inlined
      in its own local with its value; the exit's code then supplies the exit's operands, and the
      world has seen every item exactly once, in order. */
  lemma BlockThenExit(plan: Plan, meaning: Meaning, start: Env, m: Machine)
    requires plan.Valid() && Ordered(plan.body, plan.view) && Typed(plan.body, meaning)
    requires m.world == start.world && Ready(plan, m.locals, start, 0)
    ensures Readable(plan, plan.body.exit)
    ensures var n := |plan.body.inputs|; var end := At(plan.body, meaning, start, n);
            var block := Exec(plan.body, meaning, BlockCode(plan, n), m);
            && block.Some? && block.value.stack == m.stack
            && (forall v: Value | v < |plan.body.definitions| && Available(plan, v, n) ::
                  Get(block.value.locals, Slot(plan, v)) == Lookup(plan.body, end, v))
            && Exec(plan.body, meaning, Code(plan, plan.body.exit), block.value)
               == Some(block.value.(stack := m.stack + Lookups(plan.body, end, plan.body.exit), world := end.world))
  {
    hide Code, Executed, Step, At;
    var n := |plan.body.inputs|;
    var c := RunStart(plan.view.inline, n);
    BlockStart(plan, meaning, start);
    BlockSound(plan, meaning, start, m.stack, n, m);
    var block := Exec(plan.body, meaning, BlockCode(plan, n), m).value;
    ReadyAcrossRun(plan, meaning, start, block.locals, c, n);
    InputsObtainable(plan, n, c);
    CodeSound(plan, meaning, start, plan.body.exit, c, n, block);
  }

  lemma BlockStart(plan: Plan, meaning: Meaning, start: Env)
    requires plan.Valid() && Typed(plan.body, meaning)
    ensures At(plan.body, meaning, start, 0) == start
  {}

  // ----- locals that a block leaves alone

  lemma {:induction false} ExecFrame(
      body: Body, meaning: Meaning, code: seq<Instruction>, m: Machine, slot: nat)
    requires LocalSet(slot) !in code && Exec(body, meaning, code, m).Some?
    ensures Get(Exec(body, meaning, code, m).value.locals, slot) == Get(m.locals, slot)
    decreases |code|
  {
    if code != [] {
      var last := code[|code| - 1];
      assert last in code && last != LocalSet(slot);
      ExecFrame(body, meaning, code[..|code| - 1], m, slot);
      StepFrame(body, meaning, Exec(body, meaning, code[..|code| - 1], m).value, last, slot);
    }
  }

  lemma StepFrame(body: Body, meaning: Meaning, m: Machine, i: Instruction, slot: nat)
    requires i != LocalSet(slot) && Step(body, meaning, m, i).Some?
    ensures Get(Step(body, meaning, m, i).value.locals, slot) == Get(m.locals, slot)
  {}

  lemma {:induction false} CodeSetsNothing(plan: Plan, values: seq<Value>, slot: nat)
    requires plan.Valid() && Readable(plan, values)
    ensures LocalSet(slot) !in Code(plan, values)
    decreases MaxHeight(plan.view, values), |values|
  {
    if values != [] {
      var v, prefix := values[|values| - 1], values[..|values| - 1];
      assert v in values && (forall u <- prefix :: u in values);
      MaxHeightBound(plan.view, prefix, MaxHeight(plan.view, values));
      CodeSetsNothing(plan, prefix, slot);
      if Inlined(plan.view, v) {
        var p := plan.view.producer[v].value;
        InputsLower(plan.body, plan.view, p);
        CodeSetsNothing(plan, plan.body.inputs[p], slot);
      }
    }
  }

  // A result that is used and belongs to an item in place before p.
  ghost predicate KeepsIn(plan: Plan, p: nat, slot: nat)
    requires plan.Valid() && p <= |plan.body.inputs|
  {
    exists q, v | 0 <= q < p && !plan.view.inline[q] && v in plan.body.results[q] ::
      v < |plan.locals| == |plan.view.uses| && plan.view.uses[v] != 0 && plan.locals[v] == Some(slot)
  }

  lemma {:induction false} StoreSets(plan: Plan, results: seq<Value>, slot: nat)
    requires |plan.view.uses| == |plan.locals|
    requires forall v <- results :: v < |plan.locals| && plan.locals[v].Some?
    requires LocalSet(slot) in StoreCode(plan, results)
    ensures exists v <- results :: plan.view.uses[v] != 0 && plan.locals[v] == Some(slot)
    decreases |results|
  {
    if results != [] {
      var v, prefix := results[|results| - 1], results[..|results| - 1];
      assert v in results && (forall u <- prefix :: u in results);
      if !(plan.view.uses[v] != 0 && plan.locals[v] == Some(slot)) {
        StoreSets(plan, prefix, slot);
      }
    }
  }

  lemma {:induction false} BlockSets(plan: Plan, p: nat, slot: nat)
    requires plan.Valid() && p <= |plan.body.inputs| && LocalSet(slot) in BlockCode(plan, p)
    ensures KeepsIn(plan, p, slot)
    decreases p
  {
    hide Code, StoreCode, DistinctLocals;
    if p != 0 {
      if LocalSet(slot) in BlockCode(plan, p - 1) {
        BlockSets(plan, p - 1, slot);
      } else {
        ResultsStorable(plan, p - 1);
        ItemSetsNothing(plan, p - 1, slot);
        StoreSets(plan, plan.body.results[p - 1], slot);
      }
    }
  }

  lemma ItemSetsNothing(plan: Plan, p: nat, slot: nat)
    requires plan.Valid() && p < |plan.body.inputs|
    ensures LocalSet(slot) !in ItemCode(plan, p)
  {
    CodeSetsNothing(plan, plan.body.inputs[p], slot);
  }

  /** A block changes no local but those of its used results that stay in place: what nothing uses is dropped. */
  lemma BlockFrame(plan: Plan, meaning: Meaning, m: Machine, slot: nat)
    requires plan.Valid() && !KeepsIn(plan, |plan.body.inputs|, slot)
    requires Exec(plan.body, meaning, BlockCode(plan, |plan.body.inputs|), m).Some?
    ensures Get(Exec(plan.body, meaning, BlockCode(plan, |plan.body.inputs|), m).value.locals, slot)
            == Get(m.locals, slot)
  {
    if LocalSet(slot) in BlockCode(plan, |plan.body.inputs|) { BlockSets(plan, |plan.body.inputs|, slot); }
    ExecFrame(plan.body, meaning, BlockCode(plan, |plan.body.inputs|), m, slot);
  }
}

/** Leaving a block for another: all arguments are on the stack before any parameter of the target is
    overwritten, so that a loop may exchange the values it carries. */
module Edges {
  import opened Wrappers
  import opened Operands
  import opened Emission
  import opened EmitSemantics
  import opened Encoding

  // Different values with locals of their own, one for each argument.
  ghost predicate Targets(plan: Plan, parameters: seq<Value>) {
    && |parameters| == |plan.body.exit|
    && (forall v <- parameters :: v < |plan.locals| && plan.locals[v].Some?)
    && forall i, j | 0 <= i < j < |parameters| :: parameters[i] != parameters[j]
  }

  // The stack comes off last to first.
  function SetCode(plan: Plan, parameters: seq<Value>): seq<Instruction>
    requires forall v <- parameters :: v < |plan.locals| && plan.locals[v].Some?
  {
    if parameters == [] then []
    else
      var v, prefix := parameters[|parameters| - 1], parameters[..|parameters| - 1];
      assert v in parameters && (forall u <- prefix :: u in parameters);
      [LocalSet(plan.locals[v].value)] + SetCode(plan, prefix)
  }

  function Assigned(plan: Plan, locals: map<nat, int>, parameters: seq<Value>, outs: seq<int>): map<nat, int>
    requires |outs| == |parameters|
    requires forall v <- parameters :: v < |plan.locals| && plan.locals[v].Some?
    decreases |parameters|
  {
    if parameters == [] then locals
    else
      var last := |parameters| - 1;
      var v := parameters[last];
      assert v in parameters && (forall u <- parameters[..last] :: u in parameters);
      Assigned(plan, locals[Slot(plan, v) := outs[last]], parameters[..last], outs[..last])
  }

  lemma {:induction false} SetSound(
      plan: Plan, meaning: Meaning, parameters: seq<Value>, outs: seq<int>, m: Machine, base: seq<int>)
    requires |outs| == |parameters| && m.stack == base + outs
    requires forall v <- parameters :: v < |plan.locals| && plan.locals[v].Some?
    ensures Exec(plan.body, meaning, SetCode(plan, parameters), m)
            == Some(m.(stack := base, locals := Assigned(plan, m.locals, parameters, outs)))
    decreases |parameters|
  {
    hide Step;
    if parameters == [] {
      assert base + outs == base;
    } else {
      var last := |parameters| - 1;
      var v := parameters[last];
      assert v in parameters && (forall u <- parameters[..last] :: u in parameters);
      var i := LocalSet(plan.locals[v].value);
      assert outs == outs[..last] + [outs[last]];
      var next := SetOne(plan, meaning, v, outs[..last], outs[last], m, base);
      SetSound(plan, meaning, parameters[..last], outs[..last], next, base);
      ExecSnoc(plan.body, meaning, [], i, m);
      assert [] + [i] == [i];
      ExecConcat(plan.body, meaning, [i], SetCode(plan, parameters[..last]), m);
    }
  }

  lemma SetOne(plan: Plan, meaning: Meaning, v: Value, below: seq<int>, top: int, m: Machine, base: seq<int>)
    returns (next: Machine)
    requires v < |plan.locals| && plan.locals[v].Some? && m.stack == base + (below + [top])
    ensures next == m.(stack := base + below, locals := m.locals[Slot(plan, v) := top])
    ensures Step(plan.body, meaning, m, LocalSet(plan.locals[v].value)) == Some(next)
  {
    next := m.(stack := base + below, locals := m.locals[Slot(plan, v) := top]);
    assert m.stack[..|m.stack| - 1] == base + below;
  }

  lemma {:induction false} AssignedOther(
      plan: Plan, locals: map<nat, int>, parameters: seq<Value>, outs: seq<int>, slot: nat)
    requires |outs| == |parameters|
    requires forall v <- parameters :: v < |plan.locals| && plan.locals[v].Some? && Slot(plan, v) != slot
    ensures Get(Assigned(plan, locals, parameters, outs), slot) == Get(locals, slot)
    decreases |parameters|
  {
    if parameters != [] {
      var last := |parameters| - 1;
      var v := parameters[last];
      assert v in parameters && (forall u <- parameters[..last] :: u in parameters);
      AssignedOther(plan, locals[Slot(plan, v) := outs[last]], parameters[..last], outs[..last], slot);
    }
  }

  lemma {:induction false} AssignedAt(
      plan: Plan, locals: map<nat, int>, parameters: seq<Value>, outs: seq<int>, k: nat)
    requires |outs| == |parameters| && k < |parameters|
    requires forall v <- parameters :: v < |plan.locals| && plan.locals[v].Some?
    requires forall i, j | 0 <= i < j < |parameters| :: parameters[i] != parameters[j]
    requires DistinctLocals(plan.body.definitions, plan.locals)
    ensures parameters[k] in parameters
    ensures Get(Assigned(plan, locals, parameters, outs), Slot(plan, parameters[k])) == outs[k]
    decreases |parameters|
  {
    var last := |parameters| - 1;
    var v, prefix := parameters[last], parameters[..last];
    assert v in parameters && parameters[k] in parameters && (forall u <- prefix :: u in parameters);
    var next := locals[Slot(plan, v) := outs[last]];
    if k < last {
      AssignedAt(plan, next, prefix, outs[..last], k);
    } else {
      OthersApart(plan, prefix, v);
      AssignedOther(plan, next, prefix, outs[..last], Slot(plan, v));
    }
  }

  lemma OthersApart(plan: Plan, values: seq<Value>, v: Value)
    requires DistinctLocals(plan.body.definitions, plan.locals)
    requires v < |plan.locals| && plan.locals[v].Some? && v !in values
    requires forall u <- values :: u < |plan.locals| && plan.locals[u].Some?
    ensures forall u <- values :: Slot(plan, u) != Slot(plan, v)
  {
    forall u | u in values ensures Slot(plan, u) != Slot(plan, v) {
      if u < v { assert plan.locals[u].value != plan.locals[v].value; }
      else { assert plan.locals[v].value != plan.locals[u].value; }
    }
  }

  ghost predicate Holds(plan: Plan, locals: map<nat, int>, v: Value, x: int) {
    v < |plan.locals| && plan.locals[v].Some? && Get(locals, Slot(plan, v)) == x
  }

  // Every parameter holds its argument, and every other local what it held before.
  ghost predicate Delivered(
      plan: Plan, parameters: seq<Value>, outs: seq<int>, before: map<nat, int>, after: map<nat, int>)
  {
    && |outs| == |parameters|
    && (forall k | 0 <= k < |parameters| :: Holds(plan, after, parameters[k], outs[k]))
    && (forall slot: nat | forall v <- parameters :: v < |plan.locals| && plan.locals[v] != Some(slot) ::
          Get(after, slot) == Get(before, slot))
  }

  lemma AssignedDelivers(plan: Plan, locals: map<nat, int>, parameters: seq<Value>, outs: seq<int>)
    requires plan.Valid() && Targets(plan, parameters) && |outs| == |parameters|
    ensures Delivered(plan, parameters, outs, locals, Assigned(plan, locals, parameters, outs))
  {
    var after := Assigned(plan, locals, parameters, outs);
    forall k | 0 <= k < |parameters| ensures Holds(plan, after, parameters[k], outs[k]) {
      AssignedAt(plan, locals, parameters, outs, k);
    }
    forall slot: nat | forall v <- parameters :: v < |plan.locals| && plan.locals[v] != Some(slot)
      ensures Get(after, slot) == Get(locals, slot)
    {
      AssignedOther(plan, locals, parameters, outs, slot);
    }
  }

  /** After the arguments and the stores, the operand stack is as before the block, every parameter holds its
      argument as the block left it, whatever parameters the arguments are, and every other local is untouched. */
  lemma EdgeSound(plan: Plan, meaning: Meaning, start: Env, parameters: seq<Value>, m: Machine)
    requires plan.Valid() && Ordered(plan.body, plan.view) && Typed(plan.body, meaning)
    requires m.world == start.world && Ready(plan, m.locals, start, 0) && Targets(plan, parameters)
    ensures Readable(plan, plan.body.exit)
    ensures var end := At(plan.body, meaning, start, |plan.body.inputs|);
            var block := Exec(plan.body, meaning, BlockCode(plan, |plan.body.inputs|), m);
            && block.Some?
            && var left := Exec(plan.body, meaning, EdgeCode(plan, parameters), block.value);
            && left.Some? && left.value.stack == m.stack && left.value.world == end.world
            && Delivered(plan, parameters, Lookups(plan.body, end, plan.body.exit),
                         block.value.locals, left.value.locals)
  {
    BlockThenExit(plan, meaning, start, m);
    hide Ready, At, Code, BlockCode, Exec, SetCode, Assigned, Delivered, Ordered, Shaped, DistinctLocals;
    var end := At(plan.body, meaning, start, |plan.body.inputs|);
    var block := Exec(plan.body, meaning, BlockCode(plan, |plan.body.inputs|), m).value;
    var outs := Lookups(plan.body, end, plan.body.exit);
    var full := block.(stack := m.stack + outs, world := end.world);
    ExecConcat(plan.body, meaning, Code(plan, plan.body.exit), SetCode(plan, parameters), block);
    SetSound(plan, meaning, parameters, outs, full, m.stack);
    AssignedDelivers(plan, block.locals, parameters, outs);
  }

  ghost function EdgeCode(plan: Plan, parameters: seq<Value>): seq<Instruction>
    requires plan.Valid() && Readable(plan, plan.body.exit) && Targets(plan, parameters)
  {
    Code(plan, plan.body.exit) + SetCode(plan, parameters)
  }

  /** In particular a parameter whose argument is another parameter takes the value that one held when the
      block was done, though its local is overwritten too. */
  lemma EdgeExchanges(plan: Plan, meaning: Meaning, start: Env, parameters: seq<Value>, m: Machine, k: nat, l: nat)
    requires plan.Valid() && Ordered(plan.body, plan.view) && Typed(plan.body, meaning)
    requires m.world == start.world && Ready(plan, m.locals, start, 0) && Targets(plan, parameters)
    requires k < |parameters| && l < |parameters| && plan.body.exit[k] == parameters[l]
    requires parameters[l] < |plan.body.definitions| && Available(plan, parameters[l], |plan.body.inputs|)
    ensures Readable(plan, plan.body.exit) && parameters[l] in parameters
    ensures var block := Exec(plan.body, meaning, BlockCode(plan, |plan.body.inputs|), m);
            && block.Some?
            && var left := Exec(plan.body, meaning, EdgeCode(plan, parameters), block.value);
            && left.Some?
            && Holds(plan, left.value.locals, parameters[k], Get(block.value.locals, Slot(plan, parameters[l])))
  {
    hide Ready, At, Code, BlockCode, Exec, EdgeCode, Ordered, DistinctLocals, Available;
    BlockThenExit(plan, meaning, start, m);
    EdgeSound(plan, meaning, start, parameters, m);
    LookupsAt(plan.body, At(plan.body, meaning, start, |plan.body.inputs|), plan.body.exit, k);
  }

  /** The arguments in order, then the stores in reverse. */
  method Edge(plan: Plan, parameters: seq<Value>) returns (code: seq<Instruction>)
    requires plan.Valid() && Readable(plan, plan.body.exit) && Targets(plan, parameters)
    ensures code == EdgeCode(plan, parameters)
  {
    hide Shaped, DistinctLocals, Code, SetCode;
    var arguments := ExitOperands(plan);
    code := arguments;
    assert parameters[..|parameters|] == parameters;
    for k := |parameters| downto 0
      invariant forall v <- parameters[..k] :: v in parameters
      invariant arguments + SetCode(plan, parameters) == code + SetCode(plan, parameters[..k])
    {
      var parameter := parameters[k];
      SetSnoc(plan, parameters[..k], parameter, parameters[..k + 1]);
      code := code + [LocalSet(plan.locals[parameter].value)];
    }
    SetNothing(plan);
  }

  lemma SetSnoc(plan: Plan, prefix: seq<Value>, v: Value, parameters: seq<Value>)
    requires parameters == prefix + [v]
    requires forall u <- parameters :: u < |plan.locals| && plan.locals[u].Some?
    ensures (forall u <- prefix :: u in parameters) && v in parameters
    ensures SetCode(plan, parameters) == [LocalSet(plan.locals[v].value)] + SetCode(plan, prefix)
  {
    assert parameters[..|prefix|] == prefix;
  }

  lemma SetNothing(plan: Plan)
    ensures SetCode(plan, []) == []
  {}
}

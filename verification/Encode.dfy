/** Encoding one block from its graph: locals, operand view, items and exit operands. */
module Encoding {
  import opened Operands
  import opened OperandViews
  import opened Emission
  import opened EmitSemantics

  // The operands of a returning exit, one after another.
  method ExitOperands(plan: Plan) returns (code: seq<Instruction>)
    requires plan.Valid() && Readable(plan, plan.body.exit)
    ensures code == Code(plan, plan.body.exit)
  {
    code := [];
    assert plan.body.exit[..|plan.body.exit|] == plan.body.exit;
    for k := 0 to |plan.body.exit|
      invariant Readable(plan, plan.body.exit[..k])
      invariant code == Code(plan, plan.body.exit[..k])
    {
      hide Shaped, DistinctLocals, Code;
      var v := plan.body.exit[k];
      assert v in plan.body.exit;
      assert plan.body.exit[..k + 1] == plan.body.exit[..k] + [v];
      CodeSnoc(plan, plan.body.exit[..k], v);
      var more := Expand(plan, Operand(v));
      code := code + more;
    }
  }

  // What the caller and earlier blocks provide: parameter c in local c, and each value of another block in
  // the local that its place among the function's computed values gives it.
  ghost predicate StartsAs(body: Body, parameters: nat, start: Env, m: Machine) {
    && m.world == start.world
    && forall v | 0 <= v < |body.definitions| ::
         match body.definitions[v]
         case Literal(_) => true
         case EntryParameter(component) => Get(m.locals, component) == Lookup(body, start, v)
         case Other =>
           Elsewhere(body, v) ==>
             Get(m.locals, parameters + OthersBefore(body.definitions, v)) == Lookup(body, start, v)
  }

  ghost predicate Elsewhere(body: Body, v: Value) {
    forall p | 0 <= p < |body.results| :: v !in body.results[p]
  }

  /** Started by that convention, the code ends with the exit's operands on an otherwise untouched stack and
      with the world that the items leave when run in order. */
  ghost predicate RunsAsBlock(
      body: Body, parameters: nat, code: seq<Instruction>, meaning: Meaning, start: Env, m: Machine)
    requires body.Valid()
  {
    Typed(body, meaning) && StartsAs(body, parameters, start, m) ==>
      var end := At(body, meaning, start, |body.inputs|);
      var ran := Exec(body, meaning, code, m);
      && ran.Some? && ran.value.world == end.world
      && ran.value.stack == m.stack + Lookups(body, end, body.exit)
  }

  lemma StartsReady(plan: Plan, parameters: nat, start: Env, m: Machine)
    requires plan.Valid() && StartsAs(plan.body, parameters, start, m)
    requires forall v | 0 <= v < |plan.locals| :: plan.locals[v] == LocalOf(plan.body.definitions, parameters, v)
    ensures Ready(plan, m.locals, start, 0)
  {
    hide CountsUses, IsProducer, Elsewhere, OthersBefore;
    forall v: Value | v < |plan.body.definitions| && Available(plan, v, 0)
      ensures Get(m.locals, Slot(plan, v)) == Lookup(plan.body, start, v)
    {
      ElsewhereIfFirst(plan, v);
    }
  }

  // What is available before the first item comes from elsewhere.
  lemma ElsewhereIfFirst(plan: Plan, v: Value)
    requires plan.Valid() && v < |plan.body.definitions| && Available(plan, v, 0)
    ensures Elsewhere(plan.body, v)
  {
    hide CountsUses, DistinctLocals;
    assert plan.view.producer[v].None?;
  }

  /** From a valid block to code that runs as the block does, whatever its items mean, in the locals that the
      calling convention names. */
  method EncodeBlock(body: Body, parameters: nat) returns (plan: Plan, items: seq<Instruction>, exit: seq<Instruction>)
    requires body.Valid() && EntryParameters(body.definitions, parameters)
    ensures plan.body == body && plan.Valid() && Ordered(body, plan.view)
    ensures forall v | 0 <= v < |plan.locals| :: plan.locals[v] == LocalOf(body.definitions, parameters, v)
    ensures items == BlockCode(plan, |body.inputs|)
    ensures Readable(plan, body.exit) && exit == Code(plan, body.exit)
    ensures forall meaning: Meaning, start: Env, m: Machine ::
              RunsAsBlock(body, parameters, items + exit, meaning, start, m)
  {
    var view := NewView(body);
    var locals, slots := AssignLocals(body.definitions, parameters);
    plan := Plan(body, view, locals);
    items := BlockItems(plan);
    exit := ExitOperands(plan);
    forall meaning: Meaning, start: Env, m: Machine
      ensures RunsAsBlock(body, parameters, items + exit, meaning, start, m)
    {
      if Typed(body, meaning) && StartsAs(body, parameters, start, m) {
        StartsReady(plan, parameters, start, m);
        BlockThenExit(plan, meaning, start, m);
        ExecConcat(body, meaning, items, exit, m);
      }
    }
  }
}

/** Forward Wasm emission of one block: an explicit work stack linearizes the operand graph, and
    running the code on a stack machine computes what the items compute, in their order. */
module Emission {
  import opened Wrappers
  import opened Operands

  datatype Instruction =
    | Const(bits: int)
    | LocalGet(slot: nat)
    | LocalSet(slot: nat)
    | Drop
    | Perform(item: nat)

  // ----- locals

  /** Entry parameters keep their component, literals need no local, and every other value gets
      the next slot behind the parameters. */
  method AssignLocals(definitions: seq<Definition>, parameters: nat) returns (locals: seq<Option<nat>>, slots: nat)
    requires EntryParameters(definitions, parameters)
    ensures DistinctLocals(definitions, locals)
    ensures forall v | 0 <= v < |definitions| :: locals[v] == LocalOf(definitions, parameters, v)
    ensures slots == OthersBefore(definitions, |definitions|)
  {
    locals := seq(|definitions|, _ => None);
    for v := 0 to |definitions|
      invariant |locals| == |definitions|
      invariant forall u | 0 <= u < |definitions| :: locals[u] ==
                  if u < v && definitions[u].EntryParameter? then Some(definitions[u].component) else None
    {
      if definitions[v].EntryParameter? {
        locals := locals[v := Some(definitions[v].component)];
      }
    }
    slots := 0;
    for v := 0 to |definitions|
      invariant |locals| == |definitions|
      invariant forall u | 0 <= u < |definitions| && !definitions[u].Other? :: locals[u] ==
                  if definitions[u].EntryParameter? then Some(definitions[u].component) else None
      invariant forall u | 0 <= u < |definitions| && definitions[u].Other? ::
                  locals[u] == if u < v then LocalOf(definitions, parameters, u) else None
      invariant slots == OthersBefore(definitions, v)
    {
      if locals[v].None? && !definitions[v].Literal? {
        locals := locals[v := Some(parameters + slots)];
        slots := slots + 1;
      }
    }
    LocalsDistinct(definitions, parameters, locals);
  }

  // Computed values among the first `n`, each of which takes one slot.
  function OthersBefore(definitions: seq<Definition>, n: nat): nat
    requires n <= |definitions|
  {
    if n == 0 then 0
    else OthersBefore(definitions, n - 1) + if definitions[n - 1].Other? then 1 else 0
  }

  /** The calling convention: parameters keep their component, and computed values follow them in order. */
  function LocalOf(definitions: seq<Definition>, parameters: nat, v: Value): Option<nat>
    requires v < |definitions|
  {
    match definitions[v]
    case Literal(_) => None
    case EntryParameter(component) => Some(component)
    case Other => Some(parameters + OthersBefore(definitions, v))
  }

  lemma {:induction false} OthersGrow(definitions: seq<Definition>, v: nat, w: nat)
    requires v < w <= |definitions| && definitions[v].Other?
    ensures OthersBefore(definitions, v) < OthersBefore(definitions, w)
    decreases w
  {
    if v < w - 1 { OthersGrow(definitions, v, w - 1); }
  }

  lemma LocalsDistinct(definitions: seq<Definition>, parameters: nat, locals: seq<Option<nat>>)
    requires EntryParameters(definitions, parameters) && |locals| == |definitions|
    requires forall v | 0 <= v < |definitions| :: locals[v] == LocalOf(definitions, parameters, v)
    ensures DistinctLocals(definitions, locals)
  {
    forall v, w | 0 <= v < w < |locals| && locals[v].Some? && locals[w].Some?
      ensures locals[v].value != locals[w].value
    {
      if definitions[v].Other? && definitions[w].Other? { OthersGrow(definitions, v, w); }
    }
  }

  // What the function's entry block declares.
  ghost predicate EntryParameters(definitions: seq<Definition>, parameters: nat) {
    && (forall v | 0 <= v < |definitions| && definitions[v].EntryParameter? :: definitions[v].component < parameters)
    && (forall v, w | 0 <= v < w < |definitions| && definitions[v].EntryParameter? && definitions[w].EntryParameter? ::
          definitions[v].component != definitions[w].component)
  }

  /** Every value that is not a literal has a local of its own. */
  ghost predicate DistinctLocals(definitions: seq<Definition>, locals: seq<Option<nat>>) {
    && |locals| == |definitions|
    && (forall v | 0 <= v < |locals| :: locals[v].None? <==> definitions[v].Literal?)
    && (forall v, w | 0 <= v < w < |locals| && locals[v].Some? && locals[w].Some? :: locals[v].value != locals[w].value)
  }

  // ----- code, by recursion over operands

  datatype Plan = Plan(body: Body, view: View, locals: seq<Option<nat>>) {
    ghost predicate Valid() {
      Shaped(body, view) && DistinctLocals(body.definitions, locals)
    }

    // How a value that is not recomputed in place is read.
    function Read(v: Value): Instruction
      requires v < |body.definitions| && v < |locals|
      requires body.definitions[v].Literal? || locals[v].Some?
    {
      if body.definitions[v].Literal? then Const(body.definitions[v].bits) else LocalGet(locals[v].value)
    }
  }

  // Consumed values are values of the function.
  ghost predicate Readable(plan: Plan, values: seq<Value>) {
    plan.body.Known(values)
  }

  /** Code placing some values on the stack: each operand in turn, every producer after its inputs. */
  ghost function Code(plan: Plan, values: seq<Value>): seq<Instruction>
    requires plan.Valid() && Readable(plan, values)
    decreases MaxHeight(plan.view, values), |values|
  {
    if values == [] then []
    else
      var v, prefix := values[|values| - 1], values[..|values| - 1];
      assert v in values && (forall u <- prefix :: u in values);
      MaxHeightBound(plan.view, prefix, MaxHeight(plan.view, values));
      Code(plan, prefix)
      + if !Inlined(plan.view, v) then [plan.Read(v)]
        else
          var p := plan.view.producer[v].value;
          InputsLower(plan.body, plan.view, p);
          Code(plan, plan.body.inputs[p]) + [Perform(p)]
  }

  ghost function ItemCode(plan: Plan, p: nat): seq<Instruction>
    requires plan.Valid() && p < |plan.body.inputs|
  {
    Code(plan, plan.body.inputs[p]) + [Perform(p)]
  }

  ghost function ValueCode(plan: Plan, v: Value): seq<Instruction>
    requires plan.Valid() && v < |plan.body.definitions|
  {
    if !Inlined(plan.view, v) then [plan.Read(v)] else ItemCode(plan, plan.view.producer[v].value)
  }

  lemma CodeSnoc(plan: Plan, values: seq<Value>, v: Value)
    requires plan.Valid() && Readable(plan, values) && v < |plan.body.definitions|
    ensures Readable(plan, values + [v])
    ensures Code(plan, values + [v]) == Code(plan, values) + ValueCode(plan, v)
  {
    hide Shaped, DistinctLocals;
    assert forall u <- values + [v] :: u in values || u == v;
    assert (values + [v])[..|values|] == values;
  }

  // ----- the work stack

  datatype Task = Operand(value: Value) | Item(item: nat) | Finish(item: nat)

  ghost predicate Doable(plan: Plan, task: Task) {
    match task
    case Operand(v) => v < |plan.body.definitions|
    case Item(p) => p < |plan.body.inputs|
    case Finish(p) => p < |plan.body.inputs|
  }

  ghost function TaskCode(plan: Plan, task: Task): seq<Instruction>
    requires plan.Valid() && Doable(plan, task)
  {
    match task
    case Operand(v) => ValueCode(plan, v)
    case Item(p) => ItemCode(plan, p)
    case Finish(p) => [Perform(p)]
  }

  // The code a work stack still stands for: its top comes first.
  ghost function StackCode(plan: Plan, pending: seq<Task>): seq<Instruction>
    requires plan.Valid() && forall task <- pending :: Doable(plan, task)
    decreases |pending|
  {
    if pending == [] then []
    else
      var top, below := pending[|pending| - 1], pending[..|pending| - 1];
      assert top in pending && (forall task <- below :: task in pending);
      TaskCode(plan, top) + StackCode(plan, below)
  }

  // Operands pushed in reverse order come off the stack in order.
  function Reversed(values: seq<Value>): seq<Task> {
    if values == [] then [] else [Operand(values[|values| - 1])] + Reversed(values[..|values| - 1])
  }

  lemma {:induction false} ReversedDoable(plan: Plan, values: seq<Value>)
    requires Readable(plan, values)
    ensures forall task <- Reversed(values) :: Doable(plan, task)
    decreases |values|
  {
    if values != [] {
      var v, prefix := values[|values| - 1], values[..|values| - 1];
      assert v in values && (forall u <- prefix :: u in values);
      ReversedDoable(plan, prefix);
    }
  }

  // Turns left before a task is done: an operand is looked up, unfolded and finished.
  ghost function TaskCost(plan: Plan, task: Task): nat
    requires plan.Valid() && Doable(plan, task)
  {
    match task
    case Operand(v) => 3 * |ValueCode(plan, v)|
    case Item(p) => 3 * |ItemCode(plan, p)| - 1
    case Finish(p) => 1
  }

  ghost function StackCost(plan: Plan, pending: seq<Task>): nat
    requires plan.Valid() && forall task <- pending :: Doable(plan, task)
    decreases |pending|
  {
    if pending == [] then 0
    else
      var top, below := pending[|pending| - 1], pending[..|pending| - 1];
      assert top in pending && (forall task <- below :: task in pending);
      TaskCost(plan, top) + StackCost(plan, below)
  }

  lemma {:induction false} StackConcat(plan: Plan, below: seq<Task>, above: seq<Task>)
    requires plan.Valid()
    requires (forall task <- below :: Doable(plan, task)) && (forall task <- above :: Doable(plan, task))
    ensures forall task <- below + above :: Doable(plan, task)
    ensures StackCode(plan, below + above) == StackCode(plan, above) + StackCode(plan, below)
    ensures StackCost(plan, below + above) == StackCost(plan, above) + StackCost(plan, below)
    decreases |above|
  {
    hide Shaped, DistinctLocals, Doable, Code, TaskCode, TaskCost, StackCode, StackCost;
    if above == [] {
      assert below + above == below;
      StackEmpty(plan);
    } else {
      var top, rest := above[|above| - 1], above[..|above| - 1];
      assert top in above && (forall task <- rest :: task in above);
      StackConcat(plan, below, rest);
      assert (below + above)[..|below + above| - 1] == below + rest;
      PopTask(plan, above);
      PopTask(plan, below + above);
    }
  }

  lemma {:induction false} ReversedCode(plan: Plan, values: seq<Value>)
    requires plan.Valid() && Readable(plan, values)
    ensures forall task <- Reversed(values) :: Doable(plan, task)
    ensures StackCode(plan, Reversed(values)) == Code(plan, values)
    ensures StackCost(plan, Reversed(values)) == 3 * |Code(plan, values)|
    decreases |values|
  {
    hide Code, StackCode, StackCost, Shaped, DistinctLocals;
    ReversedDoable(plan, values);
    if values == [] {
      ReversedNothing(plan);
    } else {
      var v, prefix := values[|values| - 1], values[..|values| - 1];
      assert v in values && (forall u <- prefix :: u in values);
      ReversedCode(plan, prefix);
      StackOne(plan, Operand(v));
      StackConcat(plan, [Operand(v)], Reversed(prefix));
      assert values == prefix + [v];
      CodeSnoc(plan, prefix, v);
    }
  }

  lemma ReversedNothing(plan: Plan)
    requires plan.Valid()
    ensures Reversed([]) == [] && StackCode(plan, []) == [] && StackCost(plan, []) == 0 && Code(plan, []) == []
  {}

  lemma StackOne(plan: Plan, task: Task)
    requires plan.Valid() && Doable(plan, task)
    ensures StackCode(plan, [task]) == TaskCode(plan, task)
    ensures StackCost(plan, [task]) == TaskCost(plan, task)
  {
    assert [task][..0] == [];
    assert StackCode(plan, [task][..0]) == [] && StackCost(plan, [task][..0]) == 0;
  }

  // Opening an item: its operands on top of its own instruction.
  lemma OpenTask(plan: Plan, below: seq<Task>, p: nat)
    requires plan.Valid() && p < |plan.body.inputs| && forall task <- below :: Doable(plan, task)
    ensures var unfolded := below + [Finish(p)] + Reversed(plan.body.inputs[p]);
            && (forall task <- unfolded :: Doable(plan, task))
            && StackCode(plan, unfolded) == ItemCode(plan, p) + StackCode(plan, below)
            && StackCost(plan, unfolded) == TaskCost(plan, Item(p)) - 1 + StackCost(plan, below)
  {
    hide Code, StackCode, StackCost, Reversed;
    InputsKnown(plan, p);
    ReversedCode(plan, plan.body.inputs[p]);
    StackOne(plan, Finish(p));
    StackConcat(plan, below, [Finish(p)]);
    StackConcat(plan, below + [Finish(p)], Reversed(plan.body.inputs[p]));
    SeqAssociative(Code(plan, plan.body.inputs[p]), [Perform(p)], StackCode(plan, below));
  }

  lemma InputsKnown(plan: Plan, p: nat)
    requires plan.Valid() && p < |plan.body.inputs|
    ensures plan.body.Known(plan.body.inputs[p])
  {}

  // What popping one task leaves to do.
  lemma PopTask(plan: Plan, pending: seq<Task>)
    requires plan.Valid() && pending != [] && forall task <- pending :: Doable(plan, task)
    ensures var top, below := pending[|pending| - 1], pending[..|pending| - 1];
            && Doable(plan, top) && (forall task <- below :: Doable(plan, task))
            && StackCode(plan, pending) == TaskCode(plan, top) + StackCode(plan, below)
            && StackCost(plan, pending) == TaskCost(plan, top) + StackCost(plan, below)
  {
    assert pending[|pending| - 1] in pending && (forall task <- pending[..|pending| - 1] :: task in pending);
  }

  // What one turn of the work stack does.
  ghost predicate Turn(plan: Plan, pending: seq<Task>, after: seq<Task>, emitted: seq<Instruction>)
    requires plan.Valid() && forall task <- pending :: Doable(plan, task)
  {
    && (forall task <- after :: Doable(plan, task))
    && StackCode(plan, pending) == emitted + StackCode(plan, after)
    && StackCost(plan, after) < StackCost(plan, pending)
  }

  method Take(plan: Plan, pending: seq<Task>) returns (after: seq<Task>, emitted: seq<Instruction>)
    requires plan.Valid() && pending != [] && forall task <- pending :: Doable(plan, task)
    ensures Turn(plan, pending, after, emitted)
  {
    hide Shaped, DistinctLocals, Code, StackCode, StackCost;
    PopTask(plan, pending);
    var task := pending[|pending| - 1];
    after := pending[..|pending| - 1];
    emitted := [];
    match task {
      case Operand(value) =>
        ReadsOrInlines(plan, value);
        if plan.body.definitions[value].Literal? {
          emitted := [Const(plan.body.definitions[value].bits)];
        } else {
          var item := plan.view.producer[value];
          if item.Some? && plan.view.inline[item.value] {
            StackOne(plan, Item(item.value));
            StackConcat(plan, after, [Item(item.value)]);
            after := after + [Item(item.value)];
          } else {
            emitted := [LocalGet(plan.locals[value].value)];
          }
        }
      case Item(item) =>
        OpenTask(plan, after, item);
        after := after + [Finish(item)] + Reversed(plan.body.inputs[item]);
      case Finish(item) =>
        emitted := [Perform(item)];
    }
  }

  lemma ReadsOrInlines(plan: Plan, v: Value)
    requires plan.Valid() && v < |plan.body.definitions|
    ensures |plan.view.producer| == |plan.locals| == |plan.body.definitions|
    ensures plan.body.definitions[v].Literal? ==> plan.view.producer[v].None?
    ensures !plan.body.definitions[v].Literal? ==> plan.locals[v].Some?
    ensures plan.view.producer[v].Some? ==> plan.view.producer[v].value < |plan.view.inline| == |plan.body.inputs|
  {
    var made := plan.view.producer[v];
    if made.Some? {
      assert v in plan.body.results[made.value] && plan.body.Computed(plan.body.results[made.value]);
    }
  }

  /** The explicit work stack emits exactly the recursive code. */
  method Expand(plan: Plan, first: Task) returns (code: seq<Instruction>)
    requires plan.Valid() && Doable(plan, first)
    ensures code == TaskCode(plan, first)
  {
    hide Shaped, DistinctLocals, Code, TaskCode, StackCode, StackCost;
    var pending := [first];
    code := [];
    StackOne(plan, first);
    while pending != []
      invariant forall task <- pending :: Doable(plan, task)
      invariant TaskCode(plan, first) == code + StackCode(plan, pending)
      decreases StackCost(plan, pending)
    {
      var emitted;
      pending, emitted := Take(plan, pending);
      code := code + emitted;
    }
    StackEmpty(plan);
  }

  lemma StackEmpty(plan: Plan)
    requires plan.Valid()
    ensures StackCode(plan, []) == [] && StackCost(plan, []) == 0
  {}

  // ----- a block's code

  // Results come off the stack last to first, into their locals or nowhere.
  function StoreCode(plan: Plan, results: seq<Value>): seq<Instruction>
    requires |plan.view.uses| == |plan.locals|
    requires forall v <- results :: v < |plan.locals| && plan.locals[v].Some?
  {
    if results == [] then []
    else
      var v, prefix := results[|results| - 1], results[..|results| - 1];
      assert v in results && (forall u <- prefix :: u in results);
      [if plan.view.uses[v] == 0 then Drop else LocalSet(plan.locals[v].value)] + StoreCode(plan, prefix)
  }

  lemma ResultsStorable(plan: Plan, p: nat)
    requires plan.Valid() && p < |plan.body.inputs|
    ensures |plan.view.uses| == |plan.locals| && |plan.view.inline| == |plan.body.inputs|
    ensures forall v <- plan.body.results[p] :: v < |plan.locals| && plan.locals[v].Some?
  {
    assert plan.body.Known(plan.body.results[p]) && plan.body.Computed(plan.body.results[p]);
  }

  ghost function BlockCode(plan: Plan, p: nat): seq<Instruction>
    requires plan.Valid() && p <= |plan.body.inputs|
  {
    if p == 0 then []
    else
      ResultsStorable(plan, p - 1);
      BlockCode(plan, p - 1)
      + if plan.view.inline[p - 1] then []
        else ItemCode(plan, p - 1) + StoreCode(plan, plan.body.results[p - 1])
  }

  lemma StoreSnoc(plan: Plan, prefix: seq<Value>, v: Value, results: seq<Value>)
    requires |plan.view.uses| == |plan.locals| && results == prefix + [v]
    requires forall u <- results :: u < |plan.locals| && plan.locals[u].Some?
    ensures (forall u <- prefix :: u in results) && v in results
    ensures StoreCode(plan, results)
            == [if plan.view.uses[v] == 0 then Drop else LocalSet(plan.locals[v].value)] + StoreCode(plan, prefix)
  {
    assert results[..|prefix|] == prefix;
  }

  method StoreResults(plan: Plan, results: seq<Value>) returns (code: seq<Instruction>)
    requires |plan.view.uses| == |plan.locals|
    requires forall v <- results :: v < |plan.locals| && plan.locals[v].Some?
    ensures code == StoreCode(plan, results)
  {
    hide StoreCode;
    code := [];
    assert results[..|results|] == results;
    for k := |results| downto 0
      invariant forall v <- results[..k] :: v in results
      invariant StoreCode(plan, results) == code + StoreCode(plan, results[..k])
    {
      var result := results[k];
      StoreSnoc(plan, results[..k], result, results[..k + 1]);
      code := code + [if plan.view.uses[result] == 0 then Drop else LocalSet(plan.locals[result].value)];
    }
    StoreNothing(plan);
  }

  lemma StoreNothing(plan: Plan)
    requires |plan.view.uses| == |plan.locals|
    ensures StoreCode(plan, []) == []
  {}

  /** Each item that stays in place, followed by its stores; inlined items are left to their consumer. */
  method BlockItems(plan: Plan) returns (code: seq<Instruction>)
    requires plan.Valid()
    ensures code == BlockCode(plan, |plan.body.inputs|)
  {
    code := [];
    for p := 0 to |plan.body.inputs|
      invariant code == BlockCode(plan, p)
    {
      hide Shaped, DistinctLocals, Code, StoreCode, ItemCode;
      ResultsStorable(plan, p);
      if plan.view.inline[p] {
        continue;
      }
      var item := Expand(plan, Item(p));
      var stores := StoreResults(plan, plan.body.results[p]);
      code := code + item + stores;
      assert code == BlockCode(plan, p) + (item + stores);
    }
  }
}

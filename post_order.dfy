/** The evaluator `evaluate_point` was evidently meant to be, kept apart from
    the model of the code as written (module Evaluation): a post-order walk
    in which every binary node expands to the same three entries, its
    operator marker below its two operands, and resolved values wait on a
    stack of their own until their marker comes up. Eval is its recursive
    meaning; Run(seed) == Eval is proved by RunPending. */
module PostOrder {
  import opened Nodes

  /** A work-stack entry: a subtree still to evaluate, or an operator to
      apply to the two topmost values. */
  datatype WorkToken = Pending(id: NodeId) | Combine(op: BinOp)

  datatype StepOutcome = Continue(work: seq<WorkToken>, values: seq<F32>) | Finished(value: F32) | Failed(error: Error)

  /** The value of the subtree at `id` under `bindings`: the left operand is
      the left-hand side of every operator, and the first failure met in
      left-to-right order is the one reported. */
  ghost function Eval(nodes: seq<Node>, bindings: seq<F32>, ops: Arith, id: NodeId): Result<F32>
    requires WellFormed(nodes)
    decreases id
  {
    if id >= |nodes| then Err(InvalidId(id))
    else
      var n := nodes[id];
      assert n.ChildrenBelow(id);
      if n.Constant? then Ok(n.value)
      else if n.Variable? then
        if n.index < |bindings| then Ok(bindings[n.index]) else Err(UnboundVariable(n.index))
      else
        var l := Eval(nodes, bindings, ops, n.left);
        if l.Err? then l
        else
          var r := Eval(nodes, bindings, ops, n.right);
          if r.Err? then r else Ok(Apply(ops, n.Op(), l.value, r.value))
  }

  /** The entries pushed for a binary node, bottom first, so that the left
      operand is evaluated first and the marker last. */
  function Expansion(n: Node): seq<WorkToken>
    requires n.IsBinary()
  {
    [Combine(n.Op()), Pending(n.right), Pending(n.left)]
  }

  /** One turn of the corrected loop. */
  function Step(nodes: seq<Node>, bindings: seq<F32>, ops: Arith, work: seq<WorkToken>, values: seq<F32>): StepOutcome {
    if work == [] then
      if |values| == 1 then Finished(values[0]) else Failed(LeftoverValues)
    else
      var top, rest := work[|work| - 1], work[..|work| - 1];
      if top.Combine? then
        if |values| < 2 then Failed(MissingOperands)
        else
          var x, y := values[|values| - 2], values[|values| - 1];
          Continue(rest, values[..|values| - 2] + [Apply(ops, top.op, x, y)])
      else if top.id >= |nodes| then Failed(InvalidId(top.id))
      else
        var n := nodes[top.id];
        if n.IsBinary() then Continue(rest + Expansion(n), values)
        else if n.Variable? then
          if n.index < |bindings| then Continue(rest, values + [bindings[n.index]])
          else Failed(UnboundVariable(n.index))
        else Continue(rest, values + [n.value])
  }

  ghost function TokenWeight(nodes: seq<Node>, t: WorkToken): nat
    requires WellFormed(nodes)
  {
    if t.Pending? then Weight(nodes, t.id) else 1
  }

  /** The loop's termination measure. */
  ghost function WorkWeight(nodes: seq<Node>, work: seq<WorkToken>): nat
    requires WellFormed(nodes)
  {
    if work == [] then 0
    else TokenWeight(nodes, work[|work| - 1]) + WorkWeight(nodes, work[..|work| - 1])
  }

  lemma WeightOfPush(nodes: seq<Node>, work: seq<WorkToken>, t: WorkToken)
    requires WellFormed(nodes)
    ensures WorkWeight(nodes, work + [t]) == WorkWeight(nodes, work) + TokenWeight(nodes, t)
  {
    assert (work + [t])[..|work|] == work;
  }

  /** Every turn that goes on lowers the work stack's weight. */
  lemma StepDecreases(nodes: seq<Node>, bindings: seq<F32>, ops: Arith, work: seq<WorkToken>, values: seq<F32>)
    requires WellFormed(nodes)
    ensures Step(nodes, bindings, ops, work, values).Continue? ==>
      WorkWeight(nodes, Step(nodes, bindings, ops, work, values).work) < WorkWeight(nodes, work)
  {
    if Step(nodes, bindings, ops, work, values).Continue? {
      var top, rest := work[|work| - 1], work[..|work| - 1];
      assert work == rest + [top];
      WeightOfPush(nodes, rest, top);
      if top.Pending? && nodes[top.id].IsBinary() {
        var n := nodes[top.id];
        assert n.ChildrenBelow(top.id);
        var e := Expansion(n);
        WeightOfPush(nodes, rest, e[0]);
        WeightOfPush(nodes, rest + [e[0]], e[1]);
        WeightOfPush(nodes, rest + [e[0]] + [e[1]], e[2]);
        assert rest + e == rest + [e[0]] + [e[1]] + [e[2]];
      }
    }
  }

  /** What the corrected loop returns from the given stacks. */
  ghost function Run(nodes: seq<Node>, bindings: seq<F32>, ops: Arith, work: seq<WorkToken>, values: seq<F32>): Result<F32>
    requires WellFormed(nodes)
    decreases WorkWeight(nodes, work)
  {
    match Step(nodes, bindings, ops, work, values)
    case Finished(v) => Ok(v)
    case Failed(e) => Err(e)
    case Continue(work', values') =>
      StepDecreases(nodes, bindings, ops, work, values);
      Run(nodes, bindings, ops, work', values')
  }

  /** A pending subtree on top of the work stack either fails as Eval does
      or is replaced by its value on top of the value stack. */
  lemma {:induction false} RunPending(nodes: seq<Node>, bindings: seq<F32>, ops: Arith, work: seq<WorkToken>, values: seq<F32>, id: NodeId)
    requires WellFormed(nodes)
    ensures Run(nodes, bindings, ops, work + [Pending(id)], values)
         == match Eval(nodes, bindings, ops, id)
            case Ok(v) => Run(nodes, bindings, ops, work, values + [v])
            case Err(e) => Err(e)
    decreases id
  {
    var w := work + [Pending(id)];
    assert w[..|w| - 1] == work;
    if id < |nodes| {
      var n := nodes[id];
      assert n.ChildrenBelow(id);
      if n.IsBinary() {
        var wc := work + [Combine(n.Op())];
        var wr := wc + [Pending(n.right)];
        assert work + Expansion(n) == wr + [Pending(n.left)];
        assert Step(nodes, bindings, ops, w, values) == Continue(wr + [Pending(n.left)], values);
        RunPending(nodes, bindings, ops, wr, values, n.left);
        var l := Eval(nodes, bindings, ops, n.left);
        if l.Ok? {
          RunPending(nodes, bindings, ops, wc, values + [l.value], n.right);
          var r := Eval(nodes, bindings, ops, n.right);
          if r.Ok? {
            var vs := values + [l.value] + [r.value];
            assert wc[..|wc| - 1] == work;
            assert vs[..|vs| - 2] == values && vs[|vs| - 2] == l.value && vs[|vs| - 1] == r.value;
            assert Step(nodes, bindings, ops, wc, vs) == Continue(work, values + [Apply(ops, n.Op(), l.value, r.value)]);
          }
        }
      }
    }
  }

  /** The corrected loop, seeded with one pending subtree and no values,
      computes Eval. */
  lemma RunComputesEval(nodes: seq<Node>, bindings: seq<F32>, ops: Arith, n: NodeId)
    requires WellFormed(nodes)
    ensures Run(nodes, bindings, ops, [Pending(n)], []) == Eval(nodes, bindings, ops, n)
  {
    assert [Pending(n)] == [] + [Pending(n)];
    RunPending(nodes, bindings, ops, [], [], n);
    var e := Eval(nodes, bindings, ops, n);
    if e.Ok? {
      assert Step(nodes, bindings, ops, [], [] + [e.value]) == Finished(e.value);
    }
  }

  /** Every variable in the subtree at `id` has an index below `count`. */
  ghost predicate VariablesBound(nodes: seq<Node>, id: NodeId, count: nat)
    requires WellFormed(nodes) && id < |nodes|
    decreases id
  {
    var n := nodes[id];
    assert n.ChildrenBelow(id);
    if n.Variable? then n.index < count
    else if n.Constant? then true
    else VariablesBound(nodes, n.left, count) && VariablesBound(nodes, n.right, count)
  }

  /** On a well-formed arena evaluation succeeds exactly when the id is in
      the arena and the bindings cover every variable below it; otherwise
      it fails with InvalidId (only for the starting id) or UnboundVariable,
      never with a malformed-stack error. */
  lemma {:induction false} EvalSucceedsIffBound(nodes: seq<Node>, bindings: seq<F32>, ops: Arith, id: NodeId)
    requires WellFormed(nodes)
    ensures Eval(nodes, bindings, ops, id).Ok? <==> id < |nodes| && VariablesBound(nodes, id, |bindings|)
    ensures Eval(nodes, bindings, ops, id).Err? ==>
      (if id < |nodes| then Eval(nodes, bindings, ops, id).error.UnboundVariable?
       else Eval(nodes, bindings, ops, id).error == InvalidId(id))
    decreases id
  {
    if id < |nodes| && nodes[id].IsBinary() {
      assert nodes[id].ChildrenBelow(id);
      EvalSucceedsIffBound(nodes, bindings, ops, nodes[id].left);
      EvalSucceedsIffBound(nodes, bindings, ops, nodes[id].right);
    }
  }

  /** Appending to the arena changes no value already computable. */
  lemma {:induction false} EvalStableUnderAppend(nodes: seq<Node>, bindings: seq<F32>, ops: Arith, x: Node, id: NodeId)
    requires WellFormed(nodes + [x]) && id < |nodes|
    ensures WellFormed(nodes)
    ensures Eval(nodes + [x], bindings, ops, id) == Eval(nodes, bindings, ops, id)
    decreases id
  {
    AppendWellFormed(nodes, x);
    var grown := nodes + [x];
    assert grown[id] == nodes[id];
    if nodes[id].IsBinary() {
      assert nodes[id].ChildrenBelow(id);
      EvalStableUnderAppend(nodes, bindings, ops, x, nodes[id].left);
      EvalStableUnderAppend(nodes, bindings, ops, x, nodes[id].right);
    }
  }
}

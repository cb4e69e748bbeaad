/** `NodeExpression::evaluate_point` as written: one stack mixing resolved
    values, operator markers and pending subtrees. Step is one turn of its
    `loop`, Run the loop to its end, and Outcome the closed form of what it
    returns from a single seed. As written only a lone leaf succeeds: the
    `Add` expansion leaves the left operand's value on top, where the next
    turn pops it and panics, and the other four put their marker on top of
    two unexpanded subtrees, where popping it panics. */
module Evaluation {
  import opened Nodes

  datatype EvalToken = Val(value: F32) | Marker(op: BinOp) | Expr(id: NodeId)

  datatype StepOutcome = Continue(stack: seq<EvalToken>) | Finished(value: F32) | Failed(error: Error)

  /** The three tokens pushed for a binary node, bottom first: for `Add` the
      marker goes below its operands, for the others on top of them. */
  function Expansion(n: Node): seq<EvalToken>
    requires n.IsBinary()
  {
    if n.Add? then [Marker(AddOp), Expr(n.right), Expr(n.left)]
    else [Expr(n.right), Expr(n.left), Marker(n.Op())]
  }

  /** One turn of the loop on `stack` (top last). The first value popped
      under a marker is the left-hand operand. */
  function Step(nodes: seq<Node>, bindings: seq<F32>, ops: Arith, stack: seq<EvalToken>): StepOutcome {
    if |stack| == 0 then Failed(EmptyStack)
    else if |stack| == 1 && stack[0].Val? then Finished(stack[0].value)
    else if |stack| == 1 && stack[0].Marker? then Failed(LoneMarker)
    else
      var top, rest := stack[|stack| - 1], stack[..|stack| - 1];
      if top.Val? then Failed(StrayValue)
      else if top.Marker? then
        if |rest| < 2 then Failed(MissingOperands)
        else
          var a, b := rest[|rest| - 1], rest[|rest| - 2];
          if a.Val? && b.Val? then Continue(rest[..|rest| - 2] + [Val(Apply(ops, top.op, a.value, b.value))])
          else Failed(OperandsNotValues)
      else if top.id >= |nodes| then Failed(InvalidId(top.id))
      else
        var n := nodes[top.id];
        if n.IsBinary() then Continue(rest + Expansion(n))
        else if n.Variable? then
          if n.index < |bindings| then Continue(rest + [Val(bindings[n.index])])
          else Failed(UnboundVariable(n.index))
        else Continue(rest + [Val(n.value)])
  }

  ghost function TokenWeight(nodes: seq<Node>, t: EvalToken): nat
    requires WellFormed(nodes)
  {
    if t.Expr? then Weight(nodes, t.id) else 1
  }

  /** The loop's termination measure. */
  ghost function StackWeight(nodes: seq<Node>, stack: seq<EvalToken>): nat
    requires WellFormed(nodes)
  {
    if stack == [] then 0
    else TokenWeight(nodes, stack[|stack| - 1]) + StackWeight(nodes, stack[..|stack| - 1])
  }

  lemma {:induction false} StackWeightPush(nodes: seq<Node>, stack: seq<EvalToken>, pushed: seq<EvalToken>)
    requires WellFormed(nodes)
    ensures StackWeight(nodes, stack + pushed) == StackWeight(nodes, stack) + StackWeight(nodes, pushed)
    decreases |pushed|
  {
    var all := stack + pushed;
    if pushed == [] {
      assert all == stack;
    } else {
      var below := pushed[..|pushed| - 1];
      var top := pushed[|pushed| - 1];
      assert all[..|all| - 1] == stack + below;
      assert all[|all| - 1] == top;
      var w := TokenWeight(nodes, top);
      assert StackWeight(nodes, all) == w + StackWeight(nodes, stack + below);
      assert StackWeight(nodes, pushed) == w + StackWeight(nodes, below);
      StackWeightPush(nodes, stack, below);
    }
  }

  lemma WeightOfThree(nodes: seq<Node>, x: EvalToken, y: EvalToken, z: EvalToken)
    requires WellFormed(nodes)
    ensures StackWeight(nodes, [x, y, z]) == TokenWeight(nodes, x) + TokenWeight(nodes, y) + TokenWeight(nodes, z)
  {
    assert [x, y, z][..2] == [x, y] && [x, y][..1] == [x] && [x][..0] == [];
    assert StackWeight(nodes, [x]) == TokenWeight(nodes, x);
    assert StackWeight(nodes, [x, y]) == TokenWeight(nodes, y) + StackWeight(nodes, [x]);
  }

  lemma WeightOfOne(nodes: seq<Node>, x: EvalToken)
    requires WellFormed(nodes)
    ensures StackWeight(nodes, [x]) == TokenWeight(nodes, x)
  {
    assert [x][..0] == [];
  }

  /** Every turn that goes on lowers the stack's weight: on a well-formed
      arena the loop ends, from any stack. */
  lemma StepDecreases(nodes: seq<Node>, bindings: seq<F32>, ops: Arith, stack: seq<EvalToken>)
    requires WellFormed(nodes)
    ensures Step(nodes, bindings, ops, stack).Continue? ==>
      StackWeight(nodes, Step(nodes, bindings, ops, stack).stack) < StackWeight(nodes, stack)
  {
    if Step(nodes, bindings, ops, stack).Continue? {
      var top, rest := stack[|stack| - 1], stack[..|stack| - 1];
      assert stack == rest + [top];
      StackWeightPush(nodes, rest, [top]);
      WeightOfOne(nodes, top);
      if top.Marker? {
        MarkerDecreases(nodes, rest, rest[..|rest| - 2], Apply(ops, top.op, rest[|rest| - 1].value, rest[|rest| - 2].value));
      } else {
        ExprDecreases(nodes, bindings, ops, stack, rest, top.id);
      }
    }
  }

  lemma MarkerDecreases(nodes: seq<Node>, rest: seq<EvalToken>, below: seq<EvalToken>, v: F32)
    requires WellFormed(nodes) && |rest| >= 2 && below == rest[..|rest| - 2]
    ensures StackWeight(nodes, below + [Val(v)]) < StackWeight(nodes, rest) + 1
  {
    var x, y := rest[|rest| - 2], rest[|rest| - 1];
    assert rest == below + [x, y];
    StackWeightPush(nodes, below, [x, y]);
    assert [x, y][..1] == [x];
    WeightOfOne(nodes, x);
    StackWeightPush(nodes, below, [Val(v)]);
    WeightOfOne(nodes, Val(v));
  }

  lemma ExprDecreases(nodes: seq<Node>, bindings: seq<F32>, ops: Arith, stack: seq<EvalToken>, rest: seq<EvalToken>, id: NodeId)
    requires WellFormed(nodes) && |stack| >= 1 && stack[|stack| - 1] == Expr(id) && rest == stack[..|stack| - 1]
    requires Step(nodes, bindings, ops, stack).Continue?
    ensures StackWeight(nodes, Step(nodes, bindings, ops, stack).stack) < Weight(nodes, id) + StackWeight(nodes, rest)
  {
    var n := nodes[id];
    assert n.ChildrenBelow(id);
    if n.IsBinary() {
      var e := Expansion(n);
      assert Step(nodes, bindings, ops, stack).stack == rest + e;
      StackWeightPush(nodes, rest, e);
      WeightOfThree(nodes, e[0], e[1], e[2]);
      assert e == [e[0], e[1], e[2]];
    } else {
      var v := Step(nodes, bindings, ops, stack).stack[|rest|];
      assert Step(nodes, bindings, ops, stack).stack == rest + [v];
      StackWeightPush(nodes, rest, [v]);
      WeightOfOne(nodes, v);
    }
  }

  /** What the loop returns when started on `stack`. */
  ghost function Run(nodes: seq<Node>, bindings: seq<F32>, ops: Arith, stack: seq<EvalToken>): Result<F32>
    requires WellFormed(nodes)
    decreases StackWeight(nodes, stack)
  {
    match Step(nodes, bindings, ops, stack)
    case Finished(v) => Ok(v)
    case Failed(e) => Err(e)
    case Continue(next) =>
      StepDecreases(nodes, bindings, ops, stack);
      Run(nodes, bindings, ops, next)
  }

  /** The closed form of a run from the single seed `Expr(n)`. */
  ghost function Outcome(nodes: seq<Node>, n: NodeId, bindings: seq<F32>): Result<F32>
    requires WellFormed(nodes)
  {
    if n >= |nodes| then Err(InvalidId(n))
    else
      var node := nodes[n];
      if node.Constant? then Ok(node.value)
      else if node.Variable? then
        if node.index < |bindings| then Ok(bindings[node.index]) else Err(UnboundVariable(node.index))
      else if node.Add? then SpineOutcome(nodes, node.left, bindings)
      else Err(OperandsNotValues)
  }

  /** The outcome once the leftmost `Add` descendant chain is being followed,
      with an `Add` marker and a right operand below. */
  ghost function SpineOutcome(nodes: seq<Node>, id: NodeId, bindings: seq<F32>): Result<F32>
    requires WellFormed(nodes)
    decreases id
  {
    if id >= |nodes| then Err(InvalidId(id))
    else
      var node := nodes[id];
      assert node.ChildrenBelow(id);
      if node.Constant? then Err(StrayValue)
      else if node.Variable? then
        if node.index < |bindings| then Err(StrayValue) else Err(UnboundVariable(node.index))
      else if node.Add? then SpineOutcome(nodes, node.left, bindings)
      else Err(OperandsNotValues)
  }

  /** Below the seed's own level the run never produces a value. */
  lemma {:induction false} SpineRun(nodes: seq<Node>, bindings: seq<F32>, ops: Arith, below: seq<EvalToken>, id: NodeId)
    requires WellFormed(nodes) && |below| >= 1
    ensures Run(nodes, bindings, ops, below + [Expr(id)]) == SpineOutcome(nodes, id, bindings)
    decreases id
  {
    var stack := below + [Expr(id)];
    assert stack[..|stack| - 1] == below;
    if id < |nodes| {
      var node := nodes[id];
      assert node.ChildrenBelow(id);
      if node.IsBinary() {
        var next := below + Expansion(node);
        assert Step(nodes, bindings, ops, stack) == Continue(next);
        if node.Add? {
          var below' := below + [Marker(AddOp), Expr(node.right)];
          assert next == below' + [Expr(node.left)];
          SpineRun(nodes, bindings, ops, below', node.left);
        } else {
          assert Step(nodes, bindings, ops, next) == Failed(OperandsNotValues) by {
            var rest := next[..|next| - 1];
            assert rest == below + [Expr(node.right), Expr(node.left)];
          }
        }
      } else if !node.Variable? || node.index < |bindings| {
        var v := if node.Variable? then bindings[node.index] else node.value;
        assert Step(nodes, bindings, ops, stack) == Continue(below + [Val(v)]);
        assert Step(nodes, bindings, ops, below + [Val(v)]) == Failed(StrayValue);
      }
    }
  }

  /** A run from the seed `Expr(n)` returns Outcome. */
  lemma SeedRun(nodes: seq<Node>, bindings: seq<F32>, ops: Arith, n: NodeId)
    requires WellFormed(nodes)
    ensures Run(nodes, bindings, ops, [Expr(n)]) == Outcome(nodes, n, bindings)
  {
    var seed := [Expr(n)];
    assert seed[..0] == [];
    if n < |nodes| {
      var node := nodes[n];
      if node.IsBinary() {
        var next := Expansion(node);
        assert Step(nodes, bindings, ops, seed) == Continue(next);
        if node.Add? {
          assert next == [Marker(AddOp), Expr(node.right)] + [Expr(node.left)];
          SpineRun(nodes, bindings, ops, [Marker(AddOp), Expr(node.right)], node.left);
        } else {
          assert next[..2] == [Expr(node.right), Expr(node.left)];
          assert Step(nodes, bindings, ops, next) == Failed(OperandsNotValues);
        }
      } else if !node.Variable? || node.index < |bindings| {
        var v := if node.Variable? then bindings[node.index] else node.value;
        assert Step(nodes, bindings, ops, seed) == Continue([Val(v)]);
        assert Step(nodes, bindings, ops, [Val(v)]) == Finished(v);
      }
    }
  }

  /** The operator turn: a marker over two values pops the first value as
      the left-hand operand and the second as the right-hand one, and leaves
      one value in their place. */
  lemma OperatorStep(nodes: seq<Node>, bindings: seq<F32>, ops: Arith, below: seq<EvalToken>, op: BinOp, x: F32, y: F32)
    ensures Step(nodes, bindings, ops, below + [Val(y), Val(x), Marker(op)])
         == Continue(below + [Val(Apply(ops, op, x, y))])
  {
    var stack := below + [Val(y), Val(x), Marker(op)];
    var rest := stack[..|stack| - 1];
    assert rest == below + [Val(y), Val(x)];
    assert rest[..|rest| - 2] == below;
  }

  /** Every other shape fails: a value popped with entries below it ... */
  lemma StrayValueStep(nodes: seq<Node>, bindings: seq<F32>, ops: Arith, below: seq<EvalToken>, x: F32)
    requires |below| >= 1
    ensures Step(nodes, bindings, ops, below + [Val(x)]) == Failed(StrayValue)
  {
  }

  /** ... and a marker over anything but two values. */
  lemma MarkerOverNonValues(nodes: seq<Node>, bindings: seq<F32>, ops: Arith, below: seq<EvalToken>, op: BinOp)
    requires |below| >= 1
    requires |below| < 2 || !below[|below| - 1].Val? || !below[|below| - 2].Val?
    ensures Step(nodes, bindings, ops, below + [Marker(op)])
         == if |below| < 2 then Failed(MissingOperands) else Failed(OperandsNotValues)
  {
    assert (below + [Marker(op)])[..|below|] == below;
  }

  /** The following run never yields a value. */
  lemma {:induction false} SpineFails(nodes: seq<Node>, id: NodeId, bindings: seq<F32>)
    requires WellFormed(nodes)
    ensures SpineOutcome(nodes, id, bindings).Err?
    decreases id
  {
    if id < |nodes| && nodes[id].Add? {
      assert nodes[id].ChildrenBelow(id);
      SpineFails(nodes, nodes[id].left, bindings);
    }
  }

  /** As written, evaluation succeeds exactly on a lone constant, or a lone
      variable whose index the bindings cover, and then returns its value. */
  lemma SucceedsOnlyOnLeaves(nodes: seq<Node>, n: NodeId, bindings: seq<F32>)
    requires WellFormed(nodes)
    ensures Outcome(nodes, n, bindings).Ok? <==>
      n < |nodes| && (nodes[n].Constant? || (nodes[n].Variable? && nodes[n].index < |bindings|))
    ensures n < |nodes| && nodes[n].Constant? ==> Outcome(nodes, n, bindings) == Ok(nodes[n].value)
    ensures n < |nodes| && nodes[n].Variable? && nodes[n].index < |bindings| ==>
      Outcome(nodes, n, bindings) == Ok(bindings[nodes[n].index])
  {
    if n < |nodes| && nodes[n].Add? {
      SpineFails(nodes, nodes[n].left, bindings);
    }
  }
}

/** `NodeExpression`: the append-only node arena, and its two explicit-stack
    walks, `format` and `evaluate_point`. */
module Arena {
  import opened Nodes
  import opened Decimal
  import opened Formatting
  import Ev = Evaluation
  import PostOrder

  class NodeExpression {
    /** The arena, in insertion order; an entry's index is its NodeId. */
    var nodes: seq<Node>
    /** Stored at construction, never read by any operation. */
    var root: NodeId

    /** `new`: an empty arena. */
    constructor ()
      ensures nodes == [] && root == 0
    {
      nodes := [];
      root := 0;
    }

    /** `add`: appends `n` and returns its index, the previous length. */
    method Add(n: Node) returns (id: NodeId)
      modifies this
      ensures id == old(|nodes|)
      ensures nodes == old(nodes) + [n] && root == old(root)
      ensures GetNode(id) == Ok(n)
      ensures forall k :: 0 <= k < id ==> GetNode(k) == old(GetNode(k))
    {
      id := |nodes|;
      nodes := nodes + [n];
    }

    /** `node`: the bounds-checked read; an id past the end is the panic of
        the Vec index, here an `InvalidId` error. */
    function GetNode(id: NodeId): (r: Result<Node>)
      reads this
      ensures r.Ok? <==> id < |nodes|
      ensures r.Ok? ==> r.value == nodes[id]
      ensures r.Err? ==> r.error == InvalidId(id)
    {
      if id < |nodes| then Ok(nodes[id]) else Err(InvalidId(id))
    }

    /** `format`: pops the work stack until it is empty, appending literal
        tokens and expanding subtree tokens. The result is the recursive
        rendering FormatText of the subtree at `n`; an `n` outside the arena
        fails on its first read. */
    method Format(n: NodeId, render: F32 -> string) returns (r: Result<string>)
      requires WellFormed(nodes)
      ensures n < |nodes| ==> r == Ok(FormatText(nodes, render, n))
      ensures n >= |nodes| ==> r == Err(InvalidId(n))
    {
      var result := "";
      var stack := [Expr(n)];
      while stack != []
        invariant n >= |nodes| ==> stack == [Expr(n)] && result == ""
        invariant n < |nodes| ==> InRange(nodes, stack)
        invariant n < |nodes| ==> result + StackText(nodes, render, stack) == FormatText(nodes, render, n)
        decreases StackWeight(nodes, stack)
      {
        var top := stack[|stack| - 1];
        ghost var before := stack;
        stack := stack[..|stack| - 1];
        assert before == stack + [top];
        PushOne(nodes, render, stack, top);
        assert InRange(nodes, before) ==> InRange(nodes, stack);
        match top
        case Str(s) =>
          Append(result, s, StackText(nodes, render, stack));
          result := result + s;
        case Expr(id) =>
          var entry := GetNode(id);
          if entry.Err? {
            return Err(entry.error);
          }
          var node := entry.value;
          assert node.ChildrenBelow(id);
          if node.IsBinary() {
            ExpandText(nodes, render, stack, id);
            ExpandWeight(nodes, stack, id);
            ExpandInRange(nodes, stack, id);
            stack := stack + Expansion(node);
          } else if node.Variable? {
            var text := "Var(" + DecimalText(node.index) + ")";
            Append(result, text, StackText(nodes, render, stack));
            result := result + text;
          } else {
            Append(result, render(node.value), StackText(nodes, render, stack));
            result := result + render(node.value);
          }
      }
      assert result + "" == result;
      return Ok(result);
    }

    /** `evaluate_point` as written. Each turn first inspects the stack's
        length (empty: panic; one value: return it; one marker: panic), then
        pops one entry and acts on it; every `panic!`, `assert!` and
        out-of-bounds index is an `Err`. The result is Ev.Outcome, which
        holds a value only for a lone leaf (Ev.SucceedsOnlyOnLeaves). */
    method EvaluatePoint(n: NodeId, bindings: seq<F32>, ops: Arith) returns (r: Result<F32>)
      requires WellFormed(nodes)
      ensures r == Ev.Run(nodes, bindings, ops, [Ev.Expr(n)])
      ensures r == Ev.Outcome(nodes, n, bindings)
    {
      Ev.SeedRun(nodes, bindings, ops, n);
      var stack := [Ev.Expr(n)];
      while true
        invariant Ev.Run(nodes, bindings, ops, stack) == Ev.Run(nodes, bindings, ops, [Ev.Expr(n)])
        decreases Ev.StackWeight(nodes, stack)
      {
        ghost var before := stack;
        Ev.StepDecreases(nodes, bindings, ops, before);
        if |stack| == 0 {
          return Err(EmptyStack);
        }
        if |stack| == 1 {
          match stack[0]
          case Val(x) => return Ok(x);
          case Marker(_) => return Err(LoneMarker);
          case Expr(_) =>
        }
        var top := stack[|stack| - 1];
        stack := stack[..|stack| - 1];
        match top
        case Val(_) =>
          return Err(StrayValue);
        case Marker(op) =>
          if |stack| < 2 {
            return Err(MissingOperands);
          }
          var a, b := stack[|stack| - 1], stack[|stack| - 2];
          stack := stack[..|stack| - 2];
          if !(a.Val? && b.Val?) {
            return Err(OperandsNotValues);
          }
          stack := stack + [Ev.Val(Apply(ops, op, a.value, b.value))];
        case Expr(id) =>
          var entry := GetNode(id);
          if entry.Err? {
            return Err(entry.error);
          }
          var node := entry.value;
          if node.IsBinary() {
            stack := stack + Ev.Expansion(node);
          } else if node.Variable? {
            if node.index >= |bindings| {
              return Err(UnboundVariable(node.index));
            }
            stack := stack + [Ev.Val(bindings[node.index])];
          } else {
            stack := stack + [Ev.Val(node.value)];
          }
        assert Ev.Step(nodes, bindings, ops, before) == Ev.Continue(stack);
      }
    }

    /** The post-order evaluator `evaluate_point` was evidently meant to be
        (module PostOrder): it computes the recursive value Eval, with the
        left operand as the left-hand side of every operator. */
    method EvaluatePointCorrected(n: NodeId, bindings: seq<F32>, ops: Arith) returns (r: Result<F32>)
      requires WellFormed(nodes)
      ensures r == PostOrder.Eval(nodes, bindings, ops, n)
    {
      PostOrder.RunComputesEval(nodes, bindings, ops, n);
      var work := [PostOrder.Pending(n)];
      var values: seq<F32> := [];
      while work != []
        invariant PostOrder.Run(nodes, bindings, ops, work, values) == PostOrder.Run(nodes, bindings, ops, [PostOrder.Pending(n)], [])
        decreases PostOrder.WorkWeight(nodes, work)
      {
        ghost var before, valuesBefore := work, values;
        PostOrder.StepDecreases(nodes, bindings, ops, before, valuesBefore);
        var top := work[|work| - 1];
        work := work[..|work| - 1];
        match top
        case Combine(op) =>
          if |values| < 2 {
            return Err(MissingOperands);
          }
          var x, y := values[|values| - 2], values[|values| - 1];
          values := values[..|values| - 2] + [Apply(ops, op, x, y)];
        case Pending(id) =>
          var entry := GetNode(id);
          if entry.Err? {
            return Err(entry.error);
          }
          var node := entry.value;
          if node.IsBinary() {
            work := work + PostOrder.Expansion(node);
          } else if node.Variable? {
            if node.index >= |bindings| {
              return Err(UnboundVariable(node.index));
            }
            values := values + [bindings[node.index]];
          } else {
            values := values + [node.value];
          }
        assert PostOrder.Step(nodes, bindings, ops, before, valuesBefore) == PostOrder.Continue(work, values);
      }
      if |values| != 1 {
        return Err(LeftoverValues);
      }
      return Ok(values[0]);
    }
  }

  lemma Append(result: string, s: string, rest: string)
    ensures result + (s + rest) == (result + s) + rest
  {
  }
}

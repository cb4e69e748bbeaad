/** The repository's test scenario, the design's operand-order examples, and
    the inputs on which `evaluate_point` as written departs from the
    post-order evaluation it was meant to perform. */
module Scenarios {
  import opened Nodes
  import Decimal
  import opened Formatting
  import opened Arena
  import Ev = Evaluation
  import PostOrder

  /** The bit pattern of the `f32` value 5.0. */
  const FIVE: F32 := 0x40A0_0000

  /** The arena the test builds: `Mul(Add(Constant(5.0), Variable(0)), Variable(1))`. */
  method BuildTestTree() returns (e: NodeExpression, ids: seq<NodeId>)
    ensures fresh(e) && WellFormed(e.nodes) && ids == [0, 1, 2, 3, 4]
    ensures e.nodes == TestTree()
  {
    e := new NodeExpression();
    var n0 := e.Add(Constant(FIVE));
    var n1 := e.Add(Variable(0));
    var n2 := e.Add(Variable(1));
    var n3 := e.Add(Add(n0, n1));
    var n4 := e.Add(Mul(n3, n2));
    ids := [n0, n1, n2, n3, n4];
    var ns := e.nodes;
    AppendWellFormed([], ns[0]);
    AppendWellFormed(ns[..1], ns[1]);
    AppendWellFormed(ns[..2], ns[2]);
    AppendWellFormed(ns[..3], ns[3]);
    AppendWellFormed(ns[..4], ns[4]);
    assert ns[..1] == [] + [ns[0]] && ns[..2] == ns[..1] + [ns[1]] && ns[..3] == ns[..2] + [ns[2]];
    assert ns[..4] == ns[..3] + [ns[3]] && ns == ns[..4] + [ns[4]];
  }

  /** The `format` test: successive `add`s return 0, 1, 2, ... and the tree
      formats to `((5 + Var(0)) * Var(1))` when 5.0 displays as `5`. */
  method FormatTest(render: F32 -> string) returns (ids: seq<NodeId>, text: Result<string>)
    requires render(FIVE) == "5"
    ensures ids == [0, 1, 2, 3, 4]
    ensures text == Ok("((5 + Var(0)) * Var(1))")
  {
    var e;
    e, ids := BuildTestTree();
    text := e.Format(4, render);
    TestTreeText(render);
  }

  function TestTree(): (nodes: seq<Node>)
    ensures |nodes| == 5
  {
    [Constant(FIVE), Variable(0), Variable(1), Add(0, 1), Mul(3, 2)]
  }

  lemma TestTreeWellFormed()
    ensures WellFormed(TestTree())
  {
    var ns := TestTree();
    assert forall i :: 0 <= i < |ns| ==> ns[i].ChildrenBelow(i);
  }

  lemma TestTreeText(render: F32 -> string)
    requires render(FIVE) == "5"
    ensures WellFormed(TestTree())
    ensures FormatText(TestTree(), render, 4) == "((5 + Var(0)) * Var(1))"
  {
    TestTreeWellFormed();
    var ns := TestTree();
    var sum := LeftOperandText(render);
    assert FormatText(ns, render, 2) == "Var(1)" by {
      assert Decimal.DecimalText(1) == "1";
    }
    assert FormatText(ns, render, 4) == "(" + sum + " * " + "Var(1)" + ")";
    assert "(" + "(5 + Var(0))" + " * " + "Var(1)" + ")" == "((5 + Var(0)) * Var(1))";
  }

  lemma LeftOperandText(render: F32 -> string) returns (text: string)
    requires render(FIVE) == "5"
    ensures WellFormed(TestTree())
    ensures text == FormatText(TestTree(), render, 3) == "(5 + Var(0))"
  {
    TestTreeWellFormed();
    var ns := TestTree();
    text := FormatText(ns, render, 3);
    assert FormatText(ns, render, 1) == "Var(0)" by {
      assert Decimal.DecimalText(0) == "0";
    }
    assert text == "(" + "5" + " + " + "Var(0)" + ")";
  }

  /** Evaluating the same tree under the bindings [two, three]: the corrected
      evaluator gives (5 + two) * three; the code as written pops the `Mul`
      marker over two unexpanded subtrees and fails. */
  method EvaluateTest(ops: Arith, two: F32, three: F32) returns (asWritten: Result<F32>, corrected: Result<F32>)
    ensures asWritten == Err(OperandsNotValues)
    ensures corrected == Ok(ops.mul(ops.add(FIVE, two), three))
  {
    var e, _ := BuildTestTree();
    asWritten := e.EvaluatePoint(4, [two, three], ops);
    corrected := e.EvaluatePointCorrected(4, [two, three], ops);
  }

  /** The three-entry arena `op(Constant(x), Constant(y))`. */
  function Pair(x: F32, y: F32, op: BinOp): (nodes: seq<Node>)
    ensures WellFormed(nodes)
  {
    var parent := match op
      case AddOp => Add(0, 1)
      case SubOp => Sub(0, 1)
      case MulOp => Mul(0, 1)
      case DivOp => Div(0, 1)
      case ExpOp => Exp(0, 1);
    [Constant(x), Constant(y), parent]
  }

  /** The corrected evaluator keeps operand order: `x - y`, `x / y` and
      `x` raised to `y`, never the swapped forms. */
  lemma OperandOrder(ops: Arith, x: F32, y: F32)
    ensures PostOrder.Eval(Pair(x, y, SubOp), [], ops, 2) == Ok(ops.sub(x, y))
    ensures PostOrder.Eval(Pair(x, y, DivOp), [], ops, 2) == Ok(ops.div(x, y))
    ensures PostOrder.Eval(Pair(x, y, ExpOp), [], ops, 2) == Ok(ops.powf(x, y))
  {
  }

  /** As written, `Add` of two constants evaluates the left one, then pops
      its value with the marker and the right subtree still below it. */
  lemma AddFailsAsWritten(ops: Arith, x: F32, y: F32)
    ensures Ev.Outcome(Pair(x, y, AddOp), 2, []) == Err(StrayValue)
    ensures PostOrder.Eval(Pair(x, y, AddOp), [], ops, 2) == Ok(ops.add(x, y))
  {
  }

  /** As written, `Sub`, `Mul`, `Div` and `Exp` pop their marker over two
      unexpanded subtrees. */
  lemma MarkerFirstFailsAsWritten(ops: Arith, x: F32, y: F32, op: BinOp)
    requires op != AddOp
    ensures Ev.Outcome(Pair(x, y, op), 2, []) == Err(OperandsNotValues)
    ensures PostOrder.Eval(Pair(x, y, op), [], ops, 2) == Ok(Apply(ops, op, x, y))
  {
  }

  /** A variable index past the bindings fails as UnboundVariable, in both
      evaluators, rather than reading anything. */
  lemma UnboundVariableFails(ops: Arith, a: F32, b: F32)
    ensures Ev.Outcome([Variable(5)], 0, [a, b]) == Err(UnboundVariable(5))
    ensures PostOrder.Eval([Variable(5)], [a, b], ops, 0) == Err(UnboundVariable(5))
  {
  }
}

/** The closed set of expression node kinds, the arena's construction-order
    invariant, the error outcomes of the walks, and the size measure that
    both explicit-stack walks decrease. */
module Nodes {

  /** An `f32`, represented by its IEEE-754 bit pattern. Nothing here
      interprets it: arithmetic and decimal rendering are parameters. */
  type F32 = bv32

  /** An index into one arena. */
  type NodeId = nat

  /** The operator of a binary node. */
  datatype BinOp = AddOp | SubOp | MulOp | DivOp | ExpOp

  /** One arena entry: five binary kinds holding child ids, a variable
      holding an index into the binding vector, and a constant. */
  datatype Node =
    | Add(left: NodeId, right: NodeId)
    | Sub(left: NodeId, right: NodeId)
    | Mul(left: NodeId, right: NodeId)
    | Div(left: NodeId, right: NodeId)
    | Exp(left: NodeId, right: NodeId)
    | Variable(index: nat)
    | Constant(value: F32)
  {
    predicate IsBinary() {
      !Variable? && !Constant?
    }

    function Op(): BinOp
      requires IsBinary()
    {
      match this
      case Add(_, _) => AddOp
      case Sub(_, _) => SubOp
      case Mul(_, _) => MulOp
      case Div(_, _) => DivOp
      case Exp(_, _) => ExpOp
    }

    /** Every child id of this node is below `bound`. */
    predicate ChildrenBelow(bound: nat) {
      IsBinary() ==> left < bound && right < bound
    }
  }

  /** The failure outcomes. `InvalidId` is the panic of an out-of-bounds
      arena read, `UnboundVariable` that of an out-of-bounds binding read;
      the others are the evaluator's internal panics, one per site. */
  datatype Error =
    | InvalidId(id: NodeId)
    | UnboundVariable(index: nat)
    | EmptyStack          // the stack ran empty
    | LoneMarker          // a lone entry that is neither a value nor a subtree
    | StrayValue          // a value popped with other entries below it
    | MissingOperands     // an operator marker with fewer than two entries below it
    | OperandsNotValues   // an operator marker over entries that are not both values
    | LeftoverValues      // the work ran out without exactly one value left

  datatype Result<T> = Ok(value: T) | Err(error: Error)

  /** The `f32` operations the evaluators use, left uninterpreted. */
  datatype Arith = Arith(
    add: (F32, F32) -> F32,
    sub: (F32, F32) -> F32,
    mul: (F32, F32) -> F32,
    div: (F32, F32) -> F32,
    powf: (F32, F32) -> F32)

  /** `x op y`, with `x` the left-hand side. */
  function Apply(ops: Arith, op: BinOp, x: F32, y: F32): F32 {
    match op
    case AddOp => ops.add(x, y)
    case SubOp => ops.sub(x, y)
    case MulOp => ops.mul(x, y)
    case DivOp => ops.div(x, y)
    case ExpOp => ops.powf(x, y)
  }

  /** Every child names an entry appended before its parent. Appending only
      nodes built from ids already returned keeps this (AppendWellFormed), and
      it makes every subtree finite: shared children are allowed, cycles are not. */
  ghost predicate WellFormed(nodes: seq<Node>) {
    forall i :: 0 <= i < |nodes| ==> nodes[i].ChildrenBelow(i)
  }

  lemma AppendWellFormed(nodes: seq<Node>, n: Node)
    ensures WellFormed(nodes + [n]) <==> WellFormed(nodes) && n.ChildrenBelow(|nodes|)
  {
    var grown := nodes + [n];
    assert grown[|nodes|] == n;
    assert forall i :: 0 <= i < |nodes| ==> grown[i] == nodes[i];
  }

  /** The unfolded size of the subtree at `id`, counted so that every step of
      either walk lowers the total over its stack: an id outside the arena
      weighs 1, a leaf 2, a binary node 4 more than its two subtrees. */
  ghost function Weight(nodes: seq<Node>, id: NodeId): nat
    requires WellFormed(nodes)
    decreases id
  {
    if id >= |nodes| then 1
    else if nodes[id].IsBinary() then Weight(nodes, nodes[id].left) + Weight(nodes, nodes[id].right) + 4
    else 2
  }
}

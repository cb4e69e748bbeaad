/** The meaning of `NodeExpression::format`: a recursive rendering of a
    subtree, and the reading of a work stack of format tokens that the
    iterative loop keeps equal to it. */
module Formatting {
  import opened Nodes
  import opened Decimal

  /** A work-stack entry: literal text to append, or a subtree to expand. */
  datatype FormatToken = Str(text: string) | Expr(id: NodeId)

  /** The infix text between the two operands of a binary node. */
  function OpText(op: BinOp): string {
    match op
    case AddOp => " + "
    case SubOp => " - "
    case MulOp => " * "
    case DivOp => " / "
    case ExpOp => " ^ "
  }

  /** The fully parenthesized infix text of the subtree at `id`; `render`
      stands for the `Display` text of an `f32`. A shared child is rendered
      once per reference. */
  ghost function FormatText(nodes: seq<Node>, render: F32 -> string, id: NodeId): string
    requires WellFormed(nodes) && id < |nodes|
    decreases id
  {
    match nodes[id]
    case Variable(i) => "Var(" + DecimalText(i) + ")"
    case Constant(c) => render(c)
    case _ =>
      "(" + FormatText(nodes, render, nodes[id].left) + OpText(nodes[id].Op())
        + FormatText(nodes, render, nodes[id].right) + ")"
  }

  /** Every subtree entry on the stack names an arena entry. */
  ghost predicate InRange(nodes: seq<Node>, stack: seq<FormatToken>) {
    forall i :: 0 <= i < |stack| && stack[i].Expr? ==> stack[i].id < |nodes|
  }

  /** The text a token stands for (an id outside the arena never reaches
      the stack of a loop that started inside it, see InRange). */
  ghost function TokenText(nodes: seq<Node>, render: F32 -> string, t: FormatToken): string
    requires WellFormed(nodes)
  {
    match t
    case Str(s) => s
    case Expr(id) => if id < |nodes| then FormatText(nodes, render, id) else ""
  }

  /** What the rest of the loop appends: the tokens' texts, top (last) first. */
  ghost function StackText(nodes: seq<Node>, render: F32 -> string, stack: seq<FormatToken>): string
    requires WellFormed(nodes)
  {
    if stack == [] then ""
    else TokenText(nodes, render, stack[|stack| - 1]) + StackText(nodes, render, stack[..|stack| - 1])
  }

  ghost function TokenWeight(nodes: seq<Node>, t: FormatToken): nat
    requires WellFormed(nodes)
  {
    match t
    case Str(_) => 1
    case Expr(id) => Weight(nodes, id)
  }

  /** The loop's termination measure. */
  ghost function StackWeight(nodes: seq<Node>, stack: seq<FormatToken>): nat
    requires WellFormed(nodes)
  {
    if stack == [] then 0
    else TokenWeight(nodes, stack[|stack| - 1]) + StackWeight(nodes, stack[..|stack| - 1])
  }

  /** Expanding an in-range binary subtree token pushes only in-range ones. */
  lemma ExpandInRange(nodes: seq<Node>, stack: seq<FormatToken>, id: NodeId)
    requires WellFormed(nodes) && InRange(nodes, stack) && id < |nodes| && nodes[id].IsBinary()
    ensures InRange(nodes, stack + Expansion(nodes[id]))
  {
    assert nodes[id].ChildrenBelow(id);
    var pushed := Expansion(nodes[id]);
    var all := stack + pushed;
    forall i | 0 <= i < |all| && all[i].Expr? ensures all[i].id < |nodes| {
      if i < |stack| { assert all[i] == stack[i]; } else { assert all[i] == pushed[i - |stack|]; }
    }
  }

  lemma {:induction false} StackWeightPush(nodes: seq<Node>, stack: seq<FormatToken>, pushed: seq<FormatToken>)
    requires WellFormed(nodes)
    ensures StackWeight(nodes, stack + pushed) == StackWeight(nodes, stack) + StackWeight(nodes, pushed)
    decreases |pushed|
  {
    var all := stack + pushed;
    if pushed == [] {
      assert all == stack;
    } else {
      var below := pushed[..|pushed| - 1];
      var top := pushed[|pushed| - 1];
      assert all[..|all| - 1] == stack + below;
      assert all[|all| - 1] == top;
      var w := TokenWeight(nodes, top);
      assert StackWeight(nodes, all) == w + StackWeight(nodes, stack + below);
      assert StackWeight(nodes, pushed) == w + StackWeight(nodes, below);
      StackWeightPush(nodes, stack, below);
    }
  }

  /** The five tokens the loop pushes for a binary node, bottom first. */
  function Expansion(n: Node): seq<FormatToken>
    requires n.IsBinary()
  {
    [Str(")"), Expr(n.right), Str(OpText(n.Op())), Expr(n.left), Str("(")]
  }

  /** Expanding a binary subtree token into its five tokens keeps the stack's
      text: the LIFO order gives the left-to-right text `( left op right )`. */
  lemma ExpandText(nodes: seq<Node>, render: F32 -> string, stack: seq<FormatToken>, id: NodeId)
    requires WellFormed(nodes) && id < |nodes| && nodes[id].IsBinary()
    ensures StackText(nodes, render, stack + Expansion(nodes[id]))
         == FormatText(nodes, render, id) + StackText(nodes, render, stack)
  {
    var n := nodes[id];
    assert n.ChildrenBelow(id);
    var l, o, r := FormatText(nodes, render, n.left), OpText(n.Op()), FormatText(nodes, render, n.right);
    var s1 := stack + [Str(")")];
    var s2 := s1 + [Expr(n.right)];
    var s3 := s2 + [Str(o)];
    var s4 := s3 + [Expr(n.left)];
    var s5 := s4 + [Str("(")];
    assert s5 == stack + Expansion(n);
    var rest := StackText(nodes, render, stack);
    PushOne(nodes, render, stack, Str(")"));
    PushOne(nodes, render, s1, Expr(n.right));
    PushOne(nodes, render, s2, Str(o));
    PushOne(nodes, render, s3, Expr(n.left));
    PushOne(nodes, render, s4, Str("("));
    assert StackText(nodes, render, s5) == "(" + (l + (o + (r + (")" + rest))));
    assert FormatText(nodes, render, id) == "(" + l + o + r + ")";
    Regroup("(", l, o, r, ")", rest);
  }

  lemma Regroup(a: string, b: string, c: string, d: string, e: string, f: string)
    ensures a + (b + (c + (d + (e + f)))) == (a + b + c + d + e) + f
  {
  }

  /** Popping `t` off `stack + [t]`: its text comes first, and its weight goes. */
  lemma PushOne(nodes: seq<Node>, render: F32 -> string, stack: seq<FormatToken>, t: FormatToken)
    requires WellFormed(nodes)
    ensures StackText(nodes, render, stack + [t]) == TokenText(nodes, render, t) + StackText(nodes, render, stack)
    ensures StackWeight(nodes, stack + [t]) == TokenWeight(nodes, t) + StackWeight(nodes, stack)
  {
    assert (stack + [t])[..|stack|] == stack;
  }

  /** ... and lowers its weight: the loop terminates. */
  lemma ExpandWeight(nodes: seq<Node>, stack: seq<FormatToken>, id: NodeId)
    requires WellFormed(nodes) && id < |nodes| && nodes[id].IsBinary()
    ensures StackWeight(nodes, stack + Expansion(nodes[id])) < StackWeight(nodes, stack + [Expr(id)])
  {
    var n := nodes[id];
    var p5 := Expansion(n);
    var p4, p3, p2, p1 := p5[..4], p5[..3], p5[..2], p5[..1];
    assert p4[..3] == p3 && p3[..2] == p2 && p2[..1] == p1 && p1[..0] == [];
    assert StackWeight(nodes, p1) == 1;
    assert StackWeight(nodes, p2) == 1 + Weight(nodes, n.right);
    assert StackWeight(nodes, p3) == 2 + Weight(nodes, n.right);
    assert StackWeight(nodes, p4) == 2 + Weight(nodes, n.left) + Weight(nodes, n.right);
    assert StackWeight(nodes, [Expr(id)]) == Weight(nodes, id) by {
      assert [Expr(id)][..0] == [];
    }
    StackWeightPush(nodes, stack, p5);
    StackWeightPush(nodes, stack, [Expr(id)]);
  }

  /** A variable formats as `Var(` + its decimal index + `)`, and the index
      can be read back from the text. */
  lemma VariableText(nodes: seq<Node>, render: F32 -> string, id: NodeId)
    requires WellFormed(nodes) && id < |nodes| && nodes[id].Variable?
    ensures var t := FormatText(nodes, render, id);
      |t| >= 6 && t[..4] == "Var(" && t[|t| - 1] == ')'
      && AllDigits(t[4..|t| - 1]) && DecimalValue(t[4..|t| - 1]) == nodes[id].index
  {
    var d := DecimalText(nodes[id].index);
    var t := FormatText(nodes, render, id);
    assert t == "Var(" + d + ")";
    assert t[4..|t| - 1] == d;
    DecimalRoundTrip(nodes[id].index);
  }

  /** Appending an entry to the arena changes no text already formattable:
      ids are never invalidated or re-pointed. */
  lemma {:induction false} FormatStableUnderAppend(nodes: seq<Node>, render: F32 -> string, x: Node, id: NodeId)
    requires WellFormed(nodes + [x]) && id < |nodes|
    ensures WellFormed(nodes)
    ensures FormatText(nodes + [x], render, id) == FormatText(nodes, render, id)
    decreases id
  {
    AppendWellFormed(nodes, x);
    var grown := nodes + [x];
    assert grown[id] == nodes[id];
    if nodes[id].IsBinary() {
      FormatStableUnderAppend(nodes, render, x, nodes[id].left);
      FormatStableUnderAppend(nodes, render, x, nodes[id].right);
    }
  }

  function Count(s: string, c: char): nat {
    multiset(s)[c]
  }

  /** When no constant's text contains a parenthesis, the formatted text has
      as many opening as closing ones: one pair per binary node and per
      variable reference. */
  lemma {:induction false} FormatBalanced(nodes: seq<Node>, render: F32 -> string, id: NodeId)
    requires WellFormed(nodes) && id < |nodes|
    requires forall c :: Count(render(c), '(') == 0 && Count(render(c), ')') == 0
    ensures Count(FormatText(nodes, render, id), '(') == Count(FormatText(nodes, render, id), ')')
    decreases id
  {
    var n := nodes[id];
    match n
    case Variable(i) =>
      var d := DecimalText(i);
      assert forall k :: 0 <= k < |d| ==> d[k] != '(' && d[k] != ')';
      assert '(' !in multiset(d) && ')' !in multiset(d);
      assert FormatText(nodes, render, id) == "Var(" + d + ")";
    case Constant(c) =>
      assert FormatText(nodes, render, id) == render(c);
    case _ =>
      FormatBalanced(nodes, render, n.left);
      FormatBalanced(nodes, render, n.right);
      BalancedJoin(FormatText(nodes, render, n.left), n.Op(), FormatText(nodes, render, n.right));
  }

  lemma BalancedJoin(l: string, op: BinOp, r: string)
    requires Count(l, '(') == Count(l, ')') && Count(r, '(') == Count(r, ')')
    ensures Count("(" + l + OpText(op) + r + ")", '(') == Count("(" + l + OpText(op) + r + ")", ')')
  {
    var o := OpText(op);
    assert Count(o, '(') == 0 == Count(o, ')') by {
      assert o == " + " || o == " - " || o == " * " || o == " / " || o == " ^ ";
    }
    CountConcat("(", l, o, r, ")");
  }

  lemma CountConcat(a: string, b: string, c: string, d: string, e: string)
    ensures Count(a + b + c + d + e, '(') == Count(a, '(') + Count(b, '(') + Count(c, '(') + Count(d, '(') + Count(e, '(')
    ensures Count(a + b + c + d + e, ')') == Count(a, ')') + Count(b, ')') + Count(c, ')') + Count(d, ')') + Count(e, ')')
  {
    assert multiset(a + b + c + d + e) == multiset(a) + multiset(b) + multiset(c) + multiset(d) + multiset(e);
  }
}

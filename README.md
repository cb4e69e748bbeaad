# tacitoo expression core in Dafny

This project models `src/lib.rs`, the whole of the tacitoo repository. That file holds:

- an append-only node arena, `NodeExpression`, with `new`, `add` and `node`;
- the closed node enum `Node`: five binary kinds holding child ids, `Variable(usize)` and `Constant(f32)`;
- two tree walks over the arena, `format` and `evaluate_point`. Neither one recurses: each keeps an explicit work stack in a `Vec`.

Modules and files:

- `nodes.dfy`, module `Nodes`: the `Node` datatype, the error outcomes, and the construction-order invariant `WellFormed` (every child id is below its parent's index). It also holds `Weight`, the unfolded size of a subtree. Both walks decrease the total weight of their stack.
- `decimal.dfy`, module `Decimal`: the decimal text of a `usize`, with its read-back function.
- `formatting.dfy`, module `Formatting`: `FormatText`, the recursive meaning of `format`: `"(" + left + op + right + ")"` for binary nodes, `"Var(" + decimal + ")"` for variables, `render(c)` for constants. It also holds the meaning of a stack of format tokens, read top first.
- `evaluation.dfy`, module `Evaluation`: `evaluate_point` exactly as the code is written. `Step` is one turn of its `loop` on any stack, `Run` is the loop run to its end, and `Outcome` is the closed form of a run from one seed.
- `post_order.dfy`, module `PostOrder`: a separate model of the post-order evaluator that `evaluate_point` was evidently meant to be, with its recursive meaning `Eval`.
- `arena.dfy`, module `Arena`: the class `NodeExpression`. Its field `nodes: seq<Node>` is reassigned by `Add`. `Format`, `EvaluatePoint` and `EvaluatePointCorrected` are `while` loops over a `seq` stack, each one proved equal to its specification function.
- `scenarios.dfy`, module `Scenarios`: the repository's `format` test, examples of operand order, and the inputs that expose the evaluator's defects.

`f32` values are their 32-bit patterns (`bv32`), and nothing interprets them:

- `evaluate_point`'s `+ - * /` and `powf` are supplied as an `Arith` record of uninterpreted functions.
- The `Display` text of an `f32` is supplied as a function `render`.

Every panic is an `Err` of type `Error`:

- `InvalidId`: the `Vec` index inside `node`.
- `UnboundVariable`: the out-of-range `bindings[id]`.
- One constructor for each of the evaluator's own `panic!`/`assert!` sites.

Where the design description and the code disagree, this model follows the code. The description presents `evaluate_point` as a working post-order evaluator. As written, it fails on every binary node (see Findings). `Arena.NodeExpression.EvaluatePoint` models the code as written. The intended algorithm is modelled separately, and labelled as such.

## Model

| member | source | states |
|---|---|---|
| Arena.NodeExpression.constructor | src/lib.rs:43-48 | `new` yields an empty arena with `root == 0` |
| Arena.NodeExpression.Add | src/lib.rs:50-54 | returns the previous length as the id; the arena grows by exactly that node; earlier entries and `root` are unchanged; reading the new id gives the added node back |
| Arena.NodeExpression.GetNode | src/lib.rs:56-58 | the read succeeds exactly when `id < |nodes|`, returning that entry; otherwise it fails with `InvalidId(id)` |
| Arena.NodeExpression.Format | src/lib.rs:60-126 | on a well-formed arena the work-stack loop terminates (the stack's weight decreases) and returns the recursive rendering `FormatText` of the subtree; an id outside the arena fails with `InvalidId` |
| Arena.NodeExpression.EvaluatePoint | src/lib.rs:128-257 | on a well-formed arena the loop as written terminates and returns `Run` from the seed, which equals the closed form `Outcome`: a value only for a lone leaf |
| Arena.NodeExpression.EvaluatePointCorrected | src/lib.rs:128-257 | the intended post-order loop terminates and returns the recursive value `Eval`, where the left operand is the left-hand side of every operator |
| Nodes.AppendWellFormed | src/lib.rs:50-54 | appending keeps the construction-order invariant exactly when the new node's children are ids already returned |
| Decimal.DecimalText | src/lib.rs:114-115 | the text of an index is non-empty, all digits, and has no leading zero unless the index is 0 |
| Decimal.DecimalRoundTrip | src/lib.rs:114-115 | reading the decimal text back yields the index |
| Formatting.VariableText | src/lib.rs:114-115 | a variable formats as `Var(` + digits + `)`, and the digits read back as its index |
| Formatting.ExpandText | src/lib.rs:75-113 | replacing a binary subtree token with the five pushed tokens (`)`, right, op, left, `(`) keeps the stack's text; LIFO popping yields `( left op right )` left to right |
| Formatting.ExpandWeight | src/lib.rs:70-113 | that expansion strictly lowers the stack's weight, so `format` terminates on a well-formed arena, shared children included |
| Formatting.ExpandInRange | src/lib.rs:76-113 | on a well-formed arena an expansion pushes only ids inside the arena, so only the starting id can make `node` fail |
| Formatting.FormatStableUnderAppend | src/lib.rs:50-54 | appending a node changes the text of no subtree that already existed |
| Formatting.FormatBalanced | src/lib.rs:68-123 | if no constant's text contains a parenthesis, the output has as many `(` as `)` |
| Evaluation.StepDecreases | src/lib.rs:143-257 | each turn of the loop that goes on lowers the stack's weight, from any stack |
| Evaluation.OperatorStep | src/lib.rs:166-220 | a marker over two values pops the first as the left-hand operand and the second as the right-hand one, and pushes their combination, so the stack shrinks by two |
| Evaluation.StrayValueStep | src/lib.rs:162-165 | a value popped with entries below it fails |
| Evaluation.MarkerOverNonValues | src/lib.rs:166-220 | a marker with fewer than two entries below it fails the `assert!`; over entries that are not both values it panics |
| Evaluation.SpineRun | src/lib.rs:162-165 | once an `Add` has been expanded, the run follows the chain of `Add` left children and ends in a failure given by `SpineOutcome` |
| Evaluation.SeedRun | src/lib.rs:140-257 | the run from the seed `Expr(n)` returns the closed form `Outcome` |
| Evaluation.SpineFails | src/lib.rs:223-227 | the run below an `Add` never reaches a value |
| Evaluation.SucceedsOnlyOnLeaves | src/lib.rs:144-157 | as written, evaluation succeeds exactly on a lone constant (returning it) or a lone variable the bindings cover (returning its binding) |
| PostOrder.StepDecreases | src/lib.rs:143-257 | each turn of the intended loop that goes on lowers the work stack's weight |
| PostOrder.RunPending | src/lib.rs:221-253 | evaluating a pending subtree on top of the work stack either fails as `Eval` does or leaves `Eval`'s value on top of the value stack |
| PostOrder.RunComputesEval | src/lib.rs:140-257 | the intended loop from one pending subtree and no values returns `Eval` |
| PostOrder.EvalSucceedsIffBound | src/lib.rs:248-250 | on a well-formed arena evaluation succeeds exactly when the bindings cover every variable below the id; a failure is `InvalidId` only for the starting id and is otherwise `UnboundVariable`, never a stack-shape error |
| PostOrder.EvalStableUnderAppend | src/lib.rs:50-54 | appending a node changes the value of no subtree that already existed |
| Scenarios.BuildTestTree | src/lib.rs:331-336 | the test's five `add` calls return ids 0, 1, 2, 3, 4 and build a well-formed arena |
| Scenarios.FormatTest | src/lib.rs:329-337 | `Mul(Add(Constant(5.0), Variable(0)), Variable(1))` formats to `((5 + Var(0)) * Var(1))` when 5.0 displays as `5` |
| Scenarios.TestTreeText | src/lib.rs:337 | the recursive rendering of the test tree is `((5 + Var(0)) * Var(1))` |
| Scenarios.LeftOperandText | src/lib.rs:335 | the test's `Add` node renders as `(5 + Var(0))` |
| Scenarios.EvaluateTest | src/lib.rs:143-247 | on the test tree with bindings `[two, three]`, the code as written fails, and the intended evaluator yields `(5 + two) * three` |
| Scenarios.OperandOrder | src/lib.rs:177-215 | the intended evaluator computes `x - y`, `x / y` and `x` raised to `y`, never the swapped forms |
| Scenarios.AddFailsAsWritten | src/lib.rs:223-227 | as written, `Add` of two constants fails with a stray value, where the intended result is their sum |
| Scenarios.MarkerFirstFailsAsWritten | src/lib.rs:228-246 | as written, `Sub`/`Mul`/`Div`/`Exp` of two constants fail on the marker, where the intended result is the operation's value |
| Scenarios.UnboundVariableFails | src/lib.rs:248-250 | `Variable(5)` with two bindings fails as `UnboundVariable(5)` in both evaluators and yields no value |

## Left out

- The `Expression` trait (src/lib.rs:15-22): its three methods are stubs with no arguments and no results.
- `partial_derivative` (src/lib.rs:263-321): it is commented out and would not compile.
- `f32` arithmetic and `powf`: these are the uninterpreted `Arith` parameter. The model makes no numeric claims, such as NaN propagation or rounding.
- The `Display` text of an `f32` (src/lib.rs:118): this is the uninterpreted `render` parameter. The test's `5.0` is assumed to display as `5`.
- The `root` field: `new` stores it and nothing reads it. It is kept as a field only.
- `write!(..).unwrap()` into a `String`: writing to a `String` cannot fail, so it is modelled as appending.
- The stray `*/` and the unreachable `0.0` after the evaluator's loop (src/lib.rs:258-259): only the loop is modelled.
- The `evaluate` test (src/lib.rs:341-351): it has no `#[test]` attribute and only repeats the `format` check.
- Arenas in which a child id is not below its parent's index: `add` does not check this. On such an arena the source may loop forever (for example, `Add(0, 0)` stored at index 0), panic on a later index, or succeed. `Format`, `EvaluatePoint` and `EvaluatePointCorrected` require `WellFormed`, because termination cannot be shown without it.
- Integer widths: ids and variable indices are unbounded `nat`s. `usize` overflow and allocation failure are not modelled.
- The five `match` arms of `format`'s binary cases differ only in their operator text. They are modelled as one branch that pushes `Formatting.Expansion`, with the text from `OpText`.
- The five operator markers of `EvalToken` are modelled as one `Marker(op)`.
- Native stack depth: both walks keep their work on a heap `seq`, so depth robustness has no counterpart in the model.

## Findings

| source | as written | input that shows it | evidently intended | confidence | as-written member | corrected member |
|---|---|---|---|---|---|---|
| src/lib.rs:228-246 | `Sub`, `Mul`, `Div` and `Exp` push their marker on top of their two operand subtrees. The next turn pops the marker, then two unexpanded subtrees, and panics (src/lib.rs:183-185, and the same for the others) | `Sub(Constant(10), Constant(3))` | both operands are resolved before the marker is applied, giving `10 - 3` | not executed | Scenarios.MarkerFirstFailsAsWritten | Arena.NodeExpression.EvaluatePointCorrected |
| src/lib.rs:223-227 | `Add` pushes its marker below its operands. The left operand's value then sits on top, and the next turn pops it with entries below it and panics (src/lib.rs:163-164) | `Add(Constant(5), Constant(2))` | the left value waits until the right one is resolved, giving `5 + 2` | not executed | Scenarios.AddFailsAsWritten | Arena.NodeExpression.EvaluatePointCorrected |

The corrected evaluator gives every binary node the same expansion: its marker, then the right operand, then the left operand. Values wait on a stack of their own, so a marker pops its right operand first and its left operand second. `PostOrder.RunComputesEval` proves that the loop equals the recursive `Eval`. `Scenarios.OperandOrder` and `Scenarios.EvaluateTest` check operand order and the test tree against it.

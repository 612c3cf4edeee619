# MiniAutoGrad engine, modelled in Dafny

`engine.py` is a tiny reverse-mode automatic differentiator. An expression
is a graph of node objects: `Constant`, `Variable`, `MulExpr`, `SinExpr` and
`SumExpr`. Every node has a mutable `value` and `grad` and three methods:
`forward(x)`, `backward()` and `children()`. The script at the bottom
differentiates `f = SumExpr(MulExpr(x1, x2), SinExpr(x1))` in four steps:

1. It lists the graph depth-first from the root with `loop_df`. This is a
   pre-order listing: root first, nothing deduplicated.
2. It runs `forward` over the reversed listing.
3. It seeds `f.grad = 1`.
4. It runs `backward` over the listing in order.

The model has these parts:

- **`Graph`** (`graph.dfy`)
  - Nodes live in an arena `seq<Node>`, in construction order, and refer to
    their operands by index. An operand object must exist before its consumer
    is built, so operands have smaller indices and the graph is acyclic
    (`WellFormed`).
  - `PreOrder` is what `loop_df` appends. Lemmas cover its shape: root first,
    one occurrence per path, operands after their consumer, and each
    occurrence followed by its whole subtree listing.
- **`Semantics`** (`semantics.dfy`)
  - Pure specifications:
    - `Step` is what one `forward` stores, including the `IndexError` of a
      variable whose location is outside `x`.
    - `Eval` is the value of a subexpression.
    - `BackStep` is what one `backward` does to the grads.
    - `BackRun` is a whole backward pass over a list.
    - `Via`/`Below` is the chain-rule gradient: for node `k`, the sum over
      the paths from the root to `k` of the products of the local partials
      that `backward` applies (the product rule at `MulExpr`, `cos` at
      `SinExpr`, 1 at `SumExpr`). It is what `backward` is meant to
      compute. It is the derivative of the root only for the product in
      `MulExpr.forward` (`EvalProduct`), not for the sum the code computes
      (first finding), and only when `cos` is the derivative of `sin`, which
      the model does not assume.
  - The central theorem is `TreeBackward`/`TreeGradient`. When no operator
    node is reached twice, the pass as written leaves every non-constant node
    with that chain-rule gradient.
- **`Corrected`** (`corrected.dfy`)
  - `EvalProduct`: `MulExpr.forward` computing a product.
  - A backward pass that calls each node's `backward()` once, consumers
    first. It is proved to give the chain-rule gradient on every graph,
    shared operators included.
  - The lemmas that exhibit the two findings below.
- **`Engine`** (`engine.dfy`)
  - The imperative program: a class `Engine` holding the arena, the `value`
    and `grad` fields as two arrays, and the script's `to_visit` list as a
    sequence field.
  - `Forward`, the per-class `backward` methods, the recursive `LoopDf`,
    and the two loops of the script, each proved against the functions of
    `Semantics`.
  - `Run`, which is the script, and `Example`, which is the script's example
    and its expected gradients.

`math.sin` and `math.cos` are the function parameters `sin` and `cos`. No
property depends on what they compute. Python floats are modelled as `real`.

## Model

| member | source | states |
|---|---|---|
| Graph.PreOrder | engine.py:99-102 | the listing from `n` starts with `n` and names only nodes of the arena |
| Graph.PreOrderUnfold | engine.py:99-102 | the listing is `n` followed by the listings of its children, in `children()` order |
| Graph.ForestStep | engine.py:101-102 | one more turn of the `for c in n.children()` loop appends that child's whole listing |
| Graph.OccurrencesArePaths | engine.py:99-102 | the listing keeps duplicates: node `k` occurs once per path from `n` to `k` |
| Graph.PreOrderBounded | engine.py:99-102 | every node listed from `n` was built no later than `n` |
| Graph.SubtreeContiguous | engine.py:99-102 | every occurrence of a node in the listing is followed by that node's whole listing |
| Graph.OperandsFollow | engine.py:99-110 | a node's operands occur after it in the listing, so the reversed loop reaches them before their consumer |
| Graph.PreOrderBlocks | engine.py:99-102 | a node's listing is itself, then its first operand's listing, then its second operand's |
| Graph.ExampleWellFormed | engine.py:89-92 | the script's example graph is a well-formed arena |
| Graph.PreOrderExample | engine.py:105-106 | the script's listing is `[f, MulExpr, x1, x2, SinExpr, x1]` |
| Graph.ExampleTree | engine.py:92 | in the example only the leaf `x1` is reached twice |
| Semantics.Lookup | engine.py:27 | `x[location]` is defined exactly for `-len(x) <= location < len(x)`; negative locations count from the end |
| Semantics.StepReadsOperands | engine.py:9-79 | `forward` reads only its operands' values (a constant only its own) |
| Semantics.StepAgreesWithEval | engine.py:46-79 | once its operands hold their values, `forward` stores the node's value |
| Semantics.EvalNoneSpreads | engine.py:109-110 | an `IndexError` anywhere in the listing means the root gets no value |
| Semantics.EvalDefinedIff | engine.py:109-110 | the root gets a value if and only if every variable listed has its location inside `x` |
| Semantics.InputsGiveValue | engine.py:109-110 | with all listed locations inside `x`, the root gets a value |
| Semantics.BackStepAdds | engine.py:13-83 | `backward` of `i` adds to each node exactly what `i` passes it by its local derivative; a constant instead resets its own grad to 0 |
| Semantics.BackRunAppend | engine.py:114-115 | running two lists in turn is running their concatenation |
| Semantics.BackRunSingle | engine.py:114-115 | a pass over a one-node list is that node's `backward` |
| Semantics.PreOrderUntouched | engine.py:114-115 | the pass over `n`'s listing changes no grad of a node outside that listing |
| Semantics.ConstantsCleared | engine.py:13-15 | every constant the pass visits ends with grad 0 |
| Semantics.BelowAbove | engine.py:40-86 | no gradient flows from a node to itself or to a node built after it |
| Semantics.TreeBackward | engine.py:99-115 | if only leaves are shared and the operators below `n` start at grad 0, the pass adds to each non-constant node `n`'s grad times the chain-rule gradient of `n` at it |
| Semantics.TreeGradient | engine.py:113-115 | on such a tree, starting from zero grads with `f.grad = 1`, each non-constant node ends with the chain-rule gradient of `f` at it |
| Semantics.DoubledInnerRun | engine.py:114-115 | the pass over `SumExpr(x, x)` adds twice its grad to `x` |
| Semantics.DoubledOuterVia | engine.py:72-86 | for `f = SumExpr(s, s)` with `s = SumExpr(x, x)`, `df/dx` is 4 |
| Semantics.SharedInteriorOvercounts | engine.py:99-115 | on that graph the pass as written leaves `x.grad` at 8, not the derivative 4 |
| Corrected.ExampleWritten | engine.py:46-47 | as written, the example computes `x1 + x2 + sin(x1)` |
| Corrected.ExampleProduct | engine.py:46-47 | with a product in `MulExpr.forward`, the example computes `x1 * x2 + sin(x1)` |
| Corrected.ExampleDerivativeX1 | engine.py:94 | the chain-rule gradient of the example at `x1` is `x2 + cos(x1)`, the script's `grad1_exp` |
| Corrected.ExampleDerivativeX2 | engine.py:95 | the chain-rule gradient of the example at `x2` is `x1`, the script's `grad2_exp` |
| Corrected.WrittenMulMisleads | engine.py:47-51 | as written, moving `x2` by `h` moves `f` by `h`, but the reported gradient for `x2` is `x1`; at `x = [2, 1]` these differ |
| Corrected.ProductMatchesGradient | engine.py:47-51 | with the product, moving `x2` by `h` moves `f` by exactly the reported gradient times `h` |
| Corrected.Descending | engine.py:114-115 | the corrected visiting order lists every node below `i` once, highest index first |
| Corrected.BelowLinear | engine.py:49-83 | what a grad passes on by the chain rule is linear in that grad |
| Corrected.ViaLinear | engine.py:49-83 | the same linearity, counting the node itself |
| Corrected.TotalUpdate | engine.py:114-115 | adding `d` to one grad adds that grad's chain-rule contribution of `d` |
| Corrected.StepTotal | engine.py:49-83 | one `backward` of `m` hands on to the nodes below it exactly the chain-rule contribution of `m`'s grad |
| Corrected.DescendingAbove | engine.py:114-115 | visiting the nodes below `i` leaves the grads of nodes from `i` on unchanged |
| Corrected.DescendingRun | engine.py:114-115 | visiting the nodes below `i` once each, consumers first, leaves each non-constant node with the chain-rule total of the starting grads |
| Corrected.CorrectedGradient | engine.py:113-115 | the corrected pass from `f.grad = 1` leaves each non-constant node with the chain-rule gradient of `f` at it, on every arena |
| Corrected.CorrectedSharedInterior | engine.py:113-115 | on the two-path example the corrected pass gives `x` its derivative 4 |
| Engine.Engine.constructor | engine.py:5-76 | fresh nodes: every grad 0; a constant's value is its argument |
| Engine.Engine.Children | engine.py:17-86 | leaves have no children; operators return their operands, all built earlier |
| Engine.Engine.Forward | engine.py:9-79 | `forward` writes only the node's own value, as `Step` gives. An out-of-range location fails and writes nothing. A constant's `forward` changes nothing. |
| Engine.Engine.Backward | engine.py:13-34 | a node's grads become `BackStep`. A constant clears its own grad. A variable changes nothing. No grad outside the node's operands changes. |
| Engine.Engine.MulBackward | engine.py:49-51 | the product-rule updates, one after the other, equal `BackStep` |
| Engine.Engine.SinBackward | engine.py:65-66 | `expr.grad += cos(expr.value) * grad` equals `BackStep` |
| Engine.Engine.SumBackward | engine.py:81-83 | the two additions of the grad equal `BackStep` |
| Engine.Engine.LoopDf | engine.py:99-102 | `to_visit` ends as its old contents followed by the listing from `n` |
| Engine.Engine.ForwardReady | engine.py:109-110 | before a node's `forward` in the reversed loop, its operands already hold their values |
| Engine.Engine.ForwardPass | engine.py:109-110 | the reversed loop succeeds if and only if the root has a value; then every listed node holds its value; unlisted nodes are untouched |
| Engine.Engine.BackwardPass | engine.py:114-115 | the grads become `BackRun` of the old grads over `to_visit` |
| Engine.Engine.SeededBackward | engine.py:113-115 | after seeding and the loop, on a tree from zero grads, each non-constant node holds the chain-rule gradient of `f` at it |
| Engine.Engine.Run | engine.py:105-115 | the script's steps: the listing, then values (or the `IndexError`, before any grad changes), then grads; nodes outside the listing keep their values; on a tree from zero grads the grads are the chain-rule gradients |
| Engine.Engine.CorrectedBackward | engine.py:113-115 | the corrected order with the seed: grads become `BackRun` over `Descending(f + 1)` |
| Engine.Engine.RunCorrected | engine.py:105-115 | the script with the corrected pass: `to_visit` becomes the descending order and the grads `BackRun` over it from the seed; nodes outside the listing keep their values; from zero grads every non-constant node ends with its chain-rule gradient, shared operators included |
| Engine.Example | engine.py:89-118 | the example ends with `x1.grad == cos(x[0]) + x[1]` and `x2.grad == x[0]`, the expected values the script prints beside them |

## Left out

- The two `print` calls (engine.py:117-118) are output only. `Example` returns the four numbers instead.
- Python floats are modelled as exact reals: no rounding, overflow, NaN or infinity.
- `math.sin` and `math.cos` are function parameters, with no properties assumed.
- A `Variable` or operator has no `value` attribute until its `forward` runs. Reading it earlier raises `AttributeError`. The model starts those values at 0. The script never reads a value early, because operands follow their consumer in the listing (`OperandsFollow`).
- Python's dynamic typing is not modelled: a location that is not an integer, an `x` that is not a list, or a node object of some other class.
- The recursion limit that deep graphs would hit in `loop_df` is not modelled.
- Python mixes integer and float grads (`0`, `1`, `1*grad`). The model uses reals throughout.
- Engine.Engine.ForwardPass: stated for the listing `loop_df` builds from a root, the only list the script passes to the loop. When it fails, only unlisted nodes are promised untouched, not the values written before the `IndexError`.
- Engine.Example: takes the input `x` as a parameter with two entries instead of the fixed `[1., 2.]`. It therefore covers the script's input among all others.
- Engine.Engine.CorrectedBackward: the corrected order `Descending(f + 1)` visits every node up to and including `f`, among them nodes that `loop_df` does not list from `f`. In the source those nodes never ran `forward`, so their `backward()` would raise `AttributeError` where it reads an operand's `value`. The model reads those values as 0. A fix that visits only the listed nodes, once each in descending order, is not modelled.
- Engine.Engine.Run: promises the chain-rule gradient only from zero grads on a tree-shaped listing. For other graphs it states only the `BackRun` the pass performs (see Findings). Grads are not reset between runs, as in the source.

## Findings

| source | as written | input that shows it | evidently intended | confidence | as-written member | corrected member |
|---|---|---|---|---|---|---|
| engine.py:47 | `MulExpr.forward` stores `left.value + right.value`, while its `backward` (engine.py:50-51) applies the product rule | `x = [2, 1]`: `f = x1 + x2 + sin(x1)`; moving `x2` by 1 moves `f` by 1, but `x2.grad` is reported as 2 | `self.value = self.left.value * self.right.value` | high, not executed | Corrected.WrittenMulMisleads | Corrected.ProductMatchesGradient |
| engine.py:99-102, engine.py:114-115 | the listing keeps one entry per path, and the pass calls `backward()` once per entry; a shared operator then passes its whole accumulated grad on more than once | `x`, `s = SumExpr(x, x)`, `f = SumExpr(s, s)`: `x.grad` ends at 8, while `df/dx` is 4 | call each node's `backward()` once, every consumer before its operands; the corrected member visits every node up to the root, in descending order | medium, not executed | Semantics.SharedInteriorOvercounts | Corrected.CorrectedGradient |

The script's own example does not expose either finding. The expected values
it prints come from the product rule, as do the grads it computes. Its only
shared node is the leaf `x1`, which the tree theorem allows.

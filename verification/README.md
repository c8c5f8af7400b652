# micrograd_cpp scalar autodiff core in Dafny

This project models the scalar reverse-mode automatic-differentiation engine of
micrograd_cpp:

- the `Value` node and its constructors;
- the forward operations `pow`, `exp` and `tanh`;
- the `+ * - /` overloads, including the ones that promote a plain `double` to a fresh leaf;
- the five local backward rules and the `_backward` dispatch;
- `backward`, with its recursive `build_topo` depth-first post-order.

The heap of `shared_ptr<Value>` nodes is an arena: a `Graph` is a `seq<Node>`.
A pointer is an index into it, and node identity is index identity.
Every operation appends its new nodes after their operands. So every operand index is below its consumer's index, and the graph is acyclic by construction.
This is the `WellFormed` invariant. It also records two facts:

- each tag has its number of operands;
- the second operand of `Pow` is the constant leaf that holds the exponent.

`std::exp`, `std::tanh` and `std::pow` are left uninterpreted. They are fields of a `Math` value that every operation needing them takes as a parameter.
Arithmetic is on `real`.

Modules:

- `Values`: the node, the arena, and well-formedness. It also defines the forward rule of each tag (`ForwardValue`) and reachability through operands.
- `Forward`: the constructors and overloads. Each one appends nodes that cache their forward rule's value, and it leaves every existing node untouched.
- `LocalRules`: the local rules. `Contrib(m, g, u, v)` is the reference definition: what node `u`'s rule adds to node `v`, one term per position in which `u` lists `v`. `LocalBackward` is the in-place rule run, proved to add exactly that amount to each node.
- `Topo`: `build_topo` as two mutually recursive functions over a visited set and an order. The result is the set of nodes reachable from the root, each listed once and after its operands, with the root last.
- `Backprop`: `backward`. Its contract is the chain rule. The root's grad becomes 1. Every other node ends with its old grad plus the sum, over every node reachable from the root, of what that node's rule contributes to it. That sum is computed from the final grads, so it is independent of the traversal order. An unreachable node keeps its grad.
- `Examples`: small graphs built through the operations and differentiated. They cover fan-out, a repeated pass without zeroing, a product and a sum, `pow`, `exp`, `tanh`, subtraction and division.

## Model

| member | source | states |
|---|---|---|
| Forward.Push | src/micrograd.cpp:9-15 | The full constructor appends one node with the given value, operands and tag, and grad 0. Every existing node is left unchanged and the arena stays well formed. |
| Forward.Leaf | src/micrograd.cpp:8 | The one-argument constructor appends a leaf: no operands, tag `Op_no`, grad 0 (the defaults at src/micrograd.hh:18-21). It caches its own value. |
| Forward.AddNodes | src/micrograd.cpp:90-94 | `lhs + rhs` appends an `Add` node over `[lhs, rhs]` whose value is the sum of the operands' values and which satisfies the forward rule of `Add`. |
| Forward.MulNodes | src/micrograd.cpp:105-109 | `lhs * rhs` appends a `Mul` node over `[lhs, rhs]` holding the product, consistent with the forward rule of `Mul`. |
| Forward.PowConst | src/micrograd.cpp:16-21 | `pow(y)` appends a constant leaf holding `y`, then a `Pow` node over `[a, leaf]` holding `pow(a, y)`. Both new nodes satisfy their forward rules. |
| Forward.ExpNode | src/micrograd.cpp:23-27 | `exp()` appends an `Exp` node over `[a]` holding `exp(a)`. |
| Forward.TanhNode | src/micrograd.cpp:29-33 | `tanh()` appends a `Tanh` node over `[a]` holding `tanh(a)`. |
| Forward.AddScalar | src/micrograd.cpp:96-99 | `lhs + r` promotes `r` to a fresh leaf and appends `Add` over `[lhs, leaf]` holding `lhs + r`. |
| Forward.ScalarAdd | src/micrograd.cpp:101-103 | `l + rhs` builds the same two nodes as `rhs + l`: the node is the first operand and the leaf holding `l` the second. |
| Forward.MulScalar | src/micrograd.cpp:111-114 | `lhs * r` promotes `r` to a fresh leaf and appends `Mul` over `[lhs, leaf]` holding `lhs * r`. |
| Forward.ScalarMul | src/micrograd.cpp:116-118 | `l * rhs` builds the same two nodes as `rhs * l`, the node first. |
| Forward.Neg | src/micrograd.cpp:120-122 | Unary minus is `lhs * -1`: a leaf holding -1 and a `Mul` node holding `-lhs`. |
| Forward.SubNodes | src/micrograd.cpp:124-126 | `lhs - rhs` appends three nodes: the -1 leaf, the `Mul` node negating `rhs`, and an `Add` node over `[lhs, neg]` holding `lhs - rhs`. There is no subtraction tag. |
| Forward.SubScalar | src/micrograd.cpp:128-130 | `lhs - r` negates the literal before promoting it. The leaf holds `-r` and the `Add` node holds `lhs - r`. |
| Forward.ScalarSub | src/micrograd.cpp:132-134 | `l - rhs` appends four nodes: the -1 leaf, the negation of `rhs`, a leaf holding `l`, then `Add` over `[neg, leaf]` holding `l - rhs`. |
| Forward.Recip | src/micrograd.cpp:141 | `1 / r` is the multiplicative inverse of a non-zero `r`. At 0 it is the IEEE result of `1 / r`, a parameter of the model. |
| Forward.DivNodes | src/micrograd.cpp:136-138 | `lhs / rhs` appends the -1 leaf, `rhs.pow(-1)`, then `Mul` over `[lhs, pow]`. Whenever `pow(rhs, -1)` inverts `rhs`, the result times `rhs` gives back `lhs`. |
| Forward.DivScalar | src/micrograd.cpp:140-142 | `lhs / r` promotes `1 / r` to a leaf and multiplies. For non-zero `r` the value is `lhs / r`. |
| Forward.ScalarDiv | src/micrograd.cpp:144-146 | `l / rhs` appends the -1 leaf, `rhs.pow(-1)`, a leaf holding `l`, then `Mul` over `[pow, leaf]`. When `pow(rhs, -1)` inverts `rhs`, the result times `rhs` gives back `l`. |
| Forward.ConsistentKept | src/micrograd.cpp:90-146 | A graph whose every node caches its forward rule's value keeps that property after any operation that appends value-consistent nodes. |
| LocalRules.LocalBackward | src/micrograd.cpp:35-68 | `_backward` on node `u` raises every node's grad by exactly `Contrib(u, ·)`, the sum over the positions where `u` lists it. Values, tags, operands and all other grads are unchanged. |
| LocalRules.RuleTable | src/micrograd.cpp:35-52 | The closed form of each rule. `Add` passes its grad to each operand. `Mul` passes the other operand's value times its grad. `Pow` passes `y * pow(x, y-1) * grad` to the base and nothing to the exponent. `Exp` passes its own value times grad. `Tanh` passes `(1 - value²) * grad`. An operand listed twice gets both terms; a node that does not list `v` gives it nothing. |
| LocalRules.PowExponentGetsNothing | src/micrograd.cpp:46-49 | The exponent leaf of a `Pow` node receives nothing from that node's rule. |
| Topo.Visit | src/micrograd.cpp:73-82 | One `build_topo(v)` call. It adds exactly the nodes reachable from `v` that were not listed yet. The order stays duplicate-free with operands first, and a freshly visited `v` comes last. |
| Topo.VisitOperands | src/micrograd.cpp:77-79 | The loop over `v->_prev` lists every operand from position `i` on, and everything reachable from them, and nothing else new. |
| Topo.TopoSort | src/micrograd.cpp:71-84 | The order built from the root holds exactly the nodes reachable from the root, each once and after all of its operands, with the root last. |
| Backprop.InflowIsMasked | src/micrograd.cpp:85-87 | Summing contributions along a duplicate-free order equals summing them over the set of its nodes: the sum does not depend on the order. |
| Backprop.SoleConsumer | src/micrograd.cpp:85-87 | A node whose only consumer is reachable from the root gets, from the chain-rule sum, exactly that consumer's contribution. |
| Backprop.ChainRule | src/micrograd.cpp:85-87 | Once every reachable node's rule has fired, in any duplicate-free order, the root holds 1. Every other node holds its seed plus the contributions of all reachable nodes, read at their final grads. Unreachable nodes keep their grads. |
| Backprop.ConsumerSumZero | src/micrograd.cpp:85-87 | No reachable node lists the root or an unreachable node as an operand, so neither receives anything from the reverse walk. |
| Backprop.FireAll | src/micrograd.cpp:83-87 | Setting the root's grad to 1 and then running `_backward` on the listed nodes from last to first changes only grads. Afterwards the root holds 1, every node the root does not reach keeps its old grad, and every other node holds its old grad plus `ConsumerSum`, the contributions of all reachable nodes read at their final grads. |
| Backprop.DifferentiatedUnique | src/micrograd.cpp:70-88 | The chain-rule statement of `backward` has at most one solution: two graphs that both satisfy it for the same input and root are equal. A node's sum reads only grads of nodes above it, so the contract fixes the result completely. |
| Backprop.Backward | src/micrograd.cpp:70-88 | `backward()` changes only grads. The root's grad becomes 1. Each other node ends with its old grad plus the sum of the contributions of all reachable nodes, each read at its final grad. Nodes not reachable from the root keep their grads, and nothing resets a grad first. |
| Examples.FanOutTwice | src/micrograd.cpp:35-38 | For `y = x + x`, one pass gives `x` a grad of 2. A second pass without zeroing gives 4, and the root is reset to 1. |
| Examples.MulAdd | src/micrograd.cpp:39-42 | For `d = a*b + c` at `(2, -3, 10)`, the grads are `a = -3`, `b = 2`, `c = 1` and the value is 4. |
| Examples.PowSquare | src/micrograd.cpp:46-49 | For `s = a.pow(2)` at 3, the grad of `a` is `2 * pow(3, 1)` and the exponent leaf's grad stays 0. |
| Examples.ExpAtZero | src/micrograd.cpp:43-45 | For `e = a.exp()` at 0, the grad of `a` equals the cached value `exp(0)`. |
| Examples.TanhAtZero | src/micrograd.cpp:50-52 | For `t = a.tanh()` at 0, the grad of `a` is `1 - tanh(0)²`, which is 1 when `tanh(0) = 0`. |
| Examples.Subtract | src/micrograd.cpp:124-126 | `a - b` at `(5, 3)` holds 2 and gives `a` a grad of 1 and `b` a grad of -1, through the `Mul` by -1 and the `Add`. |
| Examples.Divide | src/micrograd.cpp:136-138 | `a / b` at `(6, 3)` gives `a` the grad `pow(3, -1)` and `b` the grad `-1 * pow(3, -2) * 6`. |

## Left out

- The `Neuron`, `Layer` and `MLP` classes, their random initialisation and the training program. They are applications of the operations above and draw on a random device.
- Floating point. Values are `real`, so NaN, infinities, rounding and overflow are not modelled. The one place where the code relies on an IEEE result is the built-in division `1 / r` at `r = 0` in `lhs / r`; that is the `recipOfZero` parameter.
- `std::exp`, `std::tanh` and `std::pow` are uninterpreted parameters. No property of them is assumed except the one below. Where a result needs one (`tanh(0) = 0`, `pow(b, -1) * b = 1`), the contract states it as a hypothesis.
- LocalRules.LocalBackward: the `Tanh` rule squares the cached value with `std::pow(data, 2)`. It is modelled as `data * data`, which is the same on the reals.
- Memory management: `shared_ptr` reference counts, `enable_shared_from_this`, and freeing nodes no longer referenced. A node stays in the arena for the whole model.
- The mechanics of `std::function` and `std::unordered_set`. The visited set is a `set<nat>` of arena indices and the recursion is a pair of functions.
- Writing a grad or a value from outside (zeroing before reuse, an optimizer step). This is a plain field assignment with no logic of its own.

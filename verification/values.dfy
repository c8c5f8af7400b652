/**
 The scalar node of the autodiff engine and the arena that holds a graph of
 them. A `shared_ptr<Value>` becomes an index into a `Graph`; every operand
 index is smaller than the index of the node that uses it, so the graph is
 acyclic by construction.
 */
module Values {

  /** The six operation tags; `NoOp` marks a leaf (input, parameter or literal). */
  datatype Op = Add | Mul | Pow | Exp | Tanh | NoOp

  /** One scalar node: its cached forward value, its accumulated gradient,
      the arena indices of its operands in order, and its operation tag. */
  datatype Node = Node(data: real, grad: real, prev: seq<nat>, op: Op)

  /** The arena: node `i` lives at index `i`. */
  type Graph = seq<Node>

  /** The floating-point library the engine calls (`std::exp`, `std::tanh`,
      `std::pow`), left uninterpreted, and the value of `1 / 0.0`, which has no
      counterpart among the reals. */
  datatype Math = Math(exp: real -> real, tanh: real -> real, pow: (real, real) -> real, recipOfZero: real)

  /** The number of operands each tag carries. */
  function Arity(op: Op): nat
  {
    match op
    case Add => 2
    case Mul => 2
    case Pow => 2
    case Exp => 1
    case Tanh => 1
    case NoOp => 0
  }

  /** The leaf a bare scalar becomes: grad 0, no operands, tag `NoOp`. */
  function LeafNode(x: real): Node
  {
    Node(x, 0.0, [], NoOp)
  }

  /** Every operand was constructed strictly before its consumer. */
  ghost predicate OperandsBelow(g: Graph)
  {
    forall u, k :: 0 <= u < |g| && 0 <= k < |g[u].prev| ==> g[u].prev[k] < u
  }

  /** Every node carries as many operands as its tag says. */
  ghost predicate AritiesMatch(g: Graph)
  {
    forall u :: 0 <= u < |g| ==> |g[u].prev| == Arity(g[u].op)
  }

  /** The second operand of a `Pow` node is the constant leaf holding the
      exponent, created for that node after its base. */
  ghost predicate ExponentsAreLeaves(g: Graph)
    requires OperandsBelow(g) && AritiesMatch(g)
  {
    forall u :: 0 <= u < |g| && g[u].op == Pow ==> g[g[u].prev[1]].op == NoOp && g[u].prev[0] < g[u].prev[1]
  }

  /** The shape every graph built through the engine's operations has. */
  ghost predicate WellFormed(g: Graph)
  {
    && OperandsBelow(g)
    && AritiesMatch(g)
    && ExponentsAreLeaves(g)
  }

  /** The value the forward rule of node `u` computes from its operands' values;
      a leaf's value is whatever it holds. */
  function ForwardValue(m: Math, g: Graph, u: nat): real
    requires WellFormed(g) && u < |g|
  {
    var n := g[u];
    match n.op
    case Add => g[n.prev[0]].data + g[n.prev[1]].data
    case Mul => g[n.prev[0]].data * g[n.prev[1]].data
    case Pow => m.pow(g[n.prev[0]].data, g[n.prev[1]].data)
    case Exp => m.exp(g[n.prev[0]].data)
    case Tanh => m.tanh(g[n.prev[0]].data)
    case NoOp => n.data
  }

  /** The nodes from index `from` on cache the value of their forward rule. */
  ghost predicate Caches(m: Math, g: Graph, from: nat)
    requires WellFormed(g)
  {
    forall u :: from <= u < |g| ==> g[u].data == ForwardValue(m, g, u)
  }

  /** Every node caches the value of its forward rule. */
  ghost predicate Consistent(m: Math, g: Graph)
    requires WellFormed(g)
  {
    Caches(m, g, 0)
  }

  /** `g'` only differs from `g` in gradients: values, tags and operands agree. */
  ghost predicate SameShape(g: Graph, g': Graph)
  {
    && |g'| == |g|
    && forall v :: 0 <= v < |g| ==> g'[v].data == g[v].data && g'[v].prev == g[v].prev && g'[v].op == g[v].op
  }

  /** `v` is `u` itself or is reachable from one of `u`'s operands. */
  ghost predicate Reachable(g: Graph, u: nat, v: nat)
    requires WellFormed(g) && u < |g|
    decreases u
  {
    u == v || exists k :: 0 <= k < |g[u].prev| && Reachable(g, g[u].prev[k], v)
  }

  /** Nothing above `u` is reachable from `u`. */
  lemma {:induction false} ReachableBelow(g: Graph, u: nat, v: nat)
    requires WellFormed(g) && u < |g|
    requires Reachable(g, u, v)
    ensures v <= u
    decreases u
  {
    if u != v {
      var k :| 0 <= k < |g[u].prev| && Reachable(g, g[u].prev[k], v);
      ReachableBelow(g, g[u].prev[k], v);
    }
  }

  /** Reachability is transitive. */
  lemma {:induction false} ReachableTrans(g: Graph, u: nat, w: nat, v: nat)
    requires WellFormed(g) && u < |g| && w < |g|
    requires Reachable(g, u, w) && Reachable(g, w, v)
    ensures Reachable(g, u, v)
    decreases u
  {
    if u != w {
      var k :| 0 <= k < |g[u].prev| && Reachable(g, g[u].prev[k], w);
      ReachableTrans(g, g[u].prev[k], w, v);
    }
  }
}

/**
 Forward construction: every primitive appends one node that caches its value,
 records its tag and lists its operands in order; literals are promoted to
 fresh leaves; negation, subtraction and division are compositions of the
 primitives and add no node kind of their own.
 */
module Forward {
  import opened Values

  /** The arena after a call and the index of the node the call returns. */
  datatype Built = Built(graph: Graph, out: nat)

  /** `g'` is `g` with nodes appended: every existing node is left exactly as it
      was, the arena stays well formed, and every new node starts with grad 0. */
  ghost predicate Appends(g: Graph, g': Graph)
  {
    && |g| < |g'|
    && (forall i :: 0 <= i < |g| ==> g'[i] == g[i])
    && WellFormed(g')
    && (forall i :: |g| <= i < |g'| ==> g'[i].grad == 0.0)
  }

  /** The call appended nodes to `g` and returned the last one. */
  ghost predicate Returns(g: Graph, r: Built)
  {
    Appends(g, r.graph) && r.out == |r.graph| - 1
  }

  /** `r` appended a fresh leaf holding `x`, then a node tagged `op` over
      `[a, leaf]` that holds `value`, and returned that node. */
  ghost predicate Promoted(g: Graph, r: Built, op: Op, a: nat, x: real, value: real)
  {
    && Returns(g, r)
    && |r.graph| == |g| + 2
    && r.graph[|g|] == LeafNode(x)
    && r.graph[r.out] == Node(value, 0.0, [a, |g|], op)
  }

  /** `Value(data, children, op)`: a node with grad 0 appended after its operands. */
  function Push(g: Graph, x: real, prev: seq<nat>, op: Op): (r: Built)
    requires WellFormed(g)
    requires |prev| == Arity(op) && forall k :: 0 <= k < |prev| ==> prev[k] < |g|
    requires op == Pow ==> g[prev[1]].op == NoOp && prev[0] < prev[1]
    ensures Returns(g, r) && |r.graph| == |g| + 1
    ensures r.graph[r.out] == Node(x, 0.0, prev, op)
  {
    Built(g + [Node(x, 0.0, prev, op)], |g|)
  }

  /** Appending keeps the forward values already cached below `|g|`. */
  lemma CachesPrefix(g: Graph, g': Graph, from: nat)
    requires Appends(g, g') && WellFormed(g) && from <= |g|
    ensures forall m: Math :: Caches(m, g, from) && Caches(m, g', |g|) ==> Caches(m, g', from)
  {
    forall m: Math | Caches(m, g, from) && Caches(m, g', |g|)
      ensures Caches(m, g', from)
    {
      forall u | from <= u < |g'|
        ensures g'[u].data == ForwardValue(m, g', u)
      {
        if u < |g| {
          assert g'[u] == g[u];
          assert forall k :: 0 <= k < |g[u].prev| ==> g'[g[u].prev[k]] == g[g[u].prev[k]];
          assert g[u].data == ForwardValue(m, g, u);
        }
      }
    }
  }

  /** Appending twice is appending. */
  lemma AppendsTrans(g0: Graph, g1: Graph, g2: Graph)
    requires Appends(g0, g1) && Appends(g1, g2)
    ensures Appends(g0, g2)
  {
  }

  /** A graph whose nodes all cache their forward values keeps that property
      under every forward operation. */
  lemma ConsistentKept(m: Math, g: Graph, g': Graph)
    requires WellFormed(g) && Appends(g, g')
    requires Consistent(m, g) && Caches(m, g', |g|)
    ensures Consistent(m, g')
  {
    CachesPrefix(g, g', 0);
  }

  /** Two calls in sequence: the second keeps what the first appended and
      the forward values it cached. */
  lemma Then(m: Math, g: Graph, p: Built, r: Built)
    requires WellFormed(g) && Returns(g, p) && Returns(p.graph, r)
    requires Caches(m, p.graph, |g|) && Caches(m, r.graph, |p.graph|)
    ensures Returns(g, r) && Caches(m, r.graph, |g|)
    ensures forall i :: 0 <= i < |p.graph| ==> r.graph[i] == p.graph[i]
  {
    AppendsTrans(g, p.graph, r.graph);
    CachesPrefix(p.graph, r.graph, |g|);
  }

  /** `Value(x)`: a fresh leaf holding `x`. */
  function Leaf(g: Graph, x: real): (r: Built)
    requires WellFormed(g)
    ensures Returns(g, r) && |r.graph| == |g| + 1
    ensures r.graph[r.out] == LeafNode(x)
    ensures forall m: Math :: Caches(m, r.graph, |g|)
  {
    Push(g, x, [], NoOp)
  }

  /** `lhs + rhs`. */
  function AddNodes(g: Graph, a: nat, b: nat): (r: Built)
    requires WellFormed(g) && a < |g| && b < |g|
    ensures Returns(g, r) && |r.graph| == |g| + 1
    ensures r.graph[r.out] == Node(g[a].data + g[b].data, 0.0, [a, b], Add)
    ensures forall m: Math :: Caches(m, r.graph, |g|)
  {
    Push(g, g[a].data + g[b].data, [a, b], Add)
  }

  /** `lhs * rhs`. */
  function MulNodes(g: Graph, a: nat, b: nat): (r: Built)
    requires WellFormed(g) && a < |g| && b < |g|
    ensures Returns(g, r) && |r.graph| == |g| + 1
    ensures r.graph[r.out] == Node(g[a].data * g[b].data, 0.0, [a, b], Mul)
    ensures forall m: Math :: Caches(m, r.graph, |g|)
  {
    Push(g, g[a].data * g[b].data, [a, b], Mul)
  }

  /** `a.pow(y)`: the exponent becomes a fresh leaf, the second operand. */
  function PowConst(m: Math, g: Graph, a: nat, y: real): (r: Built)
    requires WellFormed(g) && a < |g|
    ensures Promoted(g, r, Pow, a, y, m.pow(g[a].data, y))
    ensures Caches(m, r.graph, |g|)
  {
    var e := Leaf(g, y);
    var r := Push(e.graph, m.pow(g[a].data, y), [a, e.out], Pow);
    AppendsTrans(g, e.graph, r.graph);
    CachesPrefix(e.graph, r.graph, |g|);
    r
  }

  /** `a.exp()`. */
  function ExpNode(m: Math, g: Graph, a: nat): (r: Built)
    requires WellFormed(g) && a < |g|
    ensures Returns(g, r) && |r.graph| == |g| + 1
    ensures r.graph[r.out] == Node(m.exp(g[a].data), 0.0, [a], Exp)
    ensures Caches(m, r.graph, |g|)
  {
    Push(g, m.exp(g[a].data), [a], Exp)
  }

  /** `a.tanh()`. */
  function TanhNode(m: Math, g: Graph, a: nat): (r: Built)
    requires WellFormed(g) && a < |g|
    ensures Returns(g, r) && |r.graph| == |g| + 1
    ensures r.graph[r.out] == Node(m.tanh(g[a].data), 0.0, [a], Tanh)
    ensures Caches(m, r.graph, |g|)
  {
    Push(g, m.tanh(g[a].data), [a], Tanh)
  }

  /** `lhs + r`: the literal becomes a fresh leaf, the second operand. */
  function AddScalar(g: Graph, a: nat, x: real): (r: Built)
    requires WellFormed(g) && a < |g|
    ensures Promoted(g, r, Add, a, x, g[a].data + x)
    ensures forall m: Math :: Caches(m, r.graph, |g|)
  {
    var l := Leaf(g, x);
    var r := AddNodes(l.graph, a, l.out);
    AppendsTrans(g, l.graph, r.graph);
    CachesPrefix(l.graph, r.graph, |g|);
    r
  }

  /** `l + rhs`: the same node shape as `rhs + l`, the node first. */
  function ScalarAdd(g: Graph, x: real, a: nat): (r: Built)
    requires WellFormed(g) && a < |g|
    ensures Promoted(g, r, Add, a, x, x + g[a].data)
    ensures forall m: Math :: Caches(m, r.graph, |g|)
  {
    AddScalar(g, a, x)
  }

  /** `lhs * r`: the literal becomes a fresh leaf, the second operand. */
  function MulScalar(g: Graph, a: nat, x: real): (r: Built)
    requires WellFormed(g) && a < |g|
    ensures Promoted(g, r, Mul, a, x, g[a].data * x)
    ensures forall m: Math :: Caches(m, r.graph, |g|)
  {
    var l := Leaf(g, x);
    var r := MulNodes(l.graph, a, l.out);
    AppendsTrans(g, l.graph, r.graph);
    CachesPrefix(l.graph, r.graph, |g|);
    r
  }

  /** `l * rhs`: the same node shape as `rhs * l`, the node first. */
  function ScalarMul(g: Graph, x: real, a: nat): (r: Built)
    requires WellFormed(g) && a < |g|
    ensures Promoted(g, r, Mul, a, x, x * g[a].data)
    ensures forall m: Math :: Caches(m, r.graph, |g|)
  {
    MulScalar(g, a, x)
  }

  /** `-lhs`, built as `lhs * -1`. */
  function Neg(g: Graph, a: nat): (r: Built)
    requires WellFormed(g) && a < |g|
    ensures Promoted(g, r, Mul, a, -1.0, -g[a].data)
    ensures forall m: Math :: Caches(m, r.graph, |g|)
  {
    MulScalar(g, a, -1.0)
  }

  /** `lhs - rhs`, built as `lhs + (-rhs)`. */
  function SubNodes(g: Graph, a: nat, b: nat): (r: Built)
    requires WellFormed(g) && a < |g| && b < |g|
    ensures Returns(g, r) && |r.graph| == |g| + 3
    ensures r.graph[|g|] == LeafNode(-1.0)
    ensures r.graph[|g| + 1] == Node(-g[b].data, 0.0, [b, |g|], Mul)
    ensures r.graph[r.out] == Node(g[a].data - g[b].data, 0.0, [a, |g| + 1], Add)
    ensures forall m: Math :: Caches(m, r.graph, |g|)
  {
    var n := Neg(g, b);
    var r := AddNodes(n.graph, a, n.out);
    AppendsTrans(g, n.graph, r.graph);
    CachesPrefix(n.graph, r.graph, |g|);
    r
  }

  /** `lhs - r`, built as `lhs + (-r)`: the negated literal becomes the leaf. */
  function SubScalar(g: Graph, a: nat, x: real): (r: Built)
    requires WellFormed(g) && a < |g|
    ensures Promoted(g, r, Add, a, -x, g[a].data - x)
    ensures forall m: Math :: Caches(m, r.graph, |g|)
  {
    AddScalar(g, a, -x)
  }

  /** `l - rhs`, built as `l + (-rhs)`, that is `(-rhs) + leaf(l)`. */
  function ScalarSub(g: Graph, x: real, a: nat): (r: Built)
    requires WellFormed(g) && a < |g|
    ensures Returns(g, r) && |r.graph| == |g| + 4
    ensures r.graph[|g|] == LeafNode(-1.0)
    ensures r.graph[|g| + 1] == Node(-g[a].data, 0.0, [a, |g|], Mul)
    ensures r.graph[|g| + 2] == LeafNode(x)
    ensures r.graph[r.out] == Node(x - g[a].data, 0.0, [|g| + 1, |g| + 2], Add)
    ensures forall m: Math :: Caches(m, r.graph, |g|)
  {
    var n := Neg(g, a);
    var r := AddScalar(n.graph, n.out, x);
    AppendsTrans(g, n.graph, r.graph);
    CachesPrefix(n.graph, r.graph, |g|);
    r
  }

  /** `1 / r` on a double; division by zero has no real result. */
  function Recip(m: Math, x: real): (r: real)
    ensures x != 0.0 ==> r * x == 1.0
    ensures x == 0.0 ==> r == m.recipOfZero
  {
    if x == 0.0 then m.recipOfZero else 1.0 / x
  }

  /** Multiplying by a reciprocal and then by its inverse gives back the factor. */
  lemma Cancel(p: real, b: real, a: real)
    ensures p * b == 1.0 ==> (a * p) * b == a && (p * a) * b == a
  {
    assert (a * p) * b == a * (p * b);
    assert (p * a) * b == a * (p * b);
  }

  /** `lhs / rhs`, built as `lhs * rhs.pow(-1)`. */
  function DivNodes(m: Math, g: Graph, a: nat, b: nat): (r: Built)
    requires WellFormed(g) && a < |g| && b < |g|
    ensures Returns(g, r) && |r.graph| == |g| + 3
    ensures r.graph[|g|] == LeafNode(-1.0)
    ensures r.graph[|g| + 1] == Node(m.pow(g[b].data, -1.0), 0.0, [b, |g|], Pow)
    ensures r.graph[r.out] == Node(g[a].data * m.pow(g[b].data, -1.0), 0.0, [a, |g| + 1], Mul)
    ensures m.pow(g[b].data, -1.0) * g[b].data == 1.0 ==> r.graph[r.out].data * g[b].data == g[a].data
    ensures Caches(m, r.graph, |g|)
  {
    var p := PowConst(m, g, b, -1.0);
    var r := MulNodes(p.graph, a, p.out);
    AppendsTrans(g, p.graph, r.graph);
    CachesPrefix(p.graph, r.graph, |g|);
    Cancel(m.pow(g[b].data, -1.0), g[b].data, g[a].data);
    r
  }

  /** `lhs / r`, built as `lhs * (1 / r)`: the reciprocal becomes the leaf. */
  function DivScalar(m: Math, g: Graph, a: nat, x: real): (r: Built)
    requires WellFormed(g) && a < |g|
    ensures Promoted(g, r, Mul, a, Recip(m, x), g[a].data * Recip(m, x))
    ensures x != 0.0 ==> r.graph[r.out].data == g[a].data / x
    ensures forall m': Math :: Caches(m', r.graph, |g|)
  {
    MulScalar(g, a, Recip(m, x))
  }

  /** `l / rhs`, built as `l * rhs.pow(-1)`, that is `rhs.pow(-1) * leaf(l)`. */
  function ScalarDiv(m: Math, g: Graph, x: real, a: nat): (r: Built)
    requires WellFormed(g) && a < |g|
    ensures Returns(g, r) && |r.graph| == |g| + 4
    ensures r.graph[|g|] == LeafNode(-1.0)
    ensures r.graph[|g| + 1] == Node(m.pow(g[a].data, -1.0), 0.0, [a, |g|], Pow)
    ensures r.graph[|g| + 2] == LeafNode(x)
    ensures r.graph[r.out] == Node(m.pow(g[a].data, -1.0) * x, 0.0, [|g| + 1, |g| + 2], Mul)
    ensures m.pow(g[a].data, -1.0) * g[a].data == 1.0 ==> r.graph[r.out].data * g[a].data == x
    ensures Caches(m, r.graph, |g|)
  {
    var p := PowConst(m, g, a, -1.0);
    var r := MulScalar(p.graph, p.out, x);
    ScalarDivSteps(m, g, x, a, p, r);
    r
  }

  /** The two steps of `ScalarDiv` compose into the promised arena. */
  lemma ScalarDivSteps(m: Math, g: Graph, x: real, a: nat, p: Built, r: Built)
    requires WellFormed(g) && a < |g|
    requires Promoted(g, p, Pow, a, -1.0, m.pow(g[a].data, -1.0)) && Caches(m, p.graph, |g|)
    requires Promoted(p.graph, r, Mul, p.out, x, p.graph[p.out].data * x)
    requires forall m': Math :: Caches(m', r.graph, |p.graph|)
    ensures Returns(g, r) && |r.graph| == |g| + 4 && Caches(m, r.graph, |g|)
    ensures r.graph[|g|] == LeafNode(-1.0)
    ensures r.graph[|g| + 1] == Node(m.pow(g[a].data, -1.0), 0.0, [a, |g|], Pow)
    ensures r.graph[|g| + 2] == LeafNode(x)
    ensures r.graph[r.out] == Node(m.pow(g[a].data, -1.0) * x, 0.0, [|g| + 1, |g| + 2], Mul)
    ensures m.pow(g[a].data, -1.0) * g[a].data == 1.0 ==> r.graph[r.out].data * g[a].data == x
  {
    Then(m, g, p, r);
    Cancel(m.pow(g[a].data, -1.0), g[a].data, x);
  }
}

/**
 The local backward rules: each node, reading its own grad and the values
 cached at construction, adds a contribution to the grad of each operand.
 */
module LocalRules {
  import opened Values

  /** What node `u`'s rule adds to its operand in position `k`. */
  function Local(m: Math, g: Graph, u: nat, k: nat): real
    requires WellFormed(g) && u < |g| && k < |g[u].prev|
  {
    var n := g[u];
    match n.op
    case Add => n.grad
    case Mul => (if k == 0 then g[n.prev[1]].data else g[n.prev[0]].data) * n.grad
    case Pow =>
      if k == 0 then
        var y := g[n.prev[1]].data;
        y * m.pow(g[n.prev[0]].data, y - 1.0) * n.grad
      else 0.0
    case Exp => n.data * n.grad
    case Tanh => (1.0 - n.data * n.data) * n.grad
    case NoOp => 0.0
  }

  /** The sum of what `u`'s rule adds to `v` over the positions `k..` of
      `u`'s operand list that hold `v`. */
  function ContribFrom(m: Math, g: Graph, u: nat, v: nat, k: nat): real
    requires WellFormed(g) && u < |g| && k <= |g[u].prev|
    decreases |g[u].prev| - k
  {
    if k == |g[u].prev| then 0.0
    else Position(m, g, u, v, k) + ContribFrom(m, g, u, v, k + 1)
  }

  /** What `u`'s rule adds to `v` through position `k` of its operand list. */
  function Position(m: Math, g: Graph, u: nat, v: nat, k: nat): real
    requires WellFormed(g) && u < |g| && k < |g[u].prev|
  {
    if g[u].prev[k] == v then Local(m, g, u, k) else 0.0
  }

  /** Everything node `u`'s rule adds to node `v`: one term per position of
      `v` in `u`'s operand list, so an operand listed twice gets two. */
  function Contrib(m: Math, g: Graph, u: nat, v: nat): real
    requires WellFormed(g) && u < |g|
  {
    ContribFrom(m, g, u, v, 0)
  }

  /** The contribution of a two-operand node, position by position. */
  lemma ContribBinary(m: Math, g: Graph, u: nat)
    requires WellFormed(g) && u < |g| && |g[u].prev| == 2
    ensures forall v :: Contrib(m, g, u, v) == Position(m, g, u, v, 0) + Position(m, g, u, v, 1)
  {
    forall v
      ensures Contrib(m, g, u, v) == Position(m, g, u, v, 0) + Position(m, g, u, v, 1)
    {
      assert ContribFrom(m, g, u, v, 2) == 0.0;
      assert ContribFrom(m, g, u, v, 1) == Position(m, g, u, v, 1);
      assert ContribFrom(m, g, u, v, 0) == Position(m, g, u, v, 0) + ContribFrom(m, g, u, v, 1);
    }
  }

  /** The contribution of a one-operand node. */
  lemma ContribUnary(m: Math, g: Graph, u: nat)
    requires WellFormed(g) && u < |g| && |g[u].prev| == 1
    ensures forall v :: Contrib(m, g, u, v) == Position(m, g, u, v, 0)
  {
    forall v
      ensures Contrib(m, g, u, v) == Position(m, g, u, v, 0)
    {
      assert ContribFrom(m, g, u, v, 1) == 0.0;
    }
  }

  /** A node that is not among `u`'s operands gets nothing from `u`. */
  lemma {:induction false} ContribFromNonOperand(m: Math, g: Graph, u: nat, v: nat, k: nat)
    requires WellFormed(g) && u < |g| && k <= |g[u].prev|
    requires forall j :: k <= j < |g[u].prev| ==> g[u].prev[j] != v
    ensures ContribFrom(m, g, u, v, k) == 0.0
    decreases |g[u].prev| - k
  {
    if k < |g[u].prev| {
      ContribFromNonOperand(m, g, u, v, k + 1);
    }
  }

  /** A contribution reads only `u`'s own grad and the values of `u` and its
      operands, never another node's grad. */
  lemma {:induction false} ContribFromFrame(m: Math, g: Graph, g': Graph, u: nat, v: nat, k: nat)
    requires WellFormed(g) && SameShape(g, g') && u < |g| && k <= |g[u].prev|
    requires g'[u].grad == g[u].grad
    ensures WellFormed(g')
    ensures ContribFrom(m, g', u, v, k) == ContribFrom(m, g, u, v, k)
    decreases |g[u].prev| - k
  {
    assert WellFormed(g') by {
      assert forall w :: 0 <= w < |g| ==> g'[w].prev == g[w].prev && g'[w].op == g[w].op;
    }
    if k < |g[u].prev| {
      ContribFromFrame(m, g, g', u, v, k + 1);
    }
  }

  /** Add `d` to the grad of node `i`. */
  function Bump(g: Graph, i: nat, d: real): (g': Graph)
    requires i < |g|
    ensures |g'| == |g|
    ensures g'[i] == g[i].(grad := g[i].grad + d)
    ensures forall v :: 0 <= v < |g| && v != i ==> g'[v] == g[v]
  {
    g[i := g[i].(grad := g[i].grad + d)]
  }

  /** `Value::_backward`: dispatch on the tag and run the rule in place. Each
      node's grad goes up by exactly what `u` contributes to it; values, tags
      and operands stay as they are. */
  function LocalBackward(m: Math, g: Graph, u: nat): (g': Graph)
    requires WellFormed(g) && u < |g|
    ensures |g'| == |g|
    ensures forall v :: 0 <= v < |g| ==> g'[v] == g[v].(grad := g[v].grad + Contrib(m, g, u, v))
  {
    var n := g[u];
    match n.op
    case Add =>
      var g1 := Bump(g, n.prev[0], n.grad);
      assert n.prev[0] < u;
      ContribBinary(m, g, u);
      Bump(g1, n.prev[1], g1[u].grad)
    case Mul =>
      var g1 := Bump(g, n.prev[0], g[n.prev[1]].data * n.grad);
      assert n.prev[0] < u;
      ContribBinary(m, g, u);
      Bump(g1, n.prev[1], g1[n.prev[0]].data * g1[u].grad)
    case Exp =>
      ContribUnary(m, g, u);
      Bump(g, n.prev[0], n.data * n.grad)
    case Pow =>
      var y := g[n.prev[1]].data;
      ContribBinary(m, g, u);
      Bump(g, n.prev[0], y * m.pow(g[n.prev[0]].data, y - 1.0) * n.grad)
    case Tanh =>
      ContribUnary(m, g, u);
      Bump(g, n.prev[0], (1.0 - n.data * n.data) * n.grad)
    case NoOp =>
      g
  }

  /** The exponent leaf of a `Pow` node gets no contribution from it. */
  lemma PowExponentGetsNothing(m: Math, g: Graph, u: nat)
    requires WellFormed(g) && u < |g| && g[u].op == Pow
    ensures Contrib(m, g, u, g[u].prev[1]) == 0.0
  {
    var e := g[u].prev[1];
    assert ContribFrom(m, g, u, e, 2) == 0.0;
    assert ContribFrom(m, g, u, e, 1) == Local(m, g, u, 1) == 0.0;
  }

  /** The rule of each tag, operand by operand. An operand listed in both
      positions receives both terms; a node that lists no `v` gives it nothing. */
  lemma RuleTable(m: Math, g: Graph, u: nat, v: nat)
    requires WellFormed(g) && u < |g|
    ensures (forall k :: 0 <= k < |g[u].prev| ==> g[u].prev[k] != v) ==> Contrib(m, g, u, v) == 0.0
    ensures g[u].op == NoOp ==> Contrib(m, g, u, v) == 0.0
    ensures g[u].op == Add && g[u].prev[0] != g[u].prev[1] && v in g[u].prev ==> Contrib(m, g, u, v) == g[u].grad
    ensures g[u].op == Add && g[u].prev == [v, v] ==> Contrib(m, g, u, v) == 2.0 * g[u].grad
    ensures g[u].op == Mul && g[u].prev[0] != g[u].prev[1] && v == g[u].prev[0] ==>
              Contrib(m, g, u, v) == g[g[u].prev[1]].data * g[u].grad
    ensures g[u].op == Mul && g[u].prev[0] != g[u].prev[1] && v == g[u].prev[1] ==>
              Contrib(m, g, u, v) == g[g[u].prev[0]].data * g[u].grad
    ensures g[u].op == Mul && g[u].prev == [v, v] ==> Contrib(m, g, u, v) == 2.0 * g[v].data * g[u].grad
    ensures g[u].op == Pow && v == g[u].prev[0] ==>
              Contrib(m, g, u, v) == g[g[u].prev[1]].data * m.pow(g[v].data, g[g[u].prev[1]].data - 1.0) * g[u].grad
    ensures g[u].op == Pow && v == g[u].prev[1] ==> Contrib(m, g, u, v) == 0.0
    ensures g[u].op == Exp && v == g[u].prev[0] ==> Contrib(m, g, u, v) == g[u].data * g[u].grad
    ensures g[u].op == Tanh && v == g[u].prev[0] ==> Contrib(m, g, u, v) == (1.0 - g[u].data * g[u].data) * g[u].grad
  {
    if forall k :: 0 <= k < |g[u].prev| ==> g[u].prev[k] != v {
      ContribFromNonOperand(m, g, u, v, 0);
    }
    if |g[u].prev| == 2 {
      ContribBinary(m, g, u);
    } else if |g[u].prev| == 1 {
      ContribUnary(m, g, u);
    }
  }
}

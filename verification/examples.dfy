/**
 Small graphs built through the engine's operations and differentiated with
 `backward`, with the gradients the chain rule gives.
 */
module Examples {
  import opened Values
  import opened Forward
  import opened LocalRules
  import opened Backprop

  /** In a graph of at most five nodes, `c` is the only node listing `v`. */
  lemma OnlyConsumerSmall(g: Graph, v: nat, c: nat)
    requires |g| <= 5
    requires 0 < |g| ==> 0 == c || v !in g[0].prev
    requires 1 < |g| ==> 1 == c || v !in g[1].prev
    requires 2 < |g| ==> 2 == c || v !in g[2].prev
    requires 3 < |g| ==> 3 == c || v !in g[3].prev
    requires 4 < |g| ==> 4 == c || v !in g[4].prev
    ensures OnlyConsumer(g, v, c, |g|)
  {
    assert OnlyConsumer(g, v, c, 0);
    if 0 < |g| { assert OnlyConsumer(g, v, c, 1); }
    if 1 < |g| { assert OnlyConsumer(g, v, c, 2); }
    if 2 < |g| { assert OnlyConsumer(g, v, c, 3); }
    if 3 < |g| { assert OnlyConsumer(g, v, c, 4); }
    if 4 < |g| { assert OnlyConsumer(g, v, c, 5); }
  }

  /** After a pass, a node with grad 0 beforehand, whose only consumer is
      reachable, holds exactly that consumer's contribution. */
  lemma FromSoleConsumer(m: Math, g: Graph, root: nat, g': Graph, v: nat, c: nat)
    requires WellFormed(g) && root < |g| && Differentiated(m, g, root, g')
    requires v < |g| && v != root && g[v].grad == 0.0
    requires c < |g| && Reachable(g', root, c) && OnlyConsumer(g', v, c, |g'|)
    ensures g'[v].grad == Contrib(m, g', c, v)
  {
    SoleConsumer(m, g', root, v, c);
  }

  /** The chain rule on `y = x + x`: the shared operand is listed twice. */
  lemma FanOutGrads(m: Math, g: Graph, g': Graph)
    requires WellFormed(g) && |g| == 2 && g[1].prev == [0, 0] && g[1].op == Add && g[0].prev == []
    requires Differentiated(m, g, 1, g')
    ensures g'[0].grad == g[0].grad + 2.0
  {
    assert g'[1].prev == [0, 0] && g'[0].prev == [];
    assert Reachable(g', 1, 1);
    OnlyConsumerSmall(g', 0, 1);
    SoleConsumer(m, g', 1, 0, 1);
    RuleTable(m, g', 1, 0);
  }

  /** `x = 5; y = x + x; y.backward()` twice without zeroing: the shared
      operand accumulates both terms, and the second pass adds on top of the
      first while the root is reset to 1. */
  method FanOutTwice(m: Math) returns (first: real, second: real, rootGrad: real)
    ensures first == 2.0 && second == 4.0 && rootGrad == 1.0
  {
    var x := Leaf([], 5.0);
    var y := AddNodes(x.graph, x.out, x.out);
    var g := y.graph;
    assert g == [LeafNode(5.0), Node(10.0, 0.0, [0, 0], Add)];
    var g1 := Backward(m, g, 1);
    FanOutGrads(m, g, g1);
    first := g1[0].grad;
    var g2 := Backward(m, g1, 1);
    FanOutGrads(m, g1, g2);
    second := g2[0].grad;
    rootGrad := g2[1].grad;
  }

  /** The chain rule on `d = a*b + c` with `a = 2, b = -3, c = 10`: the sum
      passes its grad of 1 to both of its operands. */
  lemma MulAddSumGrads(m: Math, g: Graph, g': Graph)
    requires g == [LeafNode(2.0), LeafNode(-3.0), LeafNode(10.0),
                   Node(-6.0, 0.0, [0, 1], Mul), Node(4.0, 0.0, [3, 2], Add)]
    requires WellFormed(g) && Differentiated(m, g, 4, g')
    ensures g'[3].grad == 1.0 && g'[2].grad == 1.0
  {
    assert g'[4].prev == [3, 2] && g'[3].prev == [0, 1];
    assert g'[0].prev == [] && g'[1].prev == [] && g'[2].prev == [];
    assert Reachable(g', 4, 4);
    OnlyConsumerSmall(g', 3, 4);
    FromSoleConsumer(m, g, 4, g', 3, 4);
    RuleTable(m, g', 4, 3);
    OnlyConsumerSmall(g', 2, 4);
    FromSoleConsumer(m, g, 4, g', 2, 4);
    RuleTable(m, g', 4, 2);
  }

  /** The same graph: each factor of the product receives the other factor's
      value. */
  lemma MulAddGrads(m: Math, g: Graph, g': Graph)
    requires g == [LeafNode(2.0), LeafNode(-3.0), LeafNode(10.0),
                   Node(-6.0, 0.0, [0, 1], Mul), Node(4.0, 0.0, [3, 2], Add)]
    requires WellFormed(g) && Differentiated(m, g, 4, g')
    ensures g'[0].grad == -3.0 && g'[1].grad == 2.0 && g'[2].grad == 1.0
  {
    MulAddSumGrads(m, g, g');
    assert g'[4].prev == [3, 2] && g'[3].prev == [0, 1];
    assert g'[0].prev == [] && g'[1].prev == [] && g'[2].prev == [];
    assert Reachable(g', 4, 3) by {
      assert g'[4].prev[0] == 3 && Reachable(g', 3, 3);
    }
    OnlyConsumerSmall(g', 0, 3);
    FromSoleConsumer(m, g, 4, g', 0, 3);
    RuleTable(m, g', 3, 0);
    OnlyConsumerSmall(g', 1, 3);
    FromSoleConsumer(m, g, 4, g', 1, 3);
    RuleTable(m, g', 3, 1);
  }

  /** `a = 2; b = -3; c = 10; d = a*b + c; d.backward()`: each factor of a
      product receives the other factor's value. */
  method MulAdd(m: Math) returns (aGrad: real, bGrad: real, cGrad: real, dValue: real)
    ensures aGrad == -3.0 && bGrad == 2.0 && cGrad == 1.0 && dValue == 4.0
  {
    var a := Leaf([], 2.0);
    var b := Leaf(a.graph, -3.0);
    var c := Leaf(b.graph, 10.0);
    assert c.graph == [LeafNode(2.0), LeafNode(-3.0), LeafNode(10.0)];
    var p := MulNodes(c.graph, a.out, b.out);
    var d := AddNodes(p.graph, p.out, c.out);
    var g := d.graph;
    assert |g| == 5 && g[0] == LeafNode(2.0) && g[1] == LeafNode(-3.0) && g[2] == LeafNode(10.0);
    assert g[3] == Node(-6.0, 0.0, [0, 1], Mul) && g[4] == Node(4.0, 0.0, [3, 2], Add);
    assert g == [LeafNode(2.0), LeafNode(-3.0), LeafNode(10.0),
                 Node(-6.0, 0.0, [0, 1], Mul), Node(4.0, 0.0, [3, 2], Add)];
    var g1 := Backward(m, g, 4);
    MulAddGrads(m, g, g1);
    aGrad, bGrad, cGrad, dValue := g1[0].grad, g1[1].grad, g1[2].grad, g1[4].data;
  }

  /** The chain rule on `s = a.pow(2)` with `a = 3`. */
  lemma PowSquareGrads(m: Math, g: Graph, g': Graph)
    requires g == [LeafNode(3.0), LeafNode(2.0), Node(m.pow(3.0, 2.0), 0.0, [0, 1], Pow)]
    requires WellFormed(g) && Differentiated(m, g, 2, g')
    ensures g'[0].grad == 2.0 * m.pow(3.0, 1.0) && g'[1].grad == 0.0
  {
    assert g'[2].prev == [0, 1] && g'[0].prev == [] && g'[1].prev == [];
    assert Reachable(g', 2, 2);
    OnlyConsumerSmall(g', 0, 2);
    FromSoleConsumer(m, g, 2, g', 0, 2);
    RuleTable(m, g', 2, 0);
    OnlyConsumerSmall(g', 1, 2);
    FromSoleConsumer(m, g, 2, g', 1, 2);
    RuleTable(m, g', 2, 1);
  }

  /** `a = 3; s = a.pow(2); s.backward()`: the base receives `2 * 3^1`, the
      exponent leaf receives nothing. */
  method PowSquare(m: Math) returns (aGrad: real, exponentGrad: real, sValue: real)
    ensures aGrad == 2.0 * m.pow(3.0, 1.0) && exponentGrad == 0.0 && sValue == m.pow(3.0, 2.0)
  {
    var a := Leaf([], 3.0);
    var s := PowConst(m, a.graph, a.out, 2.0);
    var g := s.graph;
    assert g == [LeafNode(3.0), LeafNode(2.0), Node(m.pow(3.0, 2.0), 0.0, [0, 1], Pow)];
    var g1 := Backward(m, g, 2);
    PowSquareGrads(m, g, g1);
    aGrad, exponentGrad, sValue := g1[0].grad, g1[1].grad, g1[2].data;
  }

  /** The chain rule on a one-operand node over a leaf. */
  lemma UnaryGrads(m: Math, g: Graph, g': Graph)
    requires WellFormed(g) && |g| == 2 && g[1].prev == [0] && g[0].prev == [] && g[0].grad == 0.0
    requires Differentiated(m, g, 1, g')
    ensures g[1].op == Exp ==> g'[0].grad == g[1].data
    ensures g[1].op == Tanh ==> g'[0].grad == 1.0 - g[1].data * g[1].data
  {
    assert g'[1].prev == [0] && g'[0].prev == [];
    assert Reachable(g', 1, 1);
    OnlyConsumerSmall(g', 0, 1);
    FromSoleConsumer(m, g, 1, g', 0, 1);
    RuleTable(m, g', 1, 0);
  }

  /** `a = 0; e = a.exp(); e.backward()`: the operand receives the node's own
      cached value. */
  method ExpAtZero(m: Math) returns (aGrad: real, eValue: real)
    ensures aGrad == eValue && eValue == m.exp(0.0)
  {
    var a := Leaf([], 0.0);
    var e := ExpNode(m, a.graph, a.out);
    var g := e.graph;
    assert g == [LeafNode(0.0), Node(m.exp(0.0), 0.0, [0], Exp)];
    var g1 := Backward(m, g, 1);
    UnaryGrads(m, g, g1);
    aGrad, eValue := g1[0].grad, g1[1].data;
  }

  /** `a = 0; t = a.tanh(); t.backward()`: the operand receives one minus the
      square of the node's cached value, which is 1 when `tanh(0) = 0`. */
  method TanhAtZero(m: Math) returns (aGrad: real, tValue: real)
    ensures tValue == m.tanh(0.0) && aGrad == 1.0 - tValue * tValue
    ensures m.tanh(0.0) == 0.0 ==> aGrad == 1.0
  {
    var a := Leaf([], 0.0);
    var t := TanhNode(m, a.graph, a.out);
    var g := t.graph;
    assert g == [LeafNode(0.0), Node(m.tanh(0.0), 0.0, [0], Tanh)];
    var g1 := Backward(m, g, 1);
    UnaryGrads(m, g, g1);
    aGrad, tValue := g1[0].grad, g1[1].data;
  }

  /** The chain rule on `s = a - b`, built as `a + b * -1`, with `a = 5, b = 3`. */
  lemma SubtractGrads(m: Math, g: Graph, g': Graph)
    requires g == [LeafNode(5.0), LeafNode(3.0), LeafNode(-1.0),
                   Node(-3.0, 0.0, [1, 2], Mul), Node(2.0, 0.0, [0, 3], Add)]
    requires WellFormed(g) && Differentiated(m, g, 4, g')
    ensures g'[0].grad == 1.0 && g'[1].grad == -1.0
  {
    assert g'[4].prev == [0, 3] && g'[3].prev == [1, 2];
    assert g'[0].prev == [] && g'[1].prev == [] && g'[2].prev == [];
    assert Reachable(g', 4, 4);
    assert Reachable(g', 3, 3) && g'[4].prev[1] == 3;
    OnlyConsumerSmall(g', 3, 4);
    FromSoleConsumer(m, g, 4, g', 3, 4);
    RuleTable(m, g', 4, 3);
    OnlyConsumerSmall(g', 0, 4);
    FromSoleConsumer(m, g, 4, g', 0, 4);
    RuleTable(m, g', 4, 0);
    OnlyConsumerSmall(g', 1, 3);
    FromSoleConsumer(m, g, 4, g', 1, 3);
    RuleTable(m, g', 3, 1);
  }

  /** `a = 5; b = 3; s = a - b; s.backward()`: subtraction has no rule of its
      own, yet the composition `a + b * -1` gives `a` +1 and `b` -1. */
  method Subtract(m: Math) returns (aGrad: real, bGrad: real, sValue: real)
    ensures aGrad == 1.0 && bGrad == -1.0 && sValue == 2.0
  {
    var a := Leaf([], 5.0);
    var b := Leaf(a.graph, 3.0);
    assert b.graph == [LeafNode(5.0), LeafNode(3.0)];
    var s := SubNodes(b.graph, a.out, b.out);
    var g := s.graph;
    assert |g| == 5 && g[0] == LeafNode(5.0) && g[1] == LeafNode(3.0) && g[2] == LeafNode(-1.0);
    assert g[3] == Node(-3.0, 0.0, [1, 2], Mul) && g[4] == Node(2.0, 0.0, [0, 3], Add);
    assert g == [LeafNode(5.0), LeafNode(3.0), LeafNode(-1.0),
                 Node(-3.0, 0.0, [1, 2], Mul), Node(2.0, 0.0, [0, 3], Add)];
    var g1 := Backward(m, g, 4);
    SubtractGrads(m, g, g1);
    aGrad, bGrad, sValue := g1[0].grad, g1[1].grad, g1[4].data;
  }

  /** The chain rule on `q = a / b`, built as `a * b.pow(-1)`, with `a = 6, b = 3`:
      the numerator receives the reciprocal. */
  lemma DivideNumeratorGrad(m: Math, g: Graph, g': Graph)
    requires g == [LeafNode(6.0), LeafNode(3.0), LeafNode(-1.0),
                   Node(m.pow(3.0, -1.0), 0.0, [1, 2], Pow), Node(6.0 * m.pow(3.0, -1.0), 0.0, [0, 3], Mul)]
    requires WellFormed(g) && Differentiated(m, g, 4, g')
    ensures g'[0].grad == m.pow(3.0, -1.0)
  {
    assert g'[4].prev == [0, 3] && g'[3].prev == [1, 2];
    assert g'[0].prev == [] && g'[1].prev == [] && g'[2].prev == [];
    assert Reachable(g', 4, 4);
    OnlyConsumerSmall(g', 0, 4);
    FromSoleConsumer(m, g, 4, g', 0, 4);
    RuleTable(m, g', 4, 0);
  }

  /** The same graph: the `Pow` node receives the numerator's value from the
      `Mul` node above it. */
  lemma DividePowGrad(m: Math, g: Graph, g': Graph)
    requires g == [LeafNode(6.0), LeafNode(3.0), LeafNode(-1.0),
                   Node(m.pow(3.0, -1.0), 0.0, [1, 2], Pow), Node(6.0 * m.pow(3.0, -1.0), 0.0, [0, 3], Mul)]
    requires WellFormed(g) && Differentiated(m, g, 4, g')
    ensures g'[3].grad == 6.0
  {
    assert g'[4].prev == [0, 3];
    assert g'[0].prev == [] && g'[1].prev == [] && g'[2].prev == [] && g'[3].prev == [1, 2];
    assert Reachable(g', 4, 4);
    OnlyConsumerSmall(g', 3, 4);
    FromSoleConsumer(m, g, 4, g', 3, 4);
    RuleTable(m, g', 4, 3);
  }

  /** The same graph: the denominator receives the `Pow` rule's term. */
  lemma DivideDenominatorGrad(m: Math, g: Graph, g': Graph)
    requires g == [LeafNode(6.0), LeafNode(3.0), LeafNode(-1.0),
                   Node(m.pow(3.0, -1.0), 0.0, [1, 2], Pow), Node(6.0 * m.pow(3.0, -1.0), 0.0, [0, 3], Mul)]
    requires WellFormed(g) && Differentiated(m, g, 4, g')
    ensures g'[1].grad == -1.0 * m.pow(3.0, -2.0) * 6.0
  {
    DividePowGrad(m, g, g');
    assert g'[3].prev == [1, 2];
    assert g'[0].prev == [] && g'[1].prev == [] && g'[2].prev == [] && g'[4].prev == [0, 3];
    assert Reachable(g', 4, 3) by {
      assert g'[4].prev[1] == 3 && Reachable(g', 3, 3);
    }
    OnlyConsumerSmall(g', 1, 3);
    FromSoleConsumer(m, g, 4, g', 1, 3);
    RuleTable(m, g', 3, 1);
    assert g'[2].data == -1.0 && g'[1].data == 3.0 && -1.0 - 1.0 == -2.0;
  }

  /** `a = 6; b = 3; q = a / b; q.backward()`: division is `a * b.pow(-1)`,
      so `a` receives `3^-1` and `b` receives `-1 * 3^-2 * 6`. */
  method Divide(m: Math) returns (aGrad: real, bGrad: real)
    ensures aGrad == m.pow(3.0, -1.0)
    ensures bGrad == -1.0 * m.pow(3.0, -2.0) * 6.0
  {
    var a := Leaf([], 6.0);
    var b := Leaf(a.graph, 3.0);
    assert b.graph == [LeafNode(6.0), LeafNode(3.0)];
    var q := DivNodes(m, b.graph, a.out, b.out);
    var g := q.graph;
    assert |g| == 5 && g[0] == LeafNode(6.0) && g[1] == LeafNode(3.0) && g[2] == LeafNode(-1.0);
    assert g[3] == Node(m.pow(3.0, -1.0), 0.0, [1, 2], Pow) && g[4] == Node(6.0 * m.pow(3.0, -1.0), 0.0, [0, 3], Mul);
    assert g == [LeafNode(6.0), LeafNode(3.0), LeafNode(-1.0),
                 Node(m.pow(3.0, -1.0), 0.0, [1, 2], Pow), Node(6.0 * m.pow(3.0, -1.0), 0.0, [0, 3], Mul)];
    var g1 := Backward(m, g, 4);
    DivideNumeratorGrad(m, g, g1);
    DivideDenominatorGrad(m, g, g1);
    aGrad, bGrad := g1[0].grad, g1[1].grad;
  }
}

/**
 `Value::backward`: seed the root's grad with 1, then run every reachable
 node's local rule once, walking the topological order backwards. The result
 is stated as the chain rule: each node ends with its old grad plus what every
 reachable consumer contributes, computed from that consumer's final grad.
 */
module Backprop {
  import opened Values
  import opened LocalRules
  import opened Topo

  /** The grads before any rule fires: the root's is overwritten with 1, the
      others keep whatever they held. */
  function Seed(g: Graph, root: nat, v: nat): real
    requires v < |g|
  {
    if v == root then 1.0 else g[v].grad
  }

  /** What the rules of the nodes in `us` add to `v`, each reading its node's
      grad in `g`. */
  function Inflow(m: Math, g: Graph, us: seq<nat>, v: nat): real
    requires WellFormed(g) && InArena(g, us)
    decreases |us|
  {
    if us == [] then 0.0 else Contrib(m, g, us[0], v) + Inflow(m, g, us[1..], v)
  }

  /** The sum over nodes `u < n` in `mask` of what `u` contributes to `v`. */
  function Masked(m: Math, g: Graph, mask: set<nat>, v: nat, n: nat): real
    requires WellFormed(g) && n <= |g|
  {
    if n == 0 then 0.0
    else Masked(m, g, mask, v, n - 1) + (if n - 1 in mask then Contrib(m, g, n - 1, v) else 0.0)
  }

  /** The nodes reachable from `root`. */
  ghost function ReachSet(g: Graph, root: nat): set<nat>
    requires WellFormed(g) && root < |g|
  {
    set w | 0 <= w < |g| && Reachable(g, root, w)
  }

  /** The chain-rule sum for `v`: what every node reachable from `root`
      contributes to `v`, order-independent. */
  ghost function ConsumerSum(m: Math, g: Graph, root: nat, v: nat): real
    requires WellFormed(g) && root < |g|
  {
    Masked(m, g, ReachSet(g, root), v, |g|)
  }

  /** The set of nodes a list holds. */
  ghost function Elems(t: seq<nat>): set<nat>
  {
    set x | x in t
  }

  /** Graphs that differ only in grads are equally well formed. */
  lemma ShapeKeepsWellFormed(g: Graph, g': Graph)
    requires WellFormed(g) && SameShape(g, g')
    ensures WellFormed(g')
  {
    assert forall w :: 0 <= w < |g| ==> g'[w].prev == g[w].prev && g'[w].op == g[w].op;
  }

  /** Reachability depends only on operands, not on grads. */
  lemma {:induction false} ReachableShape(g: Graph, g': Graph, u: nat, v: nat)
    requires WellFormed(g) && SameShape(g, g') && u < |g|
    ensures WellFormed(g')
    ensures Reachable(g', u, v) == Reachable(g, u, v)
    decreases u
  {
    ShapeKeepsWellFormed(g, g');
    forall k | 0 <= k < |g[u].prev|
      ensures Reachable(g', g[u].prev[k], v) == Reachable(g, g[u].prev[k], v)
    {
      ReachableShape(g, g', g[u].prev[k], v);
    }
  }

  /** Masks that agree below `n` give the same sum. */
  lemma {:induction false} MaskedAgree(m: Math, g: Graph, a: set<nat>, b: set<nat>, v: nat, n: nat)
    requires WellFormed(g) && n <= |g|
    requires forall u :: 0 <= u < n ==> (u in a <==> u in b)
    ensures Masked(m, g, a, v, n) == Masked(m, g, b, v, n)
  {
    if n > 0 {
      MaskedAgree(m, g, a, b, v, n - 1);
    }
  }

  /** Adding one node below `n` to the mask adds its contribution once. */
  lemma {:induction false} MaskedInsert(m: Math, g: Graph, mask: set<nat>, a: nat, v: nat, n: nat)
    requires WellFormed(g) && n <= |g| && a < n && a !in mask
    ensures Masked(m, g, mask + {a}, v, n) == Masked(m, g, mask, v, n) + Contrib(m, g, a, v)
  {
    if n - 1 == a {
      MaskedAgree(m, g, mask + {a}, mask, v, n - 1);
    } else {
      MaskedInsert(m, g, mask, a, v, n - 1);
    }
  }

  /** An empty mask sums to nothing. */
  lemma {:induction false} MaskedEmpty(m: Math, g: Graph, v: nat, n: nat)
    requires WellFormed(g) && n <= |g|
    ensures Masked(m, g, {}, v, n) == 0.0
  {
    if n > 0 {
      MaskedEmpty(m, g, v, n - 1);
    }
  }

  /** Summing along a duplicate-free list is summing over its set of nodes:
      the order of the list does not matter. */
  lemma {:induction false} InflowIsMasked(m: Math, g: Graph, t: seq<nat>, v: nat)
    requires WellFormed(g) && InArena(g, t) && NoDup(t)
    ensures Inflow(m, g, t, v) == Masked(m, g, Elems(t), v, |g|)
    decreases |t|
  {
    if t == [] {
      assert Elems(t) == {};
      MaskedEmpty(m, g, v, |g|);
    } else {
      var rest := t[1..];
      assert Elems(t) == Elems(rest) + {t[0]};
      assert t[0] !in Elems(rest);
      InflowIsMasked(m, g, rest, v);
      MaskedInsert(m, g, Elems(rest), t[0], v, |g|);
    }
  }

  /** Inflow reads only the grads of the listed nodes. */
  lemma {:induction false} InflowFrame(m: Math, g: Graph, g': Graph, us: seq<nat>, v: nat)
    requires WellFormed(g) && SameShape(g, g') && InArena(g, us)
    requires forall i :: 0 <= i < |us| ==> g'[us[i]].grad == g[us[i]].grad
    ensures WellFormed(g')
    ensures Inflow(m, g', us, v) == Inflow(m, g, us, v)
    decreases |us|
  {
    ShapeKeepsWellFormed(g, g');
    if us != [] {
      ContribFromFrame(m, g, g', us[0], v, 0);
      InflowFrame(m, g, g', us[1..], v);
    }
  }

  /** Running the rule of `topo[i]` extends the sum over `topo[i+1..]` to
      `topo[i..]`: that rule changes no grad its successors in the order read,
      nor its own. */
  lemma LoopStep(m: Math, g: Graph, cur: Graph, topo: seq<nat>, i: nat)
    requires WellFormed(g) && SameShape(g, cur)
    requires InArena(g, topo) && NoDup(topo) && OperandsFirst(g, topo) && i < |topo|
    ensures WellFormed(cur)
    ensures forall v :: 0 <= v < |g| ==>
              Inflow(m, LocalBackward(m, cur, topo[i]), topo[i..], v)
              == Contrib(m, cur, topo[i], v) + Inflow(m, cur, topo[i + 1..], v)
  {
    ShapeKeepsWellFormed(g, cur);
    var u := topo[i];
    var next := LocalBackward(m, cur, u);
    assert SameShape(cur, next);
    assert SameShape(g, next);
    forall w | w in topo[i + 1..] || w == u
      ensures next[w].grad == cur[w].grad
    {
      forall k | 0 <= k < |cur[u].prev|
        ensures cur[u].prev[k] != w
      {
        OperandBefore(g, topo, i, k);
        assert cur[u].prev[k] < u;
      }
      ContribFromNonOperand(m, cur, u, w, 0);
    }
    forall v | 0 <= v < |g|
      ensures Inflow(m, next, topo[i..], v) == Contrib(m, cur, u, v) + Inflow(m, cur, topo[i + 1..], v)
    {
      assert topo[i..][1..] == topo[i + 1..];
      ContribFromFrame(m, cur, next, u, v, 0);
      InflowFrame(m, cur, next, topo[i + 1..], v);
    }
  }

  /** No reachable node lists the root, nor an unreachable node, as operand:
      neither receives anything from the chain-rule sum. */
  lemma ConsumerSumZero(m: Math, g: Graph, root: nat, v: nat)
    requires WellFormed(g) && root < |g| && v < |g|
    requires v == root || !Reachable(g, root, v)
    ensures ConsumerSum(m, g, root, v) == 0.0
  {
    var mask := ReachSet(g, root);
    forall u | u in mask
      ensures Contrib(m, g, u, v) == 0.0
    {
      forall k | 0 <= k < |g[u].prev|
        ensures g[u].prev[k] != v
      {
        ReachableBelow(g, root, u);
        if g[u].prev[k] == v {
          assert Reachable(g, u, v);
          ReachableTrans(g, root, u, v);
        }
      }
      ContribFromNonOperand(m, g, u, v, 0);
    }
    MaskedAllZero(m, g, mask, v, |g|);
  }

  /** A mask whose every member contributes nothing to `v` sums to nothing. */
  lemma {:induction false} MaskedAllZero(m: Math, g: Graph, mask: set<nat>, v: nat, n: nat)
    requires WellFormed(g) && n <= |g|
    requires forall u :: u in mask && u < |g| ==> Contrib(m, g, u, v) == 0.0
    ensures Masked(m, g, mask, v, n) == 0.0
  {
    if n > 0 {
      MaskedAllZero(m, g, mask, v, n - 1);
    }
  }

  /** Once every rule along `topo` has fired, each grad is its seed plus the
      chain-rule sum over the reachable nodes. */
  lemma ChainRule(m: Math, g: Graph, g': Graph, root: nat, topo: seq<nat>)
    requires WellFormed(g) && root < |g| && SameShape(g, g')
    requires InArena(g, topo) && NoDup(topo)
    requires forall w :: w in topo <==> Reachable(g, root, w)
    requires WellFormed(g')
    requires forall v :: 0 <= v < |g| ==> g'[v].grad == Seed(g, root, v) + Inflow(m, g', topo, v)
    ensures Differentiated(m, g, root, g')
  {
    assert Elems(topo) == ReachSet(g', root) by {
      forall w: nat
        ensures w in Elems(topo) <==> w in ReachSet(g', root)
      {
        if w < |g| {
          ReachableShape(g, g', root, w);
        }
      }
    }
    forall v | 0 <= v < |g|
      ensures g'[v].grad == Seed(g, root, v) + ConsumerSum(m, g', root, v)
    {
      InflowIsMasked(m, g', topo, v);
    }
    ConsumerSumZero(m, g', root, root);
    forall v | 0 <= v < |g| && !Reachable(g, root, v)
      ensures g'[v].grad == g[v].grad
    {
      ReachableShape(g, g', root, v);
      ConsumerSumZero(m, g', root, v);
    }
  }

  /** No node below `n` other than `c` lists `v` as an operand. */
  ghost predicate OnlyConsumer(g: Graph, v: nat, c: nat, n: nat)
    requires n <= |g|
  {
    n == 0 || ((n - 1 == c || v !in g[n - 1].prev) && OnlyConsumer(g, v, c, n - 1))
  }

  /** When `c` is the only node that lists `v` as an operand, a masked sum
      for `v` is `c`'s contribution if `c` is counted, and nothing otherwise. */
  lemma {:induction false} MaskedSole(m: Math, g: Graph, mask: set<nat>, v: nat, c: nat, n: nat)
    requires WellFormed(g) && n <= |g| && c < |g|
    requires OnlyConsumer(g, v, c, n)
    ensures Masked(m, g, mask, v, n) == if c < n && c in mask then Contrib(m, g, c, v) else 0.0
  {
    if n > 0 {
      MaskedSole(m, g, mask, v, c, n - 1);
      if n - 1 != c {
        ContribFromNonOperand(m, g, n - 1, v, 0);
      }
    }
  }

  /** A node whose only consumer is reachable from the root receives exactly
      that consumer's contribution. */
  lemma SoleConsumer(m: Math, g: Graph, root: nat, v: nat, c: nat)
    requires WellFormed(g) && root < |g| && c < |g| && Reachable(g, root, c)
    requires OnlyConsumer(g, v, c, |g|)
    ensures ConsumerSum(m, g, root, v) == Contrib(m, g, c, v)
  {
    assert c in ReachSet(g, root);
    MaskedSole(m, g, ReachSet(g, root), v, c, |g|);
  }

  /** The loop invariant of `backward`: after the rules of `topo[i..]` have
      fired, every grad is its seed plus what those rules added. */
  ghost predicate Fired(m: Math, g: Graph, root: nat, cur: Graph, topo: seq<nat>, i: nat)
    requires WellFormed(g) && InArena(g, topo) && i <= |topo|
  {
    && SameShape(g, cur)
    && WellFormed(cur)
    && forall v :: 0 <= v < |g| ==> cur[v].grad == Seed(g, root, v) + Inflow(m, cur, topo[i..], v)
  }

  /** Firing the rule of `topo[i]` moves the invariant from `i + 1` to `i`. */
  lemma FireNext(m: Math, g: Graph, root: nat, cur: Graph, topo: seq<nat>, i: nat)
    requires WellFormed(g) && InArena(g, topo) && NoDup(topo) && OperandsFirst(g, topo) && i < |topo|
    requires Fired(m, g, root, cur, topo, i + 1)
    ensures Fired(m, g, root, LocalBackward(m, cur, topo[i]), topo, i)
  {
    LoopStep(m, g, cur, topo, i);
    var next := LocalBackward(m, cur, topo[i]);
    assert SameShape(g, next);
    ShapeKeepsWellFormed(g, next);
  }

  /** What a backward pass from `root` leaves in `g'`: only grads changed;
      the root's grad is 1; a node the root does not reach keeps its grad; and
      every other node holds its old grad plus the chain-rule sum of what the
      reachable nodes contribute to it, each read at its final grad. */
  ghost predicate Differentiated(m: Math, g: Graph, root: nat, g': Graph)
    requires WellFormed(g) && root < |g|
  {
    && SameShape(g, g') && WellFormed(g')
    && g'[root].grad == 1.0
    && (forall v :: 0 <= v < |g| && !Reachable(g, root, v) ==> g'[v].grad == g[v].grad)
    && forall v {:trigger ConsumerSum(m, g', root, v)} :: 0 <= v < |g| && v != root ==>
         g'[v].grad == g[v].grad + ConsumerSum(m, g', root, v)
  }

  /** Two graphs that differ only in grads, with the same grad at `u`, get the
      same contribution from `u`'s rule from position `k` on. */
  lemma {:induction false} ContribFromAgree(m: Math, g1: Graph, g2: Graph, u: nat, v: nat, k: nat)
    requires WellFormed(g1) && SameShape(g1, g2) && u < |g1| && k <= |g1[u].prev|
    requires g1[u].grad == g2[u].grad
    ensures WellFormed(g2)
    ensures ContribFrom(m, g1, u, v, k) == ContribFrom(m, g2, u, v, k)
    decreases |g1[u].prev| - k
  {
    ShapeKeepsWellFormed(g1, g2);
    if k < |g1[u].prev| {
      ContribFromAgree(m, g1, g2, u, v, k + 1);
      assert g1[g1[u].prev[0]].data == g2[g2[u].prev[0]].data;
      if |g1[u].prev| == 2 {
        assert g1[g1[u].prev[1]].data == g2[g2[u].prev[1]].data;
      }
    }
  }

  /** Masked sums agree when every counted node contributes the same in both
      graphs. */
  lemma {:induction false} MaskedGradsAgree(m: Math, g1: Graph, g2: Graph, mask: set<nat>, v: nat, n: nat)
    requires WellFormed(g1) && WellFormed(g2) && n <= |g1| && |g1| == |g2|
    requires forall u :: 0 <= u < n && u in mask ==> Contrib(m, g1, u, v) == Contrib(m, g2, u, v)
    ensures Masked(m, g1, mask, v, n) == Masked(m, g2, mask, v, n)
  {
    if n > 0 {
      MaskedGradsAgree(m, g1, g2, mask, v, n - 1);
    }
  }

  /** Two results of a backward pass from `root` agree on the grad of `v`:
      `v`'s chain-rule sum reads only the grads of nodes above `v`. */
  lemma {:induction false} GradDetermined(m: Math, g: Graph, root: nat, g1: Graph, g2: Graph, v: nat)
    requires WellFormed(g) && root < |g| && v < |g|
    requires Differentiated(m, g, root, g1) && Differentiated(m, g, root, g2)
    ensures g1[v].grad == g2[v].grad
    decreases |g| - v
  {
    if v != root && Reachable(g, root, v) {
      assert SameShape(g1, g2);
      assert ReachSet(g1, root) == ReachSet(g2, root) by {
        forall w | 0 <= w < |g|
          ensures Reachable(g1, root, w) == Reachable(g2, root, w)
        {
          ReachableShape(g, g1, root, w);
          ReachableShape(g, g2, root, w);
        }
      }
      forall u | 0 <= u < |g| && u in ReachSet(g1, root)
        ensures Contrib(m, g1, u, v) == Contrib(m, g2, u, v)
      {
        if u <= v {
          ContribFromNonOperand(m, g1, u, v, 0);
          ContribFromNonOperand(m, g2, u, v, 0);
        } else {
          GradDetermined(m, g, root, g1, g2, u);
          ContribFromAgree(m, g1, g2, u, v, 0);
        }
      }
      MaskedGradsAgree(m, g1, g2, ReachSet(g1, root), v, |g|);
      assert ConsumerSum(m, g1, root, v) == ConsumerSum(m, g2, root, v);
    }
  }

  /** `Differentiated` leaves nothing open: it has at most one solution, so
      it fixes the result of `backward` completely. */
  lemma DifferentiatedUnique(m: Math, g: Graph, root: nat, g1: Graph, g2: Graph)
    requires WellFormed(g) && root < |g|
    requires Differentiated(m, g, root, g1) && Differentiated(m, g, root, g2)
    ensures g1 == g2
  {
    forall v | 0 <= v < |g|
      ensures g1[v] == g2[v]
    {
      GradDetermined(m, g, root, g1, g2, v);
    }
  }

  /** The body of `backward` after `build_topo`: set the root's grad to 1,
      then run the rule of every node of `topo`, from the last to the first.
      Once it ends, the grads satisfy the chain rule. The ensures are the four
      conjuncts of `Differentiated` written out, which keeps the loop's proof
      small; `Backward` states them as `Differentiated`. */
  method FireAll(m: Math, g: Graph, root: nat, topo: seq<nat>) returns (g': Graph)
    requires WellFormed(g) && root < |g|
    requires InArena(g, topo) && NoDup(topo) && OperandsFirst(g, topo)
    requires forall w :: w in topo <==> Reachable(g, root, w)
    ensures SameShape(g, g') && WellFormed(g')
    ensures g'[root].grad == 1.0
    ensures forall v :: 0 <= v < |g| && !Reachable(g, root, v) ==> g'[v].grad == g[v].grad
    ensures forall v {:trigger ConsumerSum(m, g', root, v)} :: 0 <= v < |g| && v != root ==>
              g'[v].grad == g[v].grad + ConsumerSum(m, g', root, v)
  {
    g' := g[root := g[root].(grad := 1.0)];
    ShapeKeepsWellFormed(g, g');
    var i := |topo|;
    while i > 0
      invariant 0 <= i <= |topo|
      invariant Fired(m, g, root, g', topo, i)
    {
      i := i - 1;
      FireNext(m, g, root, g', topo, i);
      g' := LocalBackward(m, g', topo[i]);
    }
    assert topo[0..] == topo;
    ChainRule(m, g, g', root, topo);
  }

  /** `Value::backward` on node `root`. */
  method Backward(m: Math, g: Graph, root: nat) returns (g': Graph)
    requires WellFormed(g) && root < |g|
    ensures Differentiated(m, g, root, g')
  {
    var topo := TopoSort(g, root);
    g' := FireAll(m, g, root, topo);
  }
}

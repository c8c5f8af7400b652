/**
 `build_topo`: a depth-first post-order over the nodes reachable from a root,
 with a visited set keyed by node identity. The result lists every reachable
 node exactly once, each after all of its operands, and the root last.
 */
module Topo {
  import opened Values

  /** What the recursion threads through: the visited set and the order so far. */
  datatype Dfs = Dfs(visited: set<nat>, topo: seq<nat>)

  /** No node is listed twice. */
  ghost predicate NoDup(t: seq<nat>)
  {
    forall i, j :: 0 <= i < j < |t| ==> t[i] != t[j]
  }

  /** Every listed index names a node of `g`. */
  ghost predicate InArena(g: Graph, t: seq<nat>)
  {
    forall i :: 0 <= i < |t| ==> t[i] < |g|
  }

  /** Every listed node comes after all of its operands: the last one's
      operands are listed before it, and so on down the list. */
  ghost predicate OperandsFirst(g: Graph, t: seq<nat>)
    requires InArena(g, t)
    decreases |t|
  {
    |t| == 0 ||
    var n := |t| - 1;
    && OperandsFirst(g, t[..n])
    && forall k :: 0 <= k < |g[t[n]].prev| ==> g[t[n]].prev[k] in t[..n]
  }

  /** In an operand-first list, each operand of the node at position `i` is
      listed before position `i`. */
  lemma {:induction false} OperandBefore(g: Graph, t: seq<nat>, i: nat, k: nat)
    requires InArena(g, t) && OperandsFirst(g, t)
    requires i < |t| && k < |g[t[i]].prev|
    ensures g[t[i]].prev[k] in t[..i]
    decreases |t|
  {
    var n := |t| - 1;
    if i < n {
      assert t[..n][i] == t[i];
      OperandBefore(g, t[..n], i, k);
      assert t[..n][..i] == t[..i];
    }
  }

  /** What holds between calls: the order is a duplicate-free, operand-first
      list of visited nodes. */
  ghost predicate DfsInv(g: Graph, s: Dfs)
  {
    && InArena(g, s.topo)
    && NoDup(s.topo)
    && (forall i :: 0 <= i < |s.topo| ==> s.topo[i] in s.visited)
    && OperandsFirst(g, s.topo)
  }

  /** The nodes whose visit has begun but not finished: the current DFS path. */
  ghost function Open(s: Dfs): set<nat>
  {
    set w | w in s.visited && w !in s.topo
  }

  /** `r` continues `s`: the invariant still holds, the order and the visited
      set only grew, and the same visits are still open. */
  ghost predicate Extended(g: Graph, s: Dfs, r: Dfs)
  {
    && DfsInv(g, r)
    && s.topo <= r.topo && s.visited <= r.visited
    && Open(r) == Open(s)
  }

  /** An operand-first list holds everything reachable from any of its nodes. */
  lemma {:induction false} ClosedUnderReach(g: Graph, t: seq<nat>, x: nat, w: nat)
    requires WellFormed(g) && InArena(g, t) && OperandsFirst(g, t)
    requires x in t && x < |g| && Reachable(g, x, w)
    ensures w in t
    decreases x
  {
    if x != w {
      var k :| 0 <= k < |g[x].prev| && Reachable(g, g[x].prev[k], w);
      var i :| 0 <= i < |t| && t[i] == x;
      OperandBefore(g, t, i, k);
      ClosedUnderReach(g, t, g[x].prev[k], w);
    }
  }

  /** A visited node outside the open path is already listed, and so is
      everything reachable from it. */
  lemma VisitSeen(g: Graph, v: nat, s: Dfs)
    requires WellFormed(g) && v < |g| && DfsInv(g, s)
    requires forall w :: w in Open(s) ==> v < w
    requires v in s.visited
    ensures v in s.topo
    ensures forall w :: Reachable(g, v, w) ==> w in s.topo
  {
    assert v !in Open(s);
    forall w | Reachable(g, v, w)
      ensures w in s.topo
    {
      ClosedUnderReach(g, s.topo, v, w);
    }
  }

  /** Marking `v` visited opens it, below every node already open. */
  lemma VisitStart(g: Graph, v: nat, s: Dfs)
    requires WellFormed(g) && v < |g| && DfsInv(g, s)
    requires forall w :: w in Open(s) ==> v < w
    requires v !in s.visited
    ensures DfsInv(g, Dfs(s.visited + {v}, s.topo))
    ensures Open(Dfs(s.visited + {v}, s.topo)) == Open(s) + {v}
    ensures v in Open(Dfs(s.visited + {v}, s.topo))
    ensures forall w :: w in Open(Dfs(s.visited + {v}, s.topo)) ==> v <= w
  {
    assert v !in s.topo;
  }

  /** Appending `v` once its operands are listed closes it. */
  lemma VisitFinish(g: Graph, v: nat, s: Dfs, c: Dfs)
    requires WellFormed(g) && v < |g| && DfsInv(g, s)
    requires v !in s.visited
    requires Extended(g, Dfs(s.visited + {v}, s.topo), c)
    requires Open(Dfs(s.visited + {v}, s.topo)) == Open(s) + {v}
    requires forall k :: 0 <= k < |g[v].prev| ==> g[v].prev[k] in c.topo
    requires forall w :: w in c.topo <==>
               w in s.topo || exists k :: 0 <= k < |g[v].prev| && Reachable(g, g[v].prev[k], w)
    ensures Extended(g, s, Dfs(c.visited, c.topo + [v]))
    ensures forall w :: w in c.topo + [v] <==> w in s.topo || Reachable(g, v, w)
  {
    var r := Dfs(c.visited, c.topo + [v]);
    assert v in Open(c) && v !in c.topo;
    assert v !in Open(s) by {
      assert v !in s.visited;
    }
    assert Open(r) == Open(c) - {v};
    assert (c.topo + [v])[..|c.topo|] == c.topo;
  }

  /** `build_topo(v)`: skip `v` if visited; otherwise mark it, visit its
      operands in order, then append it. */
  function Visit(g: Graph, v: nat, s: Dfs): (r: Dfs)
    requires WellFormed(g) && v < |g| && DfsInv(g, s)
    requires forall w :: w in Open(s) ==> v < w
    ensures Extended(g, s, r)
    ensures v in r.topo
    ensures v !in s.visited ==> r.topo[|r.topo| - 1] == v
    ensures forall w :: w in r.topo <==> w in s.topo || Reachable(g, v, w)
    decreases v, 1
  {
    if v in s.visited then
      VisitSeen(g, v, s);
      s
    else
      var s' := Dfs(s.visited + {v}, s.topo);
      VisitStart(g, v, s);
      var c := VisitOperands(g, v, 0, s');
      VisitFinish(g, v, s, c);
      Dfs(c.visited, c.topo + [v])
  }

  /** The loop over `v->_prev` from position `i` on. */
  function VisitOperands(g: Graph, p: nat, i: nat, s: Dfs): (r: Dfs)
    requires WellFormed(g) && p < |g| && i <= |g[p].prev| && DfsInv(g, s)
    requires p in Open(s) && forall w :: w in Open(s) ==> p <= w
    ensures Extended(g, s, r)
    ensures forall k :: i <= k < |g[p].prev| ==> g[p].prev[k] in r.topo
    ensures forall w :: w in r.topo <==>
              w in s.topo || exists k :: i <= k < |g[p].prev| && Reachable(g, g[p].prev[k], w)
    decreases p, 0, |g[p].prev| - i
  {
    if i == |g[p].prev| then s
    else
      var r1 := Visit(g, g[p].prev[i], s);
      var r2 := VisitOperands(g, p, i + 1, r1);
      OperandStep(g, p, i, s, r1, r2);
      r2
  }

  /** Visiting operand `i`, then the operands after it, lists operand `i` on. */
  lemma OperandStep(g: Graph, p: nat, i: nat, s: Dfs, r1: Dfs, r2: Dfs)
    requires WellFormed(g) && p < |g| && i < |g[p].prev|
    requires Extended(g, s, r1) && Extended(g, r1, r2)
    requires g[p].prev[i] in r1.topo
    requires forall w :: w in r1.topo <==> w in s.topo || Reachable(g, g[p].prev[i], w)
    requires forall k :: i + 1 <= k < |g[p].prev| ==> g[p].prev[k] in r2.topo
    requires forall w :: w in r2.topo <==>
               w in r1.topo || exists k :: i + 1 <= k < |g[p].prev| && Reachable(g, g[p].prev[k], w)
    ensures Extended(g, s, r2)
    ensures forall k :: i <= k < |g[p].prev| ==> g[p].prev[k] in r2.topo
    ensures forall w :: w in r2.topo <==>
              w in s.topo || exists k :: i <= k < |g[p].prev| && Reachable(g, g[p].prev[k], w)
  {
    assert g[p].prev[i] in r2.topo by {
      assert r1.topo <= r2.topo;
    }
  }

  /** The order `backward` walks in reverse. */
  method TopoSort(g: Graph, root: nat) returns (t: seq<nat>)
    requires WellFormed(g) && root < |g|
    ensures InArena(g, t) && NoDup(t) && OperandsFirst(g, t)
    ensures forall w :: w in t <==> Reachable(g, root, w)
    ensures |t| > 0 && t[|t| - 1] == root
  {
    t := Visit(g, root, Dfs({}, [])).topo;
  }
}

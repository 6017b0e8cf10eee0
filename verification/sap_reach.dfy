/** Reachability in a digraph, the reference semantics of the breadth-first
    searches of wordnet/BreadthFirstSAP.java.  A graph is the algs4 `Digraph`
    seen through `adj`: vertex `v` is an index of the sequence and `g[v]`
    lists its successors in iteration order. */
module SapReach {

  type Graph = seq<seq<int>>

  /** Every edge ends at a vertex of the graph. */
  predicate IsGraph(g: Graph)
  {
    forall v, i :: 0 <= v < |g| && 0 <= i < |g[v]| ==> 0 <= g[v][i] < |g|
  }

  /** `v` is at most `k` edges away from some vertex of `S`. */
  ghost predicate Reach(g: Graph, S: set<int>, v: int, k: nat)
    decreases k
  {
    if k == 0 then v in S
    else Reach(g, S, v, k - 1) || exists u :: 0 <= u < |g| && v in g[u] && Reach(g, S, u, k - 1)
  }

  ghost predicate Reachable(g: Graph, S: set<int>, v: int)
  {
    exists k: nat :: Reach(g, S, v, k)
  }

  /** `d` is the length of a shortest path from `S` to `v`. */
  ghost predicate IsDist(g: Graph, S: set<int>, v: int, d: int)
  {
    0 <= d && Reach(g, S, v, d) && (d == 0 || !Reach(g, S, v, d - 1))
  }

  /** Some vertex is reachable from both source sets. */
  ghost predicate CommonReach(g: Graph, S1: set<int>, S2: set<int>)
  {
    exists v, k1: nat, k2: nat :: Reach(g, S1, v, k1) && Reach(g, S2, v, k2)
  }

  /** One more edge extends a path by one. */
  lemma ReachStep(g: Graph, S: set<int>, u: int, v: int, k: nat)
    requires 0 <= u < |g| && v in g[u] && Reach(g, S, u, k)
    ensures Reach(g, S, v, k + 1)
  {
  }

  lemma {:induction false} ReachMono(g: Graph, S: set<int>, v: int, j: nat, k: nat)
    requires j <= k && Reach(g, S, v, j)
    ensures Reach(g, S, v, k)
    decreases k
  {
    if j < k {
      ReachMono(g, S, v, j, k - 1);
    }
  }

  /** A vertex reached in `k > 0` steps is a source or the successor of a
      vertex reached in `k - 1` steps. */
  lemma {:induction false} ReachPred(g: Graph, S: set<int>, v: int, k: nat)
    requires 0 < k && Reach(g, S, v, k)
    ensures v in S || exists u :: 0 <= u < |g| && v in g[u] && Reach(g, S, u, k - 1)
    decreases k
  {
    if Reach(g, S, v, k - 1) && k > 1 {
      ReachPred(g, S, v, k - 1);
      if v !in S {
        var u :| 0 <= u < |g| && v in g[u] && Reach(g, S, u, k - 2);
        ReachMono(g, S, u, k - 2, k - 1);
      }
    }
  }

  /** A shortest distance is at most the length of any path. */
  lemma DistLeast(g: Graph, S: set<int>, v: int, d: int, k: nat)
    requires IsDist(g, S, v, d) && Reach(g, S, v, k)
    ensures d <= k
  {
    if k < d {
      ReachMono(g, S, v, k, d - 1);
    }
  }

  /** Only vertices of the graph are reached from sources in the graph. */
  lemma {:induction false} ReachInGraph(g: Graph, S: set<int>, v: int, k: nat)
    requires IsGraph(g) && (forall x :: x in S ==> 0 <= x < |g|)
    requires Reach(g, S, v, k)
    ensures 0 <= v < |g|
    decreases k
  {
    if k > 0 {
      ReachPred(g, S, v, k);
    }
  }
}

/** One side of the two-sided breadth-first search of
    wordnet/BreadthFirstSAP.java: the side's marked set (`marked1` or
    `marked2`), its distance array (`distTo1` or `distTo2`) and its queue.
    `Bfs` is the breadth-first invariant that holds between two dequeues;
    `Expand` is the loop over `adj(v)` after a dequeue. */
module SapSearch {
  import opened SapReach

  datatype Side = Side(marked: set<int>, dist: seq<int>)

  /** The distance array read at `v`, or -1 off the array. */
  function Level(s: Side, v: int): int
  {
    if 0 <= v < |s.dist| then s.dist[v] else -1
  }

  /** The successors of `u` are all marked. */
  ghost predicate Expanded(g: Graph, marked: set<int>, u: int)
  {
    0 <= u < |g| && forall w :: w in g[u] ==> w in marked
  }

  ghost predicate Shape(g: Graph, S: set<int>, s: Side, q: seq<int>)
  {
    && |s.dist| == |g|
    && S <= s.marked
    && (forall v :: v in s.marked ==> 0 <= v < |g|)
    && (forall i :: 0 <= i < |q| ==> q[i] in s.marked)
  }

  /** Each marked vertex holds its shortest distance from the sources. */
  ghost predicate Distances(g: Graph, S: set<int>, s: Side)
  {
    forall v :: v in s.marked ==> IsDist(g, S, v, Level(s, v))
  }

  /** The queue is ordered by distance and spans at most two levels. */
  ghost predicate Sorted(s: Side, q: seq<int>)
  {
    && (forall i, j :: 0 <= i < j < |q| ==> Level(s, q[i]) <= Level(s, q[j]))
    && (|q| > 0 ==> Level(s, q[|q| - 1]) <= Level(s, q[0]) + 1)
  }

  /** A marked vertex that has left the queue has had its successors marked. */
  ghost predicate Closed(g: Graph, s: Side, q: seq<int>)
  {
    forall u :: u in s.marked && u !in q ==> Expanded(g, s.marked, u)
  }

  /** A distance is smaller than the number of marked vertices. */
  ghost predicate Bounded(s: Side)
  {
    forall v :: v in s.marked ==> Level(s, v) < |s.marked|
  }

  ghost predicate Bfs(g: Graph, S: set<int>, s: Side, q: seq<int>)
  {
    Shape(g, S, s, q) && Distances(g, S, s) && Sorted(s, q) && Closed(g, s, q) && Bounded(s)
  }

  /** What the loop over `adj(v)` does to a side whose queue, after the
      dequeue of `v`, is `rest`: the old marks and distances stay; the
      unmarked successors of `v` are marked at distance `dist[v] + 1` and
      appended to the queue, and nothing else is. */
  ghost predicate Expansion(g: Graph, s: Side, v: int, rest: seq<int>, s': Side, q': seq<int>)
  {
    && 0 <= v < |g|
    && s.marked <= s'.marked
    && |s'.dist| == |s.dist|
    && (forall u :: u in s.marked ==> Level(s', u) == Level(s, u))
    && |rest| <= |q'|
    && (forall i :: 0 <= i < |rest| ==> q'[i] == rest[i])
    && (forall i :: |rest| <= i < |q'| ==>
          q'[i] in s'.marked && q'[i] !in s.marked && q'[i] in g[v] && Level(s', q'[i]) == Level(s, v) + 1)
    && (forall u :: u in s'.marked && u !in s.marked ==> u in q')
    && Expanded(g, s'.marked, v)
    && |s'.marked| - |s.marked| == |q'| - |rest|
  }

  // ---------------------------------------------------------------------
  // Counting

  /** A set of vertices below `n` has at most `n` elements. */
  lemma {:induction false} BelowCard(m: set<int>, n: nat)
    requires forall v :: v in m ==> 0 <= v < n
    ensures |m| <= n
    decreases n
  {
    if n > 0 {
      BelowCard(m - {n - 1}, n - 1);
    } else {
      assert forall v :: v !in m;
      assert m == {};
    }
  }

  lemma SubsetCard(a: set<int>, b: set<int>)
    requires a <= b
    ensures |a| <= |b|
  {
    assert b == a + (b - a);
    assert a * (b - a) == {};
  }

  /** A side never marks more vertices than the graph has. */
  lemma MarkedBound(g: Graph, s: Side)
    requires forall v :: v in s.marked ==> 0 <= v < |g|
    ensures |s.marked| <= |g|
  {
    BelowCard(s.marked, |g|);
  }

  // ---------------------------------------------------------------------
  // Seeding

  /** The distance array after `distTo[x] = 0` for every source `x`. */
  function Seed(dist: seq<int>, xs: seq<int>): (r: seq<int>)
    requires forall i :: 0 <= i < |xs| ==> 0 <= xs[i] < |dist|
    ensures |r| == |dist|
    ensures forall v :: 0 <= v < |dist| ==> r[v] == if v in xs then 0 else dist[v]
    decreases |xs|
  {
    if xs == [] then dist else Seed(dist, xs[..|xs| - 1])[xs[|xs| - 1] := 0]
  }

  /** The vertices listed in `xs`. */
  function Members(xs: seq<int>): set<int>
  {
    set x | x in xs
  }

  /** The side and queue with the sources `xs` enqueued and marked at
      distance 0, over a cleared marked set and the previous distances. */
  function Start(dist: seq<int>, xs: seq<int>): (r: (Side, seq<int>))
    requires forall i :: 0 <= i < |xs| ==> 0 <= xs[i] < |dist|
    ensures r.0.marked == Members(xs)
    ensures r.1 == xs
    ensures forall v :: v in xs ==> Level(r.0, v) == 0
  {
    (Side(Members(xs), Seed(dist, xs)), xs)
  }

  /** The freshly seeded side satisfies the breadth-first invariant. */
  lemma StartBfs(g: Graph, dist: seq<int>, xs: seq<int>)
    requires |dist| == |g| && forall i :: 0 <= i < |xs| ==> 0 <= xs[i] < |g|
    ensures Bfs(g, Members(xs), Start(dist, xs).0, Start(dist, xs).1)
  {
    var (s, q) := Start(dist, xs);
    forall v | v in s.marked
      ensures IsDist(g, Members(xs), v, Level(s, v)) && Level(s, v) < |s.marked|
    {
      assert |s.marked| > 0;
    }
  }

  // ---------------------------------------------------------------------
  // The expansion step

  /** The queue `[v] + rest` seen from its head. */
  lemma Dequeued(g: Graph, S: set<int>, s: Side, v: int, rest: seq<int>)
    requires Shape(g, S, s, [v] + rest) && Sorted(s, [v] + rest)
    ensures v in s.marked
    ensures forall i :: 0 <= i < |rest| ==> rest[i] in s.marked
    ensures forall i :: 0 <= i < |rest| ==> Level(s, v) <= Level(s, rest[i]) <= Level(s, v) + 1
    ensures forall i, j :: 0 <= i < j < |rest| ==> Level(s, rest[i]) <= Level(s, rest[j])
  {
    var q := [v] + rest;
    assert q[0] == v;
    assert forall i :: 0 <= i < |rest| ==> q[i + 1] == rest[i];
    if rest != [] {
      assert q[|q| - 1] == rest[|rest| - 1];
    }
  }

  /** Every vertex within `k` steps is marked while every queued vertex is
      farther than `k`. */
  lemma {:induction false} Below(g: Graph, S: set<int>, s: Side, q: seq<int>, k: nat, u: int)
    requires Shape(g, S, s, q) && Distances(g, S, s) && Closed(g, s, q)
    requires forall i :: 0 <= i < |q| ==> k < Level(s, q[i])
    requires Reach(g, S, u, k)
    ensures u in s.marked
    decreases k
  {
    if k > 0 && u !in S {
      ReachPred(g, S, u, k);
      var p :| 0 <= p < |g| && u in g[p] && Reach(g, S, p, k - 1);
      Below(g, S, s, q, k - 1, p);
      DistLeast(g, S, p, Level(s, p), k - 1);
      assert p !in q;
    }
  }

  /** Every vertex within `dist[v]` steps is marked when `v` heads the queue. */
  lemma Near(g: Graph, S: set<int>, s: Side, v: int, rest: seq<int>, w: int)
    requires Bfs(g, S, s, [v] + rest)
    ensures Reach(g, S, w, Level(s, v)) ==> w in s.marked
  {
    Dequeued(g, S, s, v, rest);
    var d := Level(s, v);
    if d > 0 && Reach(g, S, w, d) && w !in S {
      ReachPred(g, S, w, d);
      var u :| 0 <= u < |g| && w in g[u] && Reach(g, S, u, d - 1);
      assert forall i :: 0 <= i < |[v] + rest| ==> d - 1 < Level(s, ([v] + rest)[i]);
      Below(g, S, s, [v] + rest, d - 1, u);
      DistLeast(g, S, u, Level(s, u), d - 1);
      assert u !in [v] + rest;
      assert Expanded(g, s.marked, u);
    }
  }

  /** The marks and distances after an expansion. */
  lemma ExpandDistances(g: Graph, S: set<int>, s: Side, v: int, rest: seq<int>, s': Side, q': seq<int>)
    requires IsGraph(g) && Bfs(g, S, s, [v] + rest)
    requires Expansion(g, s, v, rest, s', q')
    ensures Shape(g, S, s', q') && Distances(g, S, s')
  {
    Dequeued(g, S, s, v, rest);
    forall u | u in s'.marked
      ensures 0 <= u < |g| && IsDist(g, S, u, Level(s', u))
    {
      if u !in s.marked {
        var i :| 0 <= i < |q'| && q'[i] == u;
        assert |rest| <= i;
        Near(g, S, s, v, rest, u);
        ReachStep(g, S, v, u, Level(s, v));
      }
    }
  }

  lemma ExpandSorted(g: Graph, S: set<int>, s: Side, v: int, rest: seq<int>, s': Side, q': seq<int>)
    requires Shape(g, S, s, [v] + rest) && Sorted(s, [v] + rest)
    requires Expansion(g, s, v, rest, s', q')
    ensures Sorted(s', q')
  {
    Dequeued(g, S, s, v, rest);
    var d := Level(s, v);
    assert forall i :: 0 <= i < |q'| ==> d <= Level(s', q'[i]) <= d + 1;
  }

  lemma ExpandClosed(g: Graph, S: set<int>, s: Side, v: int, rest: seq<int>, s': Side, q': seq<int>)
    requires Shape(g, S, s, [v] + rest) && Closed(g, s, [v] + rest)
    requires Expansion(g, s, v, rest, s', q')
    ensures Closed(g, s', q')
  {
    forall u | u in s'.marked && u !in q' && u != v
      ensures Expanded(g, s'.marked, u)
    {
      assert u in s.marked && u !in rest;
      assert u !in [v] + rest;
      assert Expanded(g, s.marked, u);
    }
  }

  lemma ExpandBounded(g: Graph, S: set<int>, s: Side, v: int, rest: seq<int>, s': Side, q': seq<int>)
    requires Shape(g, S, s, [v] + rest) && Sorted(s, [v] + rest) && Bounded(s)
    requires Expansion(g, s, v, rest, s', q')
    ensures Bounded(s')
  {
    Dequeued(g, S, s, v, rest);
    SubsetCard(s.marked, s'.marked);
    forall u | u in s'.marked && u !in s.marked
      ensures Level(s', u) < |s'.marked|
    {
      var i :| 0 <= i < |q'| && q'[i] == u;
      assert |rest| <= i;
    }
  }

  /** The expansion step keeps the breadth-first invariant. */
  lemma ExpandBfs(g: Graph, S: set<int>, s: Side, v: int, rest: seq<int>, s': Side, q': seq<int>)
    requires IsGraph(g) && Bfs(g, S, s, [v] + rest)
    requires Expansion(g, s, v, rest, s', q')
    ensures Bfs(g, S, s', q')
  {
    ExpandDistances(g, S, s, v, rest, s', q');
    ExpandSorted(g, S, s, v, rest, s', q');
    ExpandClosed(g, S, s, v, rest, s', q');
    ExpandBounded(g, S, s, v, rest, s', q');
  }

  /** The loop over `adj(v)`: every successor not yet marked is marked,
      given distance `dist[v] + 1` and enqueued. */
  method Scan(g: Graph, s: Side, v: int, rest: seq<int>) returns (s': Side, q': seq<int>)
    requires IsGraph(g) && 0 <= v < |g| && |s.dist| == |g|
    ensures Expansion(g, s, v, rest, s', q')
  {
    var d := s.dist[v];
    var marked := s.marked;
    var dist := s.dist;
    var q := rest;
    var adj := g[v];
    for k := 0 to |adj|
      invariant s.marked <= marked
      invariant |dist| == |s.dist|
      invariant forall u :: u in s.marked ==> Level(Side(marked, dist), u) == Level(s, u)
      invariant |rest| <= |q| && forall i :: 0 <= i < |rest| ==> q[i] == rest[i]
      invariant forall i :: |rest| <= i < |q| ==>
                  q[i] in marked && q[i] !in s.marked && q[i] in g[v] && Level(Side(marked, dist), q[i]) == d + 1
      invariant forall u :: u in marked && u !in s.marked ==> u in q
      invariant forall j :: 0 <= j < k ==> adj[j] in marked
      invariant |marked| - |s.marked| == |q| - |rest|
    {
      var w := adj[k];
      if w !in marked {
        marked := marked + {w};
        dist := dist[w := d + 1];
        q := q + [w];
      }
    }
    s', q' := Side(marked, dist), q;
  }

  /** One dequeue of `v` followed by the scan of its successors keeps the
      breadth-first invariant. */
  method Expand(g: Graph, ghost S: set<int>, s: Side, v: int, rest: seq<int>) returns (s': Side, q': seq<int>)
    requires IsGraph(g) && Bfs(g, S, s, [v] + rest)
    ensures Expansion(g, s, v, rest, s', q')
    ensures Bfs(g, S, s', q')
  {
    Dequeued(g, S, s, v, rest);
    s', q' := Scan(g, s, v, rest);
    ExpandBfs(g, S, s, v, rest, s', q');
  }

  /** A finished side: the marked vertices are exactly the reachable ones,
      and every distance is a shortest one and below the vertex count. */
  lemma Finished(g: Graph, S: set<int>, s: Side)
    requires Bfs(g, S, s, [])
    ensures forall v :: v in s.marked <==> Reachable(g, S, v)
    ensures forall v :: v in s.marked ==> IsDist(g, S, v, Level(s, v)) && Level(s, v) < |g|
  {
    MarkedBound(g, s);
    forall v | Reachable(g, S, v)
      ensures v in s.marked
    {
      var k: nat :| Reach(g, S, v, k);
      Below(g, S, s, [], k, v);
    }
  }
}

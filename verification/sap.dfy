/** The shortest-ancestral-path engine of wordnet/BreadthFirstSAP.java.  Two
    breadth-first searches, one from each source set, run in lock step until
    both queues are empty; whenever a side dequeues a vertex the other side
    has marked, the sum of the two distances is offered as the new best.
    The object is a value here: `execute` returns the updated state. */
module BreadthFirstSap {
  import opened Wrappers
  import opened SapReach
  import opened SapSearch

  /** `Integer.MAX_VALUE`: the length when no common ancestor is known. */
  const INFINITY: int := 0x7fff_ffff

  /** The largest graph for which a sum of two distances stays below
      INFINITY, so that the source's `int` additions never wrap. */
  const MAX_VERTICES: int := 0x4000_0000

  datatype Sap = Sap(graph: Graph, marked1: set<int>, marked2: set<int>,
                     distTo1: seq<int>, distTo2: seq<int>, length: int, ancestor: int)

  /** The three messages of the source's IllegalArgumentException. */
  datatype Error = NullArgument | NullItem | OutOfRange

  predicate Valid(sap: Sap)
  {
    && IsGraph(sap.graph) && |sap.graph| <= MAX_VERTICES
    && |sap.distTo1| == |sap.graph| && |sap.distTo2| == |sap.graph|
  }

  // ---------------------------------------------------------------------
  // What a finished search has found

  /** The marks and distances of one side are those of a complete
      breadth-first search from `S`. */
  ghost predicate Searched(g: Graph, S: set<int>, marked: set<int>, dist: seq<int>)
  {
    && (forall v :: v in marked <==> Reachable(g, S, v))
    && (forall v :: v in marked ==> 0 <= v < |dist| && IsDist(g, S, v, dist[v]))
  }

  /** `length` and `ancestor` describe a shortest ancestral path: none exists
      exactly when both are at their reset values; otherwise the ancestor is
      reachable from both sides at shortest distances adding up to `length`,
      and no vertex is reachable from both sides by paths of smaller total. */
  ghost predicate Shortest(sap: Sap, S1: set<int>, S2: set<int>)
  {
    var g, a := sap.graph, sap.ancestor;
    && (a == -1 <==> sap.length == INFINITY)
    && (a == -1 <==> !CommonReach(g, S1, S2))
    && (a != -1 ==>
          && 0 <= a < |sap.distTo1| && 0 <= a < |sap.distTo2|
          && IsDist(g, S1, a, sap.distTo1[a]) && IsDist(g, S2, a, sap.distTo2[a])
          && sap.length == sap.distTo1[a] + sap.distTo2[a])
    && (forall v, k1: nat, k2: nat :: Reach(g, S1, v, k1) && Reach(g, S2, v, k2) ==> sap.length <= k1 + k2)
  }

  /** The state after `execute` with source sets `S1` and `S2`. */
  ghost predicate Answered(sap: Sap, S1: set<int>, S2: set<int>)
  {
    && Valid(sap)
    && Searched(sap.graph, S1, sap.marked1, sap.distTo1)
    && Searched(sap.graph, S2, sap.marked2, sap.distTo2)
    && Shortest(sap, S1, S2)
  }

  // ---------------------------------------------------------------------
  // Construction and argument checks

  /** The constructor: the graph is copied, both distance arrays are zero,
      both marked sets are empty, and no path is known. */
  function Create(graph: Option<Graph>): (r: Result<Sap, Error>)
    requires graph.Some? ==> IsGraph(graph.value) && |graph.value| <= MAX_VERTICES
    ensures r.Err? <==> graph.None?
    ensures r.Err? ==> r.error == NullArgument
    ensures r.Ok? ==> Valid(r.value) && r.value.graph == graph.value
    ensures r.Ok? ==> !HasPath(r.value) && Length(r.value) == -1 && Ancestor(r.value) == -1
    ensures r.Ok? ==> r.value.marked1 == {} && r.value.marked2 == {}
  {
    match graph
    case None => Err(NullArgument)
    case Some(g) => Ok(Sap(g, {}, {}, seq(|g|, _ => 0), seq(|g|, _ => 0), INFINITY, -1))
  }

  /** An item of an iterable argument that the source accepts. */
  predicate Acceptable(n: int, x: Option<int>)
  {
    x.Some? && 0 <= x.value < n
  }

  /** Item `i` is the first one the source rejects. */
  ghost predicate FirstBad(n: int, xs: seq<Option<int>>, i: int)
  {
    0 <= i < |xs| && !Acceptable(n, xs[i]) && forall j :: 0 <= j < i ==> Acceptable(n, xs[j])
  }

  /** The exception for an iterable argument: null, or the first bad item
      (a null item, or a vertex out of range). */
  ghost predicate Rejects(n: int, arg: Option<seq<Option<int>>>, e: Error)
  {
    || (arg.None? && e == NullArgument)
    || (arg.Some? && exists i :: FirstBad(n, arg.value, i) && e == (if arg.value[i].None? then NullItem else OutOfRange))
  }

  ghost predicate AcceptsAll(n: int, arg: Option<seq<Option<int>>>)
  {
    arg.Some? && forall i :: 0 <= i < |arg.value| ==> Acceptable(n, arg.value[i])
  }

  /** The vertices named by an accepted iterable. */
  ghost function Named(xs: seq<Option<int>>): set<int>
  {
    set i | 0 <= i < |xs| && xs[i].Some? :: xs[i].value
  }

  /** `validateArgument(Iterable)`: the argument must not be null and each
      item, in order, must be non-null and a vertex.  An empty iterable is
      accepted. */
  method ValidateSources(n: int, arg: Option<seq<Option<int>>>) returns (r: Result<seq<int>, Error>)
    ensures r.Ok? <==> AcceptsAll(n, arg)
    ensures r.Err? ==> Rejects(n, arg, r.error)
    ensures r.Ok? ==> Members(r.value) == Named(arg.value)
    ensures r.Ok? ==> forall i :: 0 <= i < |r.value| ==> 0 <= r.value[i] < n
  {
    if arg.None? {
      return Err(NullArgument);
    }
    var xs := arg.value;
    var vs: seq<int> := [];
    for k := 0 to |xs|
      invariant |vs| == k
      invariant forall i :: 0 <= i < k ==> Acceptable(n, xs[i]) && vs[i] == xs[i].value
    {
      if xs[k].None? {
        assert FirstBad(n, xs, k);
        return Err(NullItem);
      }
      if xs[k].value < 0 || xs[k].value >= n {
        assert FirstBad(n, xs, k);
        return Err(OutOfRange);
      }
      vs := vs + [xs[k].value];
    }
    assert forall v :: v in Members(vs) <==> v in Named(xs) by {
      forall v | v in Named(xs)
        ensures v in Members(vs)
      {
        var i :| 0 <= i < |xs| && xs[i].Some? && xs[i].value == v;
        assert vs[i] == v;
      }
    }
    return Ok(vs);
  }

  // ---------------------------------------------------------------------
  // The search

  /** The best common vertex seen so far: either none, at the reset values,
      or a vertex marked on both sides whose distances add up to `length`;
      and `length` is no more than the sum at any vertex marked on both
      sides that has left both queues. */
  ghost predicate Best(a: Side, b: Side, qa: seq<int>, qb: seq<int>, length: int, ancestor: int)
  {
    && ((ancestor == -1 && length == INFINITY) ||
        (ancestor in a.marked && ancestor in b.marked && length == Level(a, ancestor) + Level(b, ancestor)))
    && (forall v :: v in a.marked && v in b.marked && v !in qa && v !in qb ==> length <= Level(a, v) + Level(b, v))
  }

  lemma BestSwap(a: Side, b: Side, qa: seq<int>, qb: seq<int>, length: int, ancestor: int)
    requires Best(a, b, qa, qb, length, ancestor)
    ensures Best(b, a, qb, qa, length, ancestor)
  {
  }

  /** The work left to one side: unmarked vertices plus queued entries. */
  function Work(g: Graph, s: Side, q: seq<int>): int
  {
    |g| - |s.marked| + |q|
  }

  /** Comparing the dequeued `v` against the best keeps `Best` for the
      shortened queue. */
  lemma BestDequeue(s: Side, o: Side, v: int, rest: seq<int>, oq: seq<int>,
                    length: int, ancestor: int, length': int, ancestor': int)
    requires Best(s, o, [v] + rest, oq, length, ancestor) && v in s.marked
    requires if v in o.marked && Level(s, v) + Level(o, v) < length
             then length' == Level(s, v) + Level(o, v) && ancestor' == v
             else length' == length && ancestor' == ancestor
    ensures Best(s, o, rest, oq, length', ancestor')
  {
    forall u | u in s.marked && u in o.marked && u !in rest && u !in oq
      ensures length' <= Level(s, u) + Level(o, u)
    {
      if u != v {
        assert u !in [v] + rest;
      }
    }
  }

  /** The vertices an expansion marks are queued, so `Best` is kept. */
  lemma BestExpand(g: Graph, s: Side, o: Side, v: int, rest: seq<int>, oq: seq<int>,
                   s': Side, q': seq<int>, length: int, ancestor: int)
    requires Best(s, o, rest, oq, length, ancestor)
    requires Expansion(g, s, v, rest, s', q')
    ensures Best(s', o, q', oq, length, ancestor)
  {
    forall u | u in s'.marked && u in o.marked && u !in q' && u !in oq
      ensures length <= Level(s', u) + Level(o, u)
    {
      assert u in s.marked && u !in rest;
    }
  }

  /** One half of an iteration of `bfsLoop`, for side `s` against the other
      side `o`: dequeue `v`; if the other side has marked it, offer
      `distTo1[v] + distTo2[v]` as a strictly better length; then scan the
      successors of `v`. */
  method Step(g: Graph, ghost S: set<int>, s: Side, q: seq<int>, o: Side, ghost oq: seq<int>,
              length: int, ancestor: int)
    returns (s': Side, q': seq<int>, length': int, ancestor': int)
    requires IsGraph(g) && |g| <= MAX_VERTICES && q != []
    requires Bfs(g, S, s, q)
    requires |o.dist| == |g| && (forall v :: v in o.marked ==> 0 <= v < |g|) && Bounded(o)
    requires Best(s, o, q, oq, length, ancestor)
    ensures Bfs(g, S, s', q')
    ensures Best(s', o, q', oq, length', ancestor')
    ensures Work(g, s', q') == Work(g, s, q) - 1
  {
    var v := q[0];
    var rest := q[1..];
    assert q == [v] + rest;
    length', ancestor' := length, ancestor;
    if v in o.marked {
      MarkedBound(g, s);
      MarkedBound(g, o);
      var distance := s.dist[v] + o.dist[v];
      assert distance < INFINITY;
      if distance < length' {
        length', ancestor' := distance, v;
      }
    }
    BestDequeue(s, o, v, rest, oq, length, ancestor, length', ancestor');
    s', q' := Expand(g, S, s, v, rest);
    BestExpand(g, s, o, v, rest, oq, s', q', length', ancestor');
  }

  /** One iteration of `bfsLoop`: a step of side 1 if its queue is not
      empty, then a step of side 2 if its queue is not empty. */
  method Round(g: Graph, ghost S1: set<int>, ghost S2: set<int>, s1: Side, q1: seq<int>, s2: Side, q2: seq<int>,
               length: int, ancestor: int)
    returns (s1': Side, q1': seq<int>, s2': Side, q2': seq<int>, length': int, ancestor': int)
    requires IsGraph(g) && |g| <= MAX_VERTICES && (q1 != [] || q2 != [])
    requires Bfs(g, S1, s1, q1) && Bfs(g, S2, s2, q2)
    requires Best(s1, s2, q1, q2, length, ancestor)
    ensures Bfs(g, S1, s1', q1') && Bfs(g, S2, s2', q2')
    ensures Best(s1', s2', q1', q2', length', ancestor')
    ensures Work(g, s1', q1') + Work(g, s2', q2') < Work(g, s1, q1) + Work(g, s2, q2)
  {
    s1', q1', s2', q2', length', ancestor' := s1, q1, s2, q2, length, ancestor;
    if q1' != [] {
      s1', q1', length', ancestor' := Step(g, S1, s1', q1', s2', q2', length', ancestor');
    }
    if q2' != [] {
      BestSwap(s1', s2', q1', q2', length', ancestor');
      s2', q2', length', ancestor' := Step(g, S2, s2', q2', s1', q1', length', ancestor');
      BestSwap(s2', s1', q2', q1', length', ancestor');
    }
  }

  /** `bfsLoop`: alternate the two sides until both queues are empty. */
  method BfsLoop(g: Graph, ghost S1: set<int>, ghost S2: set<int>, s1: Side, q1: seq<int>, s2: Side, q2: seq<int>,
                 length: int, ancestor: int)
    returns (s1': Side, s2': Side, length': int, ancestor': int)
    requires IsGraph(g) && |g| <= MAX_VERTICES
    requires Bfs(g, S1, s1, q1) && Bfs(g, S2, s2, q2)
    requires Best(s1, s2, q1, q2, length, ancestor)
    ensures Bfs(g, S1, s1', []) && Bfs(g, S2, s2', [])
    ensures Best(s1', s2', [], [], length', ancestor')
  {
    s1', s2', length', ancestor' := s1, s2, length, ancestor;
    var queue1, queue2 := q1, q2;
    while queue1 != [] || queue2 != []
      invariant Bfs(g, S1, s1', queue1) && Bfs(g, S2, s2', queue2)
      invariant Best(s1', s2', queue1, queue2, length', ancestor')
      decreases Work(g, s1', queue1) + Work(g, s2', queue2)
    {
      MarkedBound(g, s1');
      MarkedBound(g, s2');
      s1', queue1, s2', queue2, length', ancestor' := Round(g, S1, S2, s1', queue1, s2', queue2, length', ancestor');
    }
  }

  /** With both searches finished, `Best` is the shortest ancestral path. */
  lemma Conclude(g: Graph, S1: set<int>, S2: set<int>, s1: Side, s2: Side, length: int, ancestor: int)
    requires IsGraph(g) && |g| <= MAX_VERTICES
    requires Bfs(g, S1, s1, []) && Bfs(g, S2, s2, [])
    requires Best(s1, s2, [], [], length, ancestor)
    ensures Answered(Sap(g, s1.marked, s2.marked, s1.dist, s2.dist, length, ancestor), S1, S2)
  {
    Finished(g, S1, s1);
    Finished(g, S2, s2);
    forall v, k1: nat, k2: nat | Reach(g, S1, v, k1) && Reach(g, S2, v, k2)
      ensures length <= k1 + k2 && ancestor != -1
    {
      assert Reachable(g, S1, v) && Reachable(g, S2, v);
      DistLeast(g, S1, v, Level(s1, v), k1);
      DistLeast(g, S2, v, Level(s2, v), k2);
    }
    if ancestor != -1 {
      assert Reach(g, S1, ancestor, Level(s1, ancestor)) && Reach(g, S2, ancestor, Level(s2, ancestor));
    }
  }

  /** `bfs`: seed each side with its sources at distance 0 over cleared
      marked sets and the previous distance arrays, then run the loop. */
  method Search(sap: Sap, xs: seq<int>, ys: seq<int>) returns (r: Sap)
    requires Valid(sap)
    requires forall i :: 0 <= i < |xs| ==> 0 <= xs[i] < |sap.graph|
    requires forall i :: 0 <= i < |ys| ==> 0 <= ys[i] < |sap.graph|
    ensures Answered(r, Members(xs), Members(ys)) && r.graph == sap.graph
  {
    var g := sap.graph;
    var (s1, q1) := Start(sap.distTo1, xs);
    var (s2, q2) := Start(sap.distTo2, ys);
    StartBfs(g, sap.distTo1, xs);
    StartBfs(g, sap.distTo2, ys);
    var length, ancestor;
    s1, s2, length, ancestor := BfsLoop(g, Members(xs), Members(ys), s1, q1, s2, q2, INFINITY, -1);
    Conclude(g, Members(xs), Members(ys), s1, s2, length, ancestor);
    r := Sap(g, s1.marked, s2.marked, s1.dist, s2.dist, length, ancestor);
  }

  // ---------------------------------------------------------------------
  // execute and the accessors

  /** `execute(int, int)`: both vertices are checked, `v` first. */
  method ExecutePair(sap: Sap, v: int, w: int) returns (r: Result<Sap, Error>)
    requires Valid(sap)
    ensures r.Err? <==> !(0 <= v < |sap.graph|) || !(0 <= w < |sap.graph|)
    ensures r.Err? ==> r.error == OutOfRange
    ensures r.Ok? ==> Answered(r.value, {v}, {w}) && r.value.graph == sap.graph
  {
    if v < 0 || v >= |sap.graph| || w < 0 || w >= |sap.graph| {
      return Err(OutOfRange);
    }
    assert Members([v]) == {v} && Members([w]) == {w};
    var s := Search(sap, [v], [w]);
    return Ok(s);
  }

  /** `execute(Iterable, Iterable)`: both arguments are checked, `v` first,
      and an empty iterable is allowed. */
  method ExecuteSets(sap: Sap, v: Option<seq<Option<int>>>, w: Option<seq<Option<int>>>) returns (r: Result<Sap, Error>)
    requires Valid(sap)
    ensures r.Ok? <==> AcceptsAll(|sap.graph|, v) && AcceptsAll(|sap.graph|, w)
    ensures !AcceptsAll(|sap.graph|, v) ==> r.Err? && Rejects(|sap.graph|, v, r.error)
    ensures AcceptsAll(|sap.graph|, v) && r.Err? ==> Rejects(|sap.graph|, w, r.error)
    ensures r.Ok? ==> Answered(r.value, Named(v.value), Named(w.value)) && r.value.graph == sap.graph
  {
    var rv := ValidateSources(|sap.graph|, v);
    if rv.Err? {
      return Err(rv.error);
    }
    var rw := ValidateSources(|sap.graph|, w);
    if rw.Err? {
      return Err(rw.error);
    }
    var s := Search(sap, rv.value, rw.value);
    return Ok(s);
  }

  function HasPath(sap: Sap): bool
  {
    sap.length != INFINITY
  }

  function Length(sap: Sap): int
  {
    if HasPath(sap) then sap.length else -1
  }

  function Ancestor(sap: Sap): int
  {
    sap.ancestor
  }

  /** After an execute, `hasPath`, `length` and `ancestor` report the
      shortest ancestral path: -1 for both exactly when no vertex is
      reachable from both source sets, otherwise a common vertex and the
      least total of two path lengths to it. */
  lemma Reported(sap: Sap, S1: set<int>, S2: set<int>)
    requires Answered(sap, S1, S2)
    ensures HasPath(sap) <==> CommonReach(sap.graph, S1, S2)
    ensures Length(sap) == -1 <==> !CommonReach(sap.graph, S1, S2)
    ensures Ancestor(sap) == -1 <==> !CommonReach(sap.graph, S1, S2)
    ensures Ancestor(sap) != -1 ==>
              Reach(sap.graph, S1, Ancestor(sap), sap.distTo1[Ancestor(sap)]) &&
              Reach(sap.graph, S2, Ancestor(sap), sap.distTo2[Ancestor(sap)]) &&
              Length(sap) == sap.distTo1[Ancestor(sap)] + sap.distTo2[Ancestor(sap)]
    ensures forall v, k1: nat, k2: nat :: Reach(sap.graph, S1, v, k1) && Reach(sap.graph, S2, v, k2) ==> Length(sap) <= k1 + k2
  {
  }
}

/** The baseball-elimination division of baseball/BaseballElimination.java.
    The parsed input file is the constructor's argument.  The max-flow
    computation (the algs4 `FordFulkerson` over a `FlowNetwork`) is a
    parameter: `cut(id, v)` is `inCut(v)` of the maximum flow of the network
    built for team `id`.  `buildNetwork` is modelled as the list of edges it
    adds.  Bags (`Bag.add` prepends) are sequences in iteration order. */
module BaseballElimination {
  import opened Wrappers
  import opened JavaInt

  const NOT_COMPUTED: int := -1

  datatype Division = Division(
    index: map<string, int>,
    names: seq<string>,
    wins: seq<int>,
    loss: seq<int>,
    left: seq<int>,
    games: seq<seq<int>>,
    trivial: seq<int>,
    certificate: seq<Option<seq<string>>>)

  /** `IllegalArgumentException`s: a null or unknown team name, and an
      algs4 `FlowEdge` given a negative capacity. */
  datatype Error = NullName | UnknownTeam | NegativeCapacity

  /** A flow-edge capacity: `Double.POSITIVE_INFINITY` or an integer. */
  datatype Capacity = Infinite | Finite(value: int)

  datatype FlowEdge = FlowEdge(from: int, to: int, cap: Capacity)

  /** A flow network: its number of vertices and the edges added to it. */
  datatype Network = Network(size: int, edges: seq<FlowEdge>)

  /** The max-flow oracle: `cut(id, v)` says whether vertex `v` is on the
      source side of the minimum cut of the network for team `id`. */
  type Cut = (int, int) -> bool

  predicate Valid(d: Division)
  {
    var n := |d.names|;
    && |d.wins| == n && |d.loss| == n && |d.left| == n
    && |d.games| == n && (forall i :: 0 <= i < n ==> |d.games[i]| == n)
    && |d.trivial| == n && |d.certificate| == n
    && (forall x :: x in d.index ==> 0 <= d.index[x] < n && d.names[d.index[x]] == x)
    && (forall i :: 0 <= i < n ==> d.names[i] in d.index)
    && (forall i :: 0 <= i < n ==> d.trivial[i] == NOT_COMPUTED || 0 <= d.trivial[i] < n)
  }

  // ---------------------------------------------------------------------
  // Construction

  /** The hash table after `map.put(names[i], i)` for every `i < k`: a name
      listed twice keeps its last index. */
  function Index(names: seq<string>, k: nat): (m: map<string, int>)
    requires k <= |names|
    ensures forall x :: x in m ==> 0 <= m[x] < k && names[m[x]] == x
    ensures forall i :: 0 <= i < k ==> names[i] in m && i <= m[names[i]]
    decreases k
  {
    if k == 0 then map[] else Index(names, k - 1)[names[k - 1] := k - 1]
  }

  /** The constructor over the parsed file: every team is indexed, nothing
      is computed yet and no certificate is cached. */
  function Create(names: seq<string>, wins: seq<int>, loss: seq<int>, left: seq<int>, games: seq<seq<int>>): (d: Division)
    requires |wins| == |names| && |loss| == |names| && |left| == |names|
    requires |games| == |names| && forall i :: 0 <= i < |names| ==> |games[i]| == |names|
    ensures Valid(d) && NumberOfTeams(d) == |names|
    ensures forall x :: x in d.index <==> x in names
    ensures forall i :: 0 <= i < |names| ==> d.trivial[i] == NOT_COMPUTED && d.certificate[i] == None
  {
    Division(Index(names, |names|), names, wins, loss, left, games,
             seq(|names|, _ => NOT_COMPUTED), seq(|names|, _ => None))
  }

  /** numberOfTeams(): the length of the per-team arrays, and a bound on
      every index the name table holds. */
  function NumberOfTeams(d: Division): (n: int)
    requires Valid(d)
    ensures n == |d.wins| && n == |d.loss| && n == |d.left| && n == |d.games|
    ensures forall x :: x in d.index ==> 0 <= d.index[x] < n
  {
    |d.names|
  }

  /** `validateTeamName` followed by `map.get`. */
  function TeamId(d: Division, team: Option<string>): (r: Result<int, Error>)
    requires Valid(d)
    ensures r.Err? <==> team.None? || team.value !in d.index
    ensures r.Err? ==> (r.error == NullName <==> team.None?)
    ensures r.Ok? ==> 0 <= r.value < NumberOfTeams(d) && d.names[r.value] == team.value
  {
    if team.None? then Err(NullName)
    else if team.value !in d.index then Err(UnknownTeam)
    else Ok(d.index[team.value])
  }

  function Wins(d: Division, team: Option<string>): (r: Result<int, Error>)
    requires Valid(d)
    ensures r.Err? <==> TeamId(d, team).Err?
    ensures r.Ok? ==> exists i :: 0 <= i < NumberOfTeams(d) && d.names[i] == team.value && r.value == d.wins[i]
  {
    match TeamId(d, team)
    case Err(e) => Err(e)
    case Ok(i) => Ok(d.wins[i])
  }

  function Losses(d: Division, team: Option<string>): (r: Result<int, Error>)
    requires Valid(d)
    ensures r.Err? <==> TeamId(d, team).Err?
    ensures r.Ok? ==> exists i :: 0 <= i < NumberOfTeams(d) && d.names[i] == team.value && r.value == d.loss[i]
  {
    match TeamId(d, team)
    case Err(e) => Err(e)
    case Ok(i) => Ok(d.loss[i])
  }

  function Remaining(d: Division, team: Option<string>): (r: Result<int, Error>)
    requires Valid(d)
    ensures r.Err? <==> TeamId(d, team).Err?
    ensures r.Ok? ==> exists i :: 0 <= i < NumberOfTeams(d) && d.names[i] == team.value && r.value == d.left[i]
  {
    match TeamId(d, team)
    case Err(e) => Err(e)
    case Ok(i) => Ok(d.left[i])
  }

  /** `against`: the first name is checked before the second. */
  function Against(d: Division, team1: Option<string>, team2: Option<string>): (r: Result<int, Error>)
    requires Valid(d)
    ensures r.Err? <==> TeamId(d, team1).Err? || TeamId(d, team2).Err?
    ensures TeamId(d, team1).Err? ==> r == Err(TeamId(d, team1).error)
    ensures r.Ok? ==> exists i, j :: 0 <= i < NumberOfTeams(d) && 0 <= j < NumberOfTeams(d)
                        && d.names[i] == team1.value && d.names[j] == team2.value && r.value == d.games[i][j]
  {
    match TeamId(d, team1)
    case Err(e) => Err(e)
    case Ok(i) =>
      match TeamId(d, team2)
      case Err(e) => Err(e)
      case Ok(j) => Ok(d.games[i][j])
  }

  // ---------------------------------------------------------------------
  // Trivial elimination

  /** The most games team `id` can still win, as the Java `int` sum
      `wins[id] + left[id]`, which wraps past `Integer.MAX_VALUE`. */
  function Possible(d: Division, id: int): int
    requires 0 <= id < |d.wins| && |d.left| == |d.wins|
  {
    Int(d.wins[id] + d.left[id])
  }

  /** Team `i` has already won more than `id` can reach. */
  predicate Above(d: Division, id: int, i: int)
    requires 0 <= id < |d.wins| && |d.left| == |d.wins| && 0 <= i < |d.wins|
  {
    i != id && Possible(d, id) < d.wins[i]
  }

  /** `triviallyEliminate`: the first team that has already won more games
      than `id` can reach, or `id` itself when there is none. */
  method TriviallyEliminate(d: Division, id: int) returns (r: int)
    requires Valid(d) && 0 <= id < NumberOfTeams(d)
    ensures 0 <= r < NumberOfTeams(d)
    ensures r == id <==> forall i :: 0 <= i < NumberOfTeams(d) ==> !Above(d, id, i)
    ensures r != id ==> Above(d, id, r) && forall i :: 0 <= i < r ==> !Above(d, id, i)
    ensures r == id ==> forall i :: 0 <= i < NumberOfTeams(d) && i != id ==> Possible(d, id) - d.wins[i] >= 0
  {
    r := id;
    var possible := Int(d.wins[id] + d.left[id]);
    var n := NumberOfTeams(d);
    var i := 0;
    while i < n
      invariant 0 <= i <= n && r == id
      invariant forall k :: 0 <= k < i ==> !Above(d, id, k)
    {
      if i != id && possible < d.wins[i] {
        assert Above(d, id, i);
        r := i;
        break;
      }
      i := i + 1;
    }
    if r == id {
      forall k | 0 <= k < n && k != id
        ensures Possible(d, id) - d.wins[k] >= 0
      {
        assert !Above(d, id, k);
      }
    }
  }

  /** A team at `Integer.MAX_VALUE` wins with one game left wraps to a
      negative reach, so any other team, even one without a win, trivially
      eliminates it. */
  lemma WrappedReach(d: Division, id: int, i: int)
    requires 0 <= id < |d.wins| && |d.left| == |d.wins| && 0 <= i < |d.wins| && i != id
    requires d.wins[id] == 0x7FFF_FFFF && d.left[id] == 1 && d.wins[i] == 0
    ensures Possible(d, id) == -0x8000_0000 && Above(d, id, i)
  {
  }

  // ---------------------------------------------------------------------
  // The flow network

  /** The network index of team `i` once team `id` is left out. */
  function Compress(id: int, i: int): int
  {
    if i < id then i else i - 1
  }

  /** The team of network index `v`. */
  function Decompress(id: int, v: int): int
  {
    if v < id then v else v + 1
  }

  /** Compression and decompression are inverse bijections between the
      teams other than `id` and the team vertices `[0, n - 1)`. */
  lemma CompressInverse(n: int, id: int)
    requires 0 <= id < n
    ensures forall i :: 0 <= i < n && i != id ==>
              0 <= Compress(id, i) < n - 1 && Decompress(id, Compress(id, i)) == i
    ensures forall v :: 0 <= v < n - 1 ==>
              0 <= Decompress(id, v) < n && Decompress(id, v) != id && Compress(id, Decompress(id, v)) == v
  {
  }

  /** The number of teams `y` with `i < y < n` and `y != id`. */
  function Later(n: int, id: int, i: int): int
  {
    (n - 1 - i) - (if i < id < n then 1 else 0)
  }

  /** The number of game vertices made before row `i` of the pair loop. */
  function Games(n: int, id: int, i: nat): int
    decreases i
  {
    if i == 0 then 0 else Games(n, id, i - 1) + (if i - 1 == id then 0 else Later(n, id, i - 1))
  }

  /** The game vertex the source's `count++` gives to the pair `(i, j)`. */
  function GameVertex(n: int, id: int, i: nat, j: int): int
  {
    n - 1 + Games(n, id, i) + (j - i - 1) - (if i < id < j then 1 else 0)
  }

  /** `new FlowNetwork(n - 1 + (n - 2) * (n - 1) / 2 + 2)`: team vertices,
      game vertices, then the source and the sink. */
  function NetworkSize(n: int): int
  {
    n - 1 + (n - 2) * (n - 1) / 2 + 2
  }

  /** The game vertices of the first `c` rows of the pair loop over `m`
      teams: row `x` pairs team `x` with the `m - 1 - x` later teams. */
  function Rows(m: int, c: nat): int
    decreases c
  {
    if c == 0 then 0 else Rows(m, c - 1) + (m - c)
  }

  /** `0 + 1 + ... + (m - 1)`. */
  function Tri(m: nat): int
    decreases m
  {
    if m == 0 then 0 else Tri(m - 1) + (m - 1)
  }

  /** Leaving team `id` out, the pair loop over `n` teams is the pair loop
      over the `n - 1` others. */
  lemma {:induction false} GamesRows(n: int, id: int, i: nat)
    requires 0 <= id < n && i <= n
    ensures Games(n, id, i) == Rows(n - 1, if i <= id then i else i - 1)
    decreases i
  {
    if i > 0 {
      GamesRows(n, id, i - 1);
    }
  }

  lemma {:induction false} RowsTri(m: nat, c: nat)
    requires c <= m
    ensures Rows(m, c) + Tri(m - c) == Tri(m)
    decreases c
  {
    if c > 0 {
      RowsTri(m, c - 1);
    }
  }

  lemma {:induction false} TriClosed(m: nat)
    ensures 2 * Tri(m) == m * (m - 1)
    decreases m
  {
    if m > 0 {
      TriClosed(m - 1);
      assert m * (m - 1) == (m - 1) * (m - 2) + 2 * (m - 1);
    }
  }

  /** The pair loop makes `(n - 1)(n - 2) / 2` game vertices: the game
      vertices exactly fill the range between the team vertices and the
      source. */
  lemma GamesTotal(n: int, id: int)
    requires 0 <= id < n
    ensures n - 1 + Games(n, id, n) == NetworkSize(n) - 2
  {
    GamesRows(n, id, n);
    RowsTri(n - 1, n - 1);
    TriClosed(n - 1);
    assert (n - 2) * (n - 1) == (n - 1) * (n - 2);
  }

  lemma {:induction false} GamesMono(n: int, id: int, i: nat, k: nat)
    requires 0 <= id < n && i <= k <= n
    ensures 0 <= Games(n, id, i) <= Games(n, id, k)
    decreases k
  {
    if i < k {
      GamesMono(n, id, i, k - 1);
    } else if i > 0 {
      GamesMono(n, id, i - 1, i - 1);
    }
  }

  /** The game vertex of a pair lies in row `i`'s block. */
  lemma GameInRow(n: int, id: int, i: nat, j: int)
    requires 0 <= id < n && i < j < n && i != id && j != id
    ensures n - 1 + Games(n, id, i) <= GameVertex(n, id, i, j) < n - 1 + Games(n, id, i + 1)
  {
  }

  /** Game vertices lie between the team vertices and the source, and
      distinct pairs get distinct game vertices. */
  lemma GameVertices(n: int, id: int)
    requires 0 <= id < n
    ensures forall i: nat, j :: i < j < n && i != id && j != id ==>
              n - 1 <= GameVertex(n, id, i, j) < NetworkSize(n) - 2
    ensures forall i: nat, j, i': nat, j' ::
              i < j < n && i != id && j != id && i' < j' < n && i' != id && j' != id && (i, j) != (i', j') ==>
              GameVertex(n, id, i, j) != GameVertex(n, id, i', j')
  {
    GamesTotal(n, id);
    forall i: nat, j | i < j < n && i != id && j != id
      ensures n - 1 <= GameVertex(n, id, i, j) < NetworkSize(n) - 2
    {
      GameInRow(n, id, i, j);
      GamesMono(n, id, i, i + 1);
      GamesMono(n, id, i + 1, n);
    }
    forall i: nat, j, i': nat, j' |
      i < j < n && i != id && j != id && i' < j' < n && i' != id && j' != id && i < i'
      ensures GameVertex(n, id, i, j) < GameVertex(n, id, i', j')
    {
      GameInRow(n, id, i, j);
      GameInRow(n, id, i', j');
      GamesMono(n, id, i + 1, i');
    }
  }

  /** The edges `buildNetwork` adds for the game between `i` and `j`, who
      have `left` games left against each other. */
  predicate HasGame(n: int, id: int, edges: seq<FlowEdge>, i: nat, j: int, left: int)
  {
    var game := GameVertex(n, id, i, j);
    && FlowEdge(game, Compress(id, i), Infinite) in edges
    && FlowEdge(game, Compress(id, j), Infinite) in edges
    && FlowEdge(NetworkSize(n) - 2, game, Finite(left)) in edges
  }

  /** The capacity of the edge from team `i` to the sink: the Java `int`
      difference `possible - wins[i]`, which wraps too. */
  function SinkCapacity(d: Division, id: int, i: int): int
    requires 0 <= id < |d.wins| && |d.left| == |d.wins| && 0 <= i < |d.wins|
  {
    Int(Possible(d, id) - d.wins[i])
  }

  /** Some edge of the network for `id` would get a negative capacity: the
      games left between two other teams, or a sink capacity that is
      negative, wrapped or not. */
  predicate HasNegativeCapacity(d: Division, id: int)
    requires Valid(d) && 0 <= id < NumberOfTeams(d)
  {
    || (exists i, j :: 0 <= i < j < NumberOfTeams(d) && i != id && j != id && d.games[i][j] < 0)
    || (exists i :: 0 <= i < NumberOfTeams(d) && i != id && SinkCapacity(d, id, i) < 0)
  }

  /** With no trivial eliminator and wins that are `int`s not below 0, the
      sink capacity `possible - wins[i]` neither wraps nor goes negative. */
  lemma SinkCapacityNonNegative(d: Division, id: int, i: int)
    requires Valid(d) && 0 <= id < NumberOfTeams(d) && 0 <= i < NumberOfTeams(d) && i != id
    requires 0 <= d.wins[i] < 0x8000_0000
    requires !Above(d, id, i)
    ensures SinkCapacity(d, id, i) == Possible(d, id) - d.wins[i] >= 0
  {
    assert Possible(d, id) - d.wins[i] < 0x8000_0000;
  }

  /** The network the source builds once no team trivially eliminates `id`
      has no negative capacity when all wins and games left are `int`s not
      below 0, as in any real standings. */
  lemma CapacitiesNonNegative(d: Division, id: int)
    requires Valid(d) && 0 <= id < NumberOfTeams(d)
    requires forall i :: 0 <= i < NumberOfTeams(d) ==> 0 <= d.wins[i] < 0x8000_0000
    requires forall i, j :: 0 <= i < NumberOfTeams(d) && 0 <= j < NumberOfTeams(d) ==> d.games[i][j] >= 0
    requires forall i :: 0 <= i < NumberOfTeams(d) ==> !Above(d, id, i)
    ensures !HasNegativeCapacity(d, id)
  {
    forall i | 0 <= i < NumberOfTeams(d) && i != id
      ensures SinkCapacity(d, id, i) >= 0
    {
      SinkCapacityNonNegative(d, id, i);
    }
  }

  /** A negative `wins` entry can make the sink capacity wrap: at
      `Integer.MAX_VALUE - 1` wins with one game left, nobody with -2 wins
      is above `id`, yet `possible - wins[i]` wraps to -2^31 + 1. */
  lemma WrappedSinkCapacity(d: Division, id: int, i: int)
    requires Valid(d) && 0 <= id < NumberOfTeams(d) && 0 <= i < NumberOfTeams(d) && i != id
    requires d.wins[id] == 0x7FFF_FFFE && d.left[id] == 1 && d.wins[i] == -2
    ensures !Above(d, id, i) && SinkCapacity(d, id, i) == -0x7FFF_FFFF && HasNegativeCapacity(d, id)
  {
    assert Possible(d, id) == 0x7FFF_FFFF;
  }

  /** All edge ends are vertices of a network of `size` vertices. */
  predicate Within(edges: seq<FlowEdge>, size: int)
  {
    forall e :: e in edges ==> 0 <= e.from < size && 0 <= e.to < size
  }

  /** The three edges of the game between `i` and `j`. */
  function GameTriple(n: int, id: int, i: nat, j: int, left: int): (r: seq<FlowEdge>)
    requires 0 <= id < n && i < j < n && i != id && j != id
    ensures HasGame(n, id, r, i, j, left)
    ensures Within(r, NetworkSize(n))
  {
    GameVertices(n, id);
    var game := GameVertex(n, id, i, j);
    [FlowEdge(game, Compress(id, i), Infinite), FlowEdge(game, Compress(id, j), Infinite),
     FlowEdge(NetworkSize(n) - 2, game, Finite(left))]
  }

  /** Appending edges keeps every earlier edge and every bound. */
  lemma Append(edges: seq<FlowEdge>, extra: seq<FlowEdge>, size: int)
    requires Within(edges, size) && Within(extra, size)
    ensures Within(edges + extra, size)
    ensures forall e :: e in edges ==> e in edges + extra
    ensures forall e :: e in extra ==> e in edges + extra
  {
  }

  /** Row `i` of the pair loop of `buildNetwork`: a game vertex, numbered by
      `count`, for each later team `j` other than `id`; nothing for the row
      of `id` itself. */
  method GameRow(d: Division, id: int, i: nat, count: int, edges: seq<FlowEdge>) returns (count': int, edges': seq<FlowEdge>)
    requires Valid(d) && 0 <= id < NumberOfTeams(d) && i < NumberOfTeams(d)
    requires count == Games(NumberOfTeams(d), id, i)
    requires Within(edges, NetworkSize(NumberOfTeams(d)))
    ensures count' == Games(NumberOfTeams(d), id, i + 1)
    ensures |edges'| - |edges| == 3 * (count' - count)
    ensures forall e :: e in edges ==> e in edges'
    ensures Within(edges', NetworkSize(NumberOfTeams(d)))
    ensures i != id ==> forall y :: i < y < NumberOfTeams(d) && y != id ==>
              HasGame(NumberOfTeams(d), id, edges', i, y, d.games[i][y])
  {
    var n := NumberOfTeams(d);
    count', edges' := count, edges;
    var j := i + 1;
    while j < n && i != id
      invariant i + 1 <= j <= n && (i == id ==> j == i + 1)
      invariant count' == Games(n, id, i) + (j - i - 1) - (if i < id < j then 1 else 0)
      invariant |edges'| - |edges| == 3 * (count' - count)
      invariant forall e :: e in edges ==> e in edges'
      invariant Within(edges', NetworkSize(n))
      invariant forall y :: i < y < j && y != id ==> HasGame(n, id, edges', i, y, d.games[i][y])
    {
      if j == id {
        j := j + 1;
        continue;
      }
      var triple := GameTriple(n, id, i, j, d.games[i][j]);
      Append(edges', triple, NetworkSize(n));
      edges' := edges' + triple;
      count' := count' + 1;
      j := j + 1;
    }
  }

  /** The pair loop of `buildNetwork`. */
  method GameEdges(d: Division, id: int) returns (edges: seq<FlowEdge>)
    requires Valid(d) && 0 <= id < NumberOfTeams(d)
    ensures |edges| == 3 * Games(NumberOfTeams(d), id, NumberOfTeams(d))
    ensures Within(edges, NetworkSize(NumberOfTeams(d)))
    ensures forall i: nat, j :: i < j < NumberOfTeams(d) && i != id && j != id ==>
              HasGame(NumberOfTeams(d), id, edges, i, j, d.games[i][j])
  {
    var n := NumberOfTeams(d);
    edges := [];
    var count := 0;
    for i := 0 to n
      invariant count == Games(n, id, i)
      invariant |edges| == 3 * count
      invariant Within(edges, NetworkSize(n))
      invariant forall x: nat, y :: x < i && x < y < n && x != id && y != id ==> HasGame(n, id, edges, x, y, d.games[x][y])
    {
      ghost var before := edges;
      count, edges := GameRow(d, id, i, count, edges);
      assert forall x: nat, y :: x < i && x < y < n && x != id && y != id ==>
        HasGame(n, id, before, x, y, d.games[x][y]) && HasGame(n, id, edges, x, y, d.games[x][y]);
    }
  }

  /** The sink loop of `buildNetwork`. */
  method SinkEdges(d: Division, id: int, edges: seq<FlowEdge>) returns (edges': seq<FlowEdge>)
    requires Valid(d) && 0 <= id < NumberOfTeams(d)
    requires Within(edges, NetworkSize(NumberOfTeams(d)))
    ensures |edges'| == |edges| + NumberOfTeams(d) - 1
    ensures forall e :: e in edges ==> e in edges'
    ensures Within(edges', NetworkSize(NumberOfTeams(d)))
    ensures forall i :: 0 <= i < NumberOfTeams(d) && i != id ==>
              FlowEdge(Compress(id, i), NetworkSize(NumberOfTeams(d)) - 1, Finite(SinkCapacity(d, id, i))) in edges'
  {
    var n := NumberOfTeams(d);
    var t := NetworkSize(n) - 1;
    GamesTotal(n, id);
    GamesMono(n, id, 0, n);
    var possible := Int(d.wins[id] + d.left[id]);
    edges' := edges;
    for i := 0 to n
      invariant |edges'| == |edges| + (if i <= id then i else i - 1)
      invariant forall e :: e in edges ==> e in edges'
      invariant Within(edges', NetworkSize(n))
      invariant forall x :: 0 <= x < i && x != id ==> FlowEdge(Compress(id, x), t, Finite(SinkCapacity(d, id, x))) in edges'
    {
      if i == id {
        continue;
      }
      var v := if i < id then i else i - 1;
      edges' := edges' + [FlowEdge(v, t, Finite(Int(possible - d.wins[i])))];
    }
  }

  /** `buildNetwork(id)`: for every pair of teams other than `id`, a game
      vertex with infinite edges to both teams and an edge from the source
      carrying the games left between them; then an edge from every team to
      the sink carrying the wins it may still have without passing `id`.
      `FlowEdge`'s constructor throws on a negative capacity.  The network
      is local to the call, so refusing it before the first edge is the same
      outcome as throwing at the first negative one. */
  method BuildNetwork(d: Division, id: int) returns (r: Result<Network, Error>)
    requires Valid(d) && 0 <= id < NumberOfTeams(d)
    ensures r == Err(NegativeCapacity) <==> HasNegativeCapacity(d, id)
    ensures r.Err? ==> r.error == NegativeCapacity
    ensures r.Ok? ==> r.value.size == NetworkSize(NumberOfTeams(d))
    ensures r.Ok? ==> Within(r.value.edges, r.value.size)
    ensures r.Ok? ==> |r.value.edges| == 3 * Games(NumberOfTeams(d), id, NumberOfTeams(d)) + NumberOfTeams(d) - 1
    ensures r.Ok? ==> forall i: nat, j :: i < j < NumberOfTeams(d) && i != id && j != id ==>
              HasGame(NumberOfTeams(d), id, r.value.edges, i, j, d.games[i][j]) && d.games[i][j] >= 0
    ensures r.Ok? ==> forall i :: 0 <= i < NumberOfTeams(d) && i != id ==>
              && FlowEdge(Compress(id, i), r.value.size - 1, Finite(SinkCapacity(d, id, i))) in r.value.edges
              && SinkCapacity(d, id, i) >= 0
  {
    if HasNegativeCapacity(d, id) {
      return Err(NegativeCapacity);
    }
    var n := NumberOfTeams(d);
    var size := n - 1 + (n - 2) * (n - 1) / 2 + 2;
    var games := GameEdges(d, id);
    var edges := SinkEdges(d, id, games);
    assert forall i: nat, j :: i < j < n && i != id && j != id ==>
      HasGame(n, id, games, i, j, d.games[i][j]) && HasGame(n, id, edges, i, j, d.games[i][j]);
    return Ok(Network(size, edges));
  }

  // ---------------------------------------------------------------------
  // Certificates

  /** `nontriviallyEliminate`: build the network, which throws on a
      negative capacity; otherwise the teams whose vertices are on the source
      side of the minimum cut, decompressed and named, or null when there are
      none.  `Bag.add` prepends, so a later team comes first. */
  method NontriviallyEliminate(d: Division, cut: Cut, id: int) returns (r: Result<Option<seq<string>>, Error>)
    requires Valid(d) && 0 <= id < NumberOfTeams(d)
    ensures r.Err? <==> HasNegativeCapacity(d, id)
    ensures r.Err? ==> r.error == NegativeCapacity
    ensures r.Ok? ==> (r.value.None? <==> forall v :: 0 <= v < NumberOfTeams(d) - 1 ==> !cut(id, v))
    ensures r.Ok? && r.value.Some? ==> forall x :: x in r.value.value <==>
              exists v :: 0 <= v < NumberOfTeams(d) - 1 && cut(id, v) && x == d.names[Decompress(id, v)]
    ensures r.Ok? && r.value.Some? ==> forall x :: x in r.value.value ==>
              exists i :: 0 <= i < NumberOfTeams(d) && i != id && x == d.names[i]
  {
    var network := BuildNetwork(d, id);
    if network.Err? {
      return Err(network.error);
    }
    var certificate := CutTeams(d, cut, id);
    return Ok(certificate);
  }

  /** The loop of `nontriviallyEliminate` over the team vertices. */
  method CutTeams(d: Division, cut: Cut, id: int) returns (r: Option<seq<string>>)
    requires Valid(d) && 0 <= id < NumberOfTeams(d)
    ensures r.None? <==> forall v :: 0 <= v < NumberOfTeams(d) - 1 ==> !cut(id, v)
    ensures r.Some? ==> forall x :: x in r.value <==>
              exists v :: 0 <= v < NumberOfTeams(d) - 1 && cut(id, v) && x == d.names[Decompress(id, v)]
    ensures r.Some? ==> forall x :: x in r.value ==> exists i :: 0 <= i < NumberOfTeams(d) && i != id && x == d.names[i]
  {
    CompressInverse(NumberOfTeams(d), id);
    r := None;
    var n := NumberOfTeams(d);
    for v := 0 to n - 1
      invariant r.None? <==> forall u :: 0 <= u < v ==> !cut(id, u)
      invariant r.Some? ==> forall x :: x in r.value <==>
                  exists u :: 0 <= u < v && cut(id, u) && x == d.names[Decompress(id, u)]
    {
      if cut(id, v) {
        if r.None? {
          r := Some([]);
        }
        var i := if v < id then v else v + 1;
        r := Some([d.names[i]] + r.value);
      }
    }
  }

  /** The certificate a team's first query computes: the first trivial
      eliminator alone, or otherwise the source side of the minimum cut. */
  ghost predicate Certifies(d: Division, cut: Cut, id: int, trivial: int, cert: Option<seq<string>>)
    requires Valid(d) && 0 <= id < NumberOfTeams(d)
  {
    var n := NumberOfTeams(d);
    && 0 <= trivial < n
    && (trivial == id <==> forall i :: 0 <= i < n ==> !Above(d, id, i))
    && (trivial != id ==> Above(d, id, trivial) && (forall i :: 0 <= i < trivial ==> !Above(d, id, i))
                          && cert == Some([d.names[trivial]]))
    && (trivial == id ==>
          && !HasNegativeCapacity(d, id)
          && (cert.None? <==> forall v :: 0 <= v < n - 1 ==> !cut(id, v))
          && (cert.Some? ==> forall x :: x in cert.value <==>
                exists v :: 0 <= v < n - 1 && cut(id, v) && x == d.names[Decompress(id, v)]))
  }

  /** What the cache holds after a first query that threw in
      `buildNetwork`: the source stored the trivial result, `id` itself,
      before the network threw, and the certificate stayed null. */
  predicate Poisoned(d: Division, id: int, trivial: int, cert: Option<seq<string>>)
    requires Valid(d) && 0 <= id < NumberOfTeams(d)
  {
    && trivial == id && cert.None?
    && (forall i :: 0 <= i < NumberOfTeams(d) ==> !Above(d, id, i))
    && HasNegativeCapacity(d, id)
  }

  /** Certification reads only the standings, not the cache. */
  lemma CertifiesFrame(d: Division, d': Division, cut: Cut, id: int, trivial: int, cert: Option<seq<string>>)
    requires Valid(d) && Valid(d') && 0 <= id < NumberOfTeams(d)
    requires d'.names == d.names && d'.wins == d.wins && d'.left == d.left && d'.games == d.games
    ensures Certifies(d', cut, id, trivial, cert) == Certifies(d, cut, id, trivial, cert)
    ensures Poisoned(d', id, trivial, cert) == Poisoned(d, id, trivial, cert)
  {
    assert forall i :: 0 <= i < NumberOfTeams(d) ==> Above(d', id, i) == Above(d, id, i);
    assert forall i :: 0 <= i < NumberOfTeams(d) ==> SinkCapacity(d', id, i) == SinkCapacity(d, id, i);
  }

  /** Every cached certificate is the one its team's first query computed,
      or the null a throwing first query left behind; a team not yet asked
      about has no certificate. */
  ghost predicate Cached(d: Division, cut: Cut)
    requires Valid(d)
  {
    forall i :: 0 <= i < NumberOfTeams(d) ==>
      if d.trivial[i] == NOT_COMPUTED then d.certificate[i].None?
      else Certifies(d, cut, i, d.trivial[i], d.certificate[i]) || Poisoned(d, i, d.trivial[i], d.certificate[i])
  }

  /** A new division satisfies the cache invariant. */
  lemma CreateCached(names: seq<string>, wins: seq<int>, loss: seq<int>, left: seq<int>, games: seq<seq<int>>, cut: Cut)
    requires |wins| == |names| && |loss| == |names| && |left| == |names|
    requires |games| == |names| && forall i :: 0 <= i < |names| ==> |games[i]| == |names|
    ensures Cached(Create(names, wins, loss, left, games), cut)
  {
  }

  /** `certificateOfElimination`: validate the name; on the first query of a
      team compute and cache its trivial eliminator and certificate; answer
      from the cache.  When building the network throws, the trivial result
      is already stored and the certificate is not, so every later query of
      that team answers null. */
  method CertificateOfElimination(d: Division, cut: Cut, team: Option<string>)
    returns (d': Division, r: Result<Option<seq<string>>, Error>)
    requires Valid(d) && Cached(d, cut)
    ensures d'.names == d.names && d'.index == d.index && d'.wins == d.wins && d'.loss == d.loss
    ensures d'.left == d.left && d'.games == d.games
    ensures Valid(d') && Cached(d', cut)
    ensures TeamId(d, team).Err? ==> r == Err(TeamId(d, team).error) && d' == d
    ensures TeamId(d, team).Ok? ==> var id := TeamId(d, team).value;
              && d'.trivial[id] != NOT_COMPUTED
              && (d.trivial[id] != NOT_COMPUTED ==> d' == d && r == Ok(d.certificate[id]))
              && (r.Err? <==> d.trivial[id] == NOT_COMPUTED && Poisoned(d, id, id, None))
              && (r.Err? ==> r.error == NegativeCapacity && d'.trivial[id] == id && d'.certificate[id] == None)
              && (r.Ok? ==> r.value == d'.certificate[id])
              && (r.Ok? ==> Certifies(d, cut, id, d'.trivial[id], r.value) || Poisoned(d, id, d'.trivial[id], r.value))
  {
    var rid := TeamId(d, team);
    if rid.Err? {
      return d, Err(rid.error);
    }
    var id := rid.value;
    d' := d;
    if d.trivial[id] == NOT_COMPUTED {
      var eliminatedBy := TriviallyEliminate(d, id);
      var cert := None;
      var failed := false;
      if eliminatedBy != id {
        cert := Some([d.names[eliminatedBy]]);
      } else {
        var nontrivial := NontriviallyEliminate(d, cut, id);
        if nontrivial.Err? {
          failed := true;
        } else {
          cert := nontrivial.value;
        }
      }
      assert failed ==> Poisoned(d, id, eliminatedBy, cert);
      assert !failed ==> Certifies(d, cut, id, eliminatedBy, cert);
      d' := d.(trivial := d.trivial[id := eliminatedBy], certificate := d.certificate[id := cert]);
      forall i | 0 <= i < NumberOfTeams(d) && d'.trivial[i] != NOT_COMPUTED
        ensures Certifies(d', cut, i, d'.trivial[i], d'.certificate[i]) || Poisoned(d', i, d'.trivial[i], d'.certificate[i])
      {
        CertifiesFrame(d, d', cut, i, d'.trivial[i], d'.certificate[i]);
      }
      if failed {
        return d', Err(NegativeCapacity);
      }
    }
    r := Ok(d'.certificate[id]);
  }

  /** `isEliminated`: the team has a non-null certificate. */
  method IsEliminated(d: Division, cut: Cut, team: Option<string>)
    returns (d': Division, r: Result<bool, Error>)
    requires Valid(d) && Cached(d, cut)
    ensures d'.names == d.names && d'.index == d.index && d'.wins == d.wins && d'.loss == d.loss
    ensures Valid(d') && Cached(d', cut)
    ensures TeamId(d, team).Err? ==> r == Err(TeamId(d, team).error)
    ensures TeamId(d, team).Ok? ==> var id := TeamId(d, team).value;
              && (r.Err? <==> d.trivial[id] == NOT_COMPUTED && Poisoned(d, id, id, None))
              && (r.Ok? ==> (r.value <==> d'.certificate[id].Some?))
              && (r.Ok? && !Poisoned(d, id, id, None) ==>
                    (r.value <==> (exists i :: 0 <= i < NumberOfTeams(d) && Above(d, id, i))
                                  || (exists v :: 0 <= v < NumberOfTeams(d) - 1 && cut(id, v))))
              && (r.Ok? && Poisoned(d, id, id, None) ==> !r.value)
  {
    var c;
    d', c := CertificateOfElimination(d, cut, team);
    if c.Err? {
      return d', Err(c.error);
    }
    r := Ok(c.value.Some?);
  }
}

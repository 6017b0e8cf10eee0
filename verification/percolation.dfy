/** The percolation system of Percolation/src/Percolation.java: an n-by-n grid
    of sites, each holding the TOPPED, BOTTOMED and ACTIVE (open) bits of a
    byte, over a union-find structure of the sites.  The flat index
    `row * n + col` of the source becomes the pair `Site(row, col)` (rows and
    columns from 0).  The union-find library is modelled as an abstract
    partition: every site has a representative, which is a fixed point; a
    union relabels two classes to one of their two representatives, and which
    one the weighted union picks is left as a nondeterministic choice. */
module Percolation {
  import opened Wrappers

  const TOPPED: bv8 := 1
  const BOTTOMED: bv8 := 2
  const ACTIVE: bv8 := 4

  datatype Site = Site(r: int, c: int)

  datatype System = System(n: int, grid: seq<seq<bv8>>, uf: seq<seq<Site>>, openCount: int, percolates: bool)

  datatype Error = InvalidSize | InvalidSite

  // ---------------------------------------------------------------------
  // Grids of sites

  predicate InGrid(n: int, s: Site)
  {
    0 <= s.r < n && 0 <= s.c < n
  }

  predicate Square<X>(n: int, m: seq<seq<X>>)
  {
    |m| == n && forall r :: 0 <= r < n ==> |m[r]| == n
  }

  function At<X>(m: seq<seq<X>>, s: Site): X
    requires 0 <= s.r < |m| && 0 <= s.c < |m[s.r]|
  {
    m[s.r][s.c]
  }

  /** The grid with the entry of site `s` replaced. */
  function Put<X>(n: int, m: seq<seq<X>>, s: Site, x: X): (m': seq<seq<X>>)
    requires Square(n, m) && InGrid(n, s)
    ensures Square(n, m')
    ensures forall t {:trigger At(m', t)} :: InGrid(n, t) ==> At(m', t) == if t == s then x else At(m, t)
  {
    m[s.r := m[s.r][s.c := x]]
  }

  predicate OpenIn(grid: seq<seq<bv8>>, s: Site)
    requires 0 <= s.r < |grid| && 0 <= s.c < |grid[s.r]|
  {
    At(grid, s) & ACTIVE != 0
  }

  function Up(s: Site): Site { Site(s.r - 1, s.c) }
  function Down(s: Site): Site { Site(s.r + 1, s.c) }
  function Left(s: Site): Site { Site(s.r, s.c - 1) }
  function Right(s: Site): Site { Site(s.r, s.c + 1) }

  /** 4-adjacency; left and right neighbours are in the same row. */
  predicate Adjacent(a: Site, b: Site)
  {
    b == Up(a) || b == Down(a) || b == Left(a) || b == Right(a)
  }

  /** The open sites. */
  ghost function OpenSites(n: int, grid: seq<seq<bv8>>): set<Site>
    requires Square(n, grid)
  {
    set r, c | 0 <= r < n && 0 <= c < n && OpenIn(grid, Site(r, c)) :: Site(r, c)
  }

  // ---------------------------------------------------------------------
  // Components of open sites

  /** A walk through open sites, each step to a 4-adjacent one. */
  ghost predicate IsPath(n: int, grid: seq<seq<bv8>>, path: seq<Site>)
    requires Square(n, grid)
  {
    && |path| > 0
    && (forall k :: 0 <= k < |path| ==> InGrid(n, path[k]) && OpenIn(grid, path[k]))
    && (forall k :: 0 < k < |path| ==> Adjacent(path[k - 1], path[k]))
  }

  /** `a` and `b` are in the same component of 4-adjacent open sites. */
  ghost predicate Connected(n: int, grid: seq<seq<bv8>>, a: Site, b: Site)
    requires Square(n, grid)
  {
    exists path :: IsPath(n, grid, path) && path[0] == a && path[|path| - 1] == b
  }

  lemma ConnectedAdjacent(n: int, grid: seq<seq<bv8>>, a: Site, b: Site)
    requires Square(n, grid) && InGrid(n, a) && InGrid(n, b) && OpenIn(grid, a) && OpenIn(grid, b)
    requires a == b || Adjacent(a, b)
    ensures Connected(n, grid, a, b)
  {
    var path := if a == b then [a] else [a, b];
    assert IsPath(n, grid, path);
  }

  lemma ConnectedSymmetric(n: int, grid: seq<seq<bv8>>, a: Site, b: Site)
    requires Square(n, grid) && Connected(n, grid, a, b)
    ensures Connected(n, grid, b, a)
  {
    var path :| IsPath(n, grid, path) && path[0] == a && path[|path| - 1] == b;
    var m := |path|;
    var back := seq(m, k requires 0 <= k < m => path[m - 1 - k]);
    forall k | 0 < k < m
      ensures Adjacent(back[k - 1], back[k])
    {
      assert Adjacent(path[m - 1 - k], path[m - k]);
    }
    assert IsPath(n, grid, back);
  }

  lemma ConnectedTransitive(n: int, grid: seq<seq<bv8>>, a: Site, b: Site, c: Site)
    requires Square(n, grid) && Connected(n, grid, a, b) && Connected(n, grid, b, c)
    ensures Connected(n, grid, a, c)
  {
    var p :| IsPath(n, grid, p) && p[0] == a && p[|p| - 1] == b;
    var q :| IsPath(n, grid, q) && q[0] == b && q[|q| - 1] == c;
    var pq := p + q[1..];
    forall k | 0 < k < |pq|
      ensures Adjacent(pq[k - 1], pq[k])
    {
      if k == |p| {
        assert pq[k - 1] == q[0] && pq[k] == q[1];
      } else if k > |p| {
        assert pq[k - 1] == q[k - |p|] && pq[k] == q[k - |p| + 1];
      }
    }
    assert IsPath(n, grid, pq);
  }

  /** Opening sites keeps every connection. */
  lemma ConnectedGrow(n: int, grid: seq<seq<bv8>>, grid': seq<seq<bv8>>, a: Site, b: Site)
    requires Square(n, grid) && Square(n, grid')
    requires forall s :: InGrid(n, s) && OpenIn(grid, s) ==> OpenIn(grid', s)
    requires Connected(n, grid, a, b)
    ensures Connected(n, grid', a, b)
  {
    var path :| IsPath(n, grid, path) && path[0] == a && path[|path| - 1] == b;
    assert IsPath(n, grid', path);
  }

  // ---------------------------------------------------------------------
  // The union-find structure as a partition

  function Find(uf: seq<seq<Site>>, s: Site): Site
    requires 0 <= s.r < |uf| && 0 <= s.c < |uf[s.r]|
  {
    At(uf, s)
  }

  /** Every representative is a site and represents itself. */
  ghost predicate Partition(n: int, uf: seq<seq<Site>>)
  {
    && Square(n, uf)
    && forall s {:trigger Find(uf, s)} :: InGrid(n, s) ==> InGrid(n, Find(uf, s)) && Find(uf, Find(uf, s)) == Find(uf, s)
  }

  /** union: the classes of representatives `ra` and `rb` merge under `keep`. */
  function Union(n: int, uf: seq<seq<Site>>, ra: Site, rb: Site, keep: Site): (u: seq<seq<Site>>)
    requires Square(n, uf)
    ensures Square(n, u)
    ensures forall s {:trigger Find(u, s)} :: InGrid(n, s) ==>
              Find(u, s) == if Find(uf, s) == ra || Find(uf, s) == rb then keep else Find(uf, s)
  {
    seq(n, r requires 0 <= r < n => seq(n, c requires 0 <= c < n =>
      if uf[r][c] == ra || uf[r][c] == rb then keep else uf[r][c]))
  }

  /** The class of `root` holds a site of row `row`. */
  ghost predicate Touches(n: int, uf: seq<seq<Site>>, root: Site, row: int)
    requires Square(n, uf) && 0 <= row < n
  {
    exists c :: 0 <= c < n && Find(uf, Site(row, c)) == root
  }

  // ---------------------------------------------------------------------
  // The invariant

  /** A closed site is alone in its class; an open site's representative is open. */
  ghost predicate Singletons(n: int, grid: seq<seq<bv8>>, uf: seq<seq<Site>>)
    requires Square(n, grid) && Square(n, uf)
  {
    forall s {:trigger Find(uf, s)} :: InGrid(n, s) ==>
      if OpenIn(grid, s) then InGrid(n, Find(uf, s)) && OpenIn(grid, Find(uf, s)) else Find(uf, s) == s
  }

  /** Every open site is connected to its representative. */
  ghost predicate Rooted(n: int, grid: seq<seq<bv8>>, uf: seq<seq<Site>>)
    requires Square(n, grid) && Square(n, uf)
  {
    forall s {:trigger Connected(n, grid, s, Find(uf, s))} :: InGrid(n, s) && OpenIn(grid, s) ==> Connected(n, grid, s, Find(uf, s))
  }

  /** Adjacent open sites share a class, except possibly where one of them is
      `x`; with `x` outside the grid this is the full closure. */
  ghost predicate ClosedExcept(n: int, grid: seq<seq<bv8>>, uf: seq<seq<Site>>, x: Site)
    requires Square(n, grid) && Square(n, uf)
  {
    forall s, t {:trigger Adjacent(s, t)} ::
      && InGrid(n, s) && InGrid(n, t) && Adjacent(s, t) && s != x && t != x
      && OpenIn(grid, s) && OpenIn(grid, t)
      ==> Find(uf, s) == Find(uf, t)
  }

  ghost predicate Closed(n: int, grid: seq<seq<bv8>>, uf: seq<seq<Site>>)
    requires Square(n, grid) && Square(n, uf)
  {
    ClosedExcept(n, grid, uf, Site(-1, -1))
  }

  /** The TOPPED and BOTTOMED bits of a representative say whether its class
      reaches the top and the bottom row. */
  ghost predicate FlagsAt(n: int, grid: seq<seq<bv8>>, uf: seq<seq<Site>>, root: Site)
    requires Square(n, grid) && Square(n, uf) && InGrid(n, root)
  {
    && (At(grid, root) & TOPPED != 0 <==> Touches(n, uf, root, 0))
    && (At(grid, root) & BOTTOMED != 0 <==> Touches(n, uf, root, n - 1))
  }

  ghost predicate FlaggedExcept(n: int, grid: seq<seq<bv8>>, uf: seq<seq<Site>>, x: Site)
    requires Square(n, grid) && Square(n, uf)
  {
    forall s {:trigger Find(uf, s)} :: InGrid(n, s) && Find(uf, s) == s && s != x ==> FlagsAt(n, grid, uf, s)
  }

  /** The class of some open top-row site holds a bottom-row site. */
  ghost predicate Spans(n: int, grid: seq<seq<bv8>>, uf: seq<seq<Site>>)
    requires Square(n, grid) && Square(n, uf) && n > 0
  {
    exists c :: 0 <= c < n && OpenIn(grid, Site(0, c)) && Touches(n, uf, Find(uf, Site(0, c)), n - 1)
  }

  ghost predicate Core(n: int, grid: seq<seq<bv8>>, uf: seq<seq<Site>>)
  {
    n > 0 && Square(n, grid) && Partition(n, uf) && Singletons(n, grid, uf) && Rooted(n, grid, uf)
  }

  ghost predicate Valid(p: System)
  {
    && Core(p.n, p.grid, p.uf)
    && Closed(p.n, p.grid, p.uf)
    && FlaggedExcept(p.n, p.grid, p.uf, Site(-1, -1))
    && (p.percolates <==> Spans(p.n, p.grid, p.uf))
    && p.openCount == |OpenSites(p.n, p.grid)|
  }

  // ---------------------------------------------------------------------
  // Consequences of the invariant

  /** Along a walk of open sites, a closed partition keeps the class. */
  lemma {:induction false} PathSameClass(n: int, grid: seq<seq<bv8>>, uf: seq<seq<Site>>, path: seq<Site>)
    requires Square(n, grid) && Square(n, uf) && Closed(n, grid, uf) && IsPath(n, grid, path)
    ensures Find(uf, path[0]) == Find(uf, path[|path| - 1])
    decreases |path|
  {
    var m := |path|;
    if m > 1 {
      var init := path[..m - 1];
      assert IsPath(n, grid, init);
      PathSameClass(n, grid, uf, init);
      assert Adjacent(path[m - 2], path[m - 1]);
    }
  }

  lemma ConnectedSameClass(n: int, grid: seq<seq<bv8>>, uf: seq<seq<Site>>, a: Site, b: Site)
    requires Square(n, grid) && Square(n, uf) && Closed(n, grid, uf) && Connected(n, grid, a, b)
    ensures InGrid(n, a) && OpenIn(grid, a) && Find(uf, a) == Find(uf, b)
  {
    var path :| IsPath(n, grid, path) && path[0] == a && path[|path| - 1] == b;
    PathSameClass(n, grid, uf, path);
  }

  /** Sites of one class are connected when one of them is open. */
  lemma SameClassConnected(n: int, grid: seq<seq<bv8>>, uf: seq<seq<Site>>, a: Site, b: Site)
    requires Square(n, grid) && Square(n, uf) && Singletons(n, grid, uf) && Rooted(n, grid, uf)
    requires InGrid(n, a) && InGrid(n, b) && OpenIn(grid, a) && Find(uf, a) == Find(uf, b)
    ensures OpenIn(grid, b) && Connected(n, grid, a, b)
  {
    assert OpenIn(grid, b);
    ConnectedSymmetric(n, grid, b, Find(uf, b));
    ConnectedTransitive(n, grid, a, Find(uf, a), b);
  }

  // ---------------------------------------------------------------------
  // Constructor

  /** The flags of a fresh site: TOPPED in the first row, BOTTOMED in the
      last (indices `i < n` and `i >= n*n - n` of the flat array). */
  function InitialFlags(n: int, r: int): (b: bv8)
    ensures b & ACTIVE == 0
    ensures b & TOPPED != 0 <==> r == 0
    ensures b & BOTTOMED != 0 <==> r == n - 1
  {
    (if r == 0 then TOPPED else 0) | (if r == n - 1 then BOTTOMED else 0)
  }

  /** The grid of a new system: every site closed, with its initial flags. */
  function InitialGrid(n: nat): (grid: seq<seq<bv8>>)
    ensures Square(n, grid) && forall s {:trigger At(grid, s)} :: InGrid(n, s) ==> At(grid, s) == InitialFlags(n, s.r)
  {
    seq(n, r requires 0 <= r < n => seq(n, c requires 0 <= c < n => InitialFlags(n, r)))
  }

  /** The partition of a new system: every site alone in its class. */
  function InitialClasses(n: nat): (uf: seq<seq<Site>>)
    ensures Square(n, uf) && forall s {:trigger Find(uf, s)} :: InGrid(n, s) ==> Find(uf, s) == s
  {
    seq(n, r requires 0 <= r < n => seq(n, c requires 0 <= c < n => Site(r, c)))
  }

  /** new Percolation(n): rejects n <= 0; otherwise every site is closed and
      alone in its class, and only the first and last rows carry flags. */
  function New(n: int): (r: Result<System, Error>)
    ensures r.Err? <==> n <= 0
    ensures r.Err? ==> r.error == InvalidSize
    ensures r.Ok? ==> && Valid(r.value) && r.value.n == n && OpenSites(n, r.value.grid) == {}
                      && !r.value.percolates
                      && forall s :: InGrid(n, s) ==>
                           && (At(r.value.grid, s) & TOPPED != 0 <==> s.r == 0)
                           && (At(r.value.grid, s) & BOTTOMED != 0 <==> s.r == n - 1)
  {
    if n <= 0 then Err(InvalidSize)
    else
      NewValid(n);
      Ok(System(n, InitialGrid(n), InitialClasses(n), 0, false))
  }

  lemma NewValid(n: nat)
    requires n > 0
    ensures Valid(System(n, InitialGrid(n), InitialClasses(n), 0, false))
    ensures OpenSites(n, InitialGrid(n)) == {}
  {
    var grid, uf := InitialGrid(n), InitialClasses(n);
    assert OpenSites(n, grid) == {};
    forall s | InGrid(n, s) && Find(uf, s) == s
      ensures FlagsAt(n, grid, uf, s)
    {
      if s.r == 0 {
        assert Find(uf, Site(0, s.c)) == s;
      }
      if s.r == n - 1 {
        assert Find(uf, Site(n - 1, s.c)) == s;
      }
    }
  }

  // ---------------------------------------------------------------------
  // Queries

  /** validate: rows and columns are numbered 1..n. */
  predicate ValidSite(n: int, row: int, col: int)
  {
    !(row > n || row < 1 || col > n || col < 1)
  }

  /** isOpen. */
  function IsOpen(p: System, row: int, col: int): (r: Result<bool, Error>)
    requires Valid(p)
    ensures r.Err? <==> !(1 <= row <= p.n && 1 <= col <= p.n)
    ensures r.Err? ==> r.error == InvalidSite
    ensures r.Ok? ==> (r.value <==> Site(row - 1, col - 1) in OpenSites(p.n, p.grid))
  {
    if !ValidSite(p.n, row, col) then Err(InvalidSite)
    else Ok(OpenIn(p.grid, Site(row - 1, col - 1)))
  }

  /** isFull: the site is open and the TOPPED bit of its representative is set,
      which is to say its open component reaches the top row. */
  function IsFull(p: System, row: int, col: int): (r: Result<bool, Error>)
    requires Valid(p)
    ensures r.Err? <==> !(1 <= row <= p.n && 1 <= col <= p.n)
    ensures r.Err? ==> r.error == InvalidSite
    ensures r.Ok? ==> (r.value <==> ReachesRow(p.n, p.grid, Site(row - 1, col - 1), 0))
  {
    if !ValidSite(p.n, row, col) then Err(InvalidSite)
    else
      var s := Site(row - 1, col - 1);
      var root := Find(p.uf, s);
      FullMeans(p, s);
      Ok(OpenIn(p.grid, s) && At(p.grid, root) & TOPPED != 0)
  }

  lemma FullMeans(p: System, s: Site)
    requires Valid(p) && InGrid(p.n, s)
    ensures (OpenIn(p.grid, s) && At(p.grid, Find(p.uf, s)) & TOPPED != 0) <==> ReachesRow(p.n, p.grid, s, 0)
  {
    var n, grid, uf := p.n, p.grid, p.uf;
    var root := Find(uf, s);
    assert FlagsAt(n, grid, uf, root);
    if OpenIn(grid, s) && At(grid, root) & TOPPED != 0 {
      var c :| 0 <= c < n && Find(uf, Site(0, c)) == root;
      SameClassConnected(n, grid, uf, s, Site(0, c));
    }
    if ReachesRow(n, grid, s, 0) {
      var c :| 0 <= c < n && Connected(n, grid, s, Site(0, c));
      ConnectedSameClass(n, grid, uf, s, Site(0, c));
    }
  }

  /** numberOfOpenSites. */
  function NumberOfOpenSites(p: System): (k: int)
    requires Valid(p)
    ensures k == |OpenSites(p.n, p.grid)|
  {
    p.openCount
  }

  /** Site `a` is connected to some site of row `row`. */
  ghost predicate ReachesRow(n: int, grid: seq<seq<bv8>>, a: Site, row: int)
    requires Square(n, grid) && 0 <= row < n
  {
    exists c :: 0 <= c < n && Connected(n, grid, a, Site(row, c))
  }

  /** percolates: some top-row site is connected to some bottom-row site. */
  function Percolates(p: System): (b: bool)
    requires Valid(p)
    ensures b <==> exists c :: 0 <= c < p.n && ReachesRow(p.n, p.grid, Site(0, c), p.n - 1)
  {
    SpansMeans(p);
    p.percolates
  }

  lemma SpansMeans(p: System)
    requires Valid(p)
    ensures Spans(p.n, p.grid, p.uf) <==> exists c :: 0 <= c < p.n && ReachesRow(p.n, p.grid, Site(0, c), p.n - 1)
  {
    SpansReach(p.n, p.grid, p.uf);
    ReachSpans(p.n, p.grid, p.uf);
  }

  lemma SpansReach(n: int, grid: seq<seq<bv8>>, uf: seq<seq<Site>>)
    requires n > 0 && Square(n, grid) && Square(n, uf) && Singletons(n, grid, uf) && Rooted(n, grid, uf)
    ensures Spans(n, grid, uf) ==> exists c :: 0 <= c < n && ReachesRow(n, grid, Site(0, c), n - 1)
  {
    if Spans(n, grid, uf) {
      var c1 :| 0 <= c1 < n && OpenIn(grid, Site(0, c1)) && Touches(n, uf, Find(uf, Site(0, c1)), n - 1);
      var c2 :| 0 <= c2 < n && Find(uf, Site(n - 1, c2)) == Find(uf, Site(0, c1));
      SameClassConnected(n, grid, uf, Site(0, c1), Site(n - 1, c2));
      assert ReachesRow(n, grid, Site(0, c1), n - 1);
    }
  }

  lemma ReachSpans(n: int, grid: seq<seq<bv8>>, uf: seq<seq<Site>>)
    requires n > 0 && Square(n, grid) && Square(n, uf) && Closed(n, grid, uf)
    ensures (exists c :: 0 <= c < n && ReachesRow(n, grid, Site(0, c), n - 1)) ==> Spans(n, grid, uf)
  {
    if exists c :: 0 <= c < n && ReachesRow(n, grid, Site(0, c), n - 1) {
      var c1 :| 0 <= c1 < n && ReachesRow(n, grid, Site(0, c1), n - 1);
      var c2 :| 0 <= c2 < n && Connected(n, grid, Site(0, c1), Site(n - 1, c2));
      ConnectedSameClass(n, grid, uf, Site(0, c1), Site(n - 1, c2));
      assert Touches(n, uf, Find(uf, Site(0, c1)), n - 1);
    }
  }

  // ---------------------------------------------------------------------
  // open

  /** The state of open() while the neighbours of the new site `i` are
      joined: `topped` and `bottomed` hold what the class of `i` reaches,
      the representative of that class carries no more than they do, and
      `changed` records whether a union happened. */
  ghost predicate Joining(n: int, grid: seq<seq<bv8>>, uf: seq<seq<Site>>, i: Site,
                          topped: bv8, bottomed: bv8, changed: bool, percolates: bool)
  {
    && Core(n, grid, uf) && InGrid(n, i) && OpenIn(grid, i)
    && ClosedExcept(n, grid, uf, i)
    && FlaggedExcept(n, grid, uf, Find(uf, i))
    && Gathered(n, grid, uf, Find(uf, i), topped, bottomed, changed)
    && (percolates || (topped != 0 && bottomed != 0) <==> Spans(n, grid, uf))
  }

  /** What the flags gathered for the class of `root` say: whether it
      reaches the top and the bottom row, at least what the representative's
      own bits say, and exactly that until a union happened. */
  ghost predicate Gathered(n: int, grid: seq<seq<bv8>>, uf: seq<seq<Site>>, root: Site,
                           topped: bv8, bottomed: bv8, changed: bool)
    requires Square(n, grid) && Square(n, uf) && InGrid(n, root)
  {
    && (topped == 0 || topped == TOPPED) && (bottomed == 0 || bottomed == BOTTOMED)
    && (Touches(n, uf, root, 0) <==> topped != 0)
    && (Touches(n, uf, root, n - 1) <==> bottomed != 0)
    && (At(grid, root) & TOPPED != 0 ==> topped != 0)
    && (At(grid, root) & BOTTOMED != 0 ==> bottomed != 0)
    && (changed || (At(grid, root) & TOPPED == topped && At(grid, root) & BOTTOMED == bottomed))
  }

  /** The neighbours open() looks at, in its order: up, down, left, right.
      The source's guards (`up >= 0`, `down < n*n`, `col > 1`, `col < n`)
      each say that the neighbour lies in the grid. */
  function Neighbours(s: Site): (nbs: seq<Site>)
    ensures |nbs| == 4 && forall t {:trigger Adjacent(s, t)} :: Adjacent(s, t) <==> t in nbs
  {
    [Up(s), Down(s), Left(s), Right(s)]
  }

  /** open: rejects a site outside the grid; an open site is left as it is;
      otherwise the site opens, joins its open neighbours, and the class's
      representative collects their flags. */
  method Open(p: System, row: int, col: int) returns (r: Result<System, Error>)
    requires Valid(p)
    ensures r.Err? <==> !(1 <= row <= p.n && 1 <= col <= p.n)
    ensures r.Err? ==> r.error == InvalidSite
    ensures r.Ok? ==> && Valid(r.value) && r.value.n == p.n
                      && OpenSites(p.n, r.value.grid) == OpenSites(p.n, p.grid) + {Site(row - 1, col - 1)}
                      && (Site(row - 1, col - 1) in OpenSites(p.n, p.grid) ==> r.value == p)
                      && (p.percolates ==> r.value.percolates)
  {
    if !ValidSite(p.n, row, col) {
      return Err(InvalidSite);
    }
    var i := Site(row - 1, col - 1);
    if OpenIn(p.grid, i) {
      assert i in OpenSites(p.n, p.grid);
      return Ok(p);
    }
    var q := OpenClosed(p, i);
    r := Ok(q);
  }

  /** The body of open() for a closed site `i`. */
  method OpenClosed(p: System, i: Site) returns (q: System)
    requires Valid(p) && InGrid(p.n, i) && !OpenIn(p.grid, i)
    ensures Valid(q) && q.n == p.n
    ensures OpenSites(p.n, q.grid) == OpenSites(p.n, p.grid) + {i}
    ensures p.percolates ==> q.percolates
  {
    var n := p.n;
    var grid := Put(n, p.grid, i, At(p.grid, i) | ACTIVE);
    Activate(p, i, grid);
    var uf, topped, bottomed, changed := JoinNeighbours(n, grid, p.uf, i, At(grid, i) & TOPPED, At(grid, i) & BOTTOMED, p.percolates);
    q := WriteBack(p, i, grid, uf, topped, bottomed, changed);
  }

  /** The end of open(): if a union happened, the gathered flags are written
      to the representative; the system percolates once a class reaches both
      rows; one more site is open. */
  method WriteBack(p: System, i: Site, grid: seq<seq<bv8>>, uf: seq<seq<Site>>,
                   topped: bv8, bottomed: bv8, changed: bool) returns (q: System)
    requires Valid(p) && InGrid(p.n, i) && !OpenIn(p.grid, i)
    requires grid == Put(p.n, p.grid, i, At(p.grid, i) | ACTIVE)
    requires Joining(p.n, grid, uf, i, topped, bottomed, changed, p.percolates)
    requires forall nb {:trigger Adjacent(i, nb)} :: InGrid(p.n, nb) && Adjacent(i, nb) && OpenIn(grid, nb) ==> Find(uf, nb) == Find(uf, i)
    ensures Valid(q) && q.n == p.n
    ensures OpenSites(p.n, q.grid) == OpenSites(p.n, p.grid) + {i}
    ensures q.percolates <==> p.percolates || (topped != 0 && bottomed != 0)
  {
    var n := p.n;
    var grid' := grid;
    if changed {
      var root := Find(uf, i);
      grid' := Put(n, grid, root, At(grid, root) | bottomed | topped);
    }
    q := System(n, grid', uf, p.openCount + 1, p.percolates || (bottomed != 0 && topped != 0));
    Finish(p, i, grid, uf, topped, bottomed, changed, q);
  }

  /** The four neighbour checks of open(): each open neighbour is joined. */
  method JoinNeighbours(n: int, grid: seq<seq<bv8>>, uf0: seq<seq<Site>>, i: Site,
                        topped0: bv8, bottomed0: bv8, ghost percolates: bool)
    returns (uf: seq<seq<Site>>, topped: bv8, bottomed: bv8, changed: bool)
    requires Joining(n, grid, uf0, i, topped0, bottomed0, false, percolates)
    ensures Joining(n, grid, uf, i, topped, bottomed, changed, percolates)
    ensures forall nb {:trigger Adjacent(i, nb)} :: InGrid(n, nb) && Adjacent(i, nb) && OpenIn(grid, nb) ==> Find(uf, nb) == Find(uf, i)
  {
    uf, topped, bottomed, changed := uf0, topped0, bottomed0, false;
    var nbs := Neighbours(i);
    var k := 0;
    while k < 4
      invariant 0 <= k <= 4
      invariant Joining(n, grid, uf, i, topped, bottomed, changed, percolates)
      invariant forall j :: 0 <= j < k && InGrid(n, nbs[j]) && OpenIn(grid, nbs[j]) ==> Find(uf, nbs[j]) == Find(uf, i)
    {
      var nb := nbs[k];
      if InGrid(n, nb) && OpenIn(grid, nb) {
        uf, topped, bottomed := Join(n, grid, uf, i, nb, topped, bottomed, changed, percolates);
        changed := true;
      }
      k := k + 1;
    }
  }

  /** One neighbour of open(): its representative's flags are collected and
      the two classes are united. */
  method Join(n: int, grid: seq<seq<bv8>>, uf: seq<seq<Site>>, i: Site, nb: Site,
              topped: bv8, bottomed: bv8, changed: bool, ghost percolates: bool)
    returns (uf': seq<seq<Site>>, topped': bv8, bottomed': bv8)
    requires Joining(n, grid, uf, i, topped, bottomed, changed, percolates)
    requires InGrid(n, nb) && Adjacent(i, nb) && OpenIn(grid, nb)
    ensures Joining(n, grid, uf', i, topped', bottomed', true, percolates)
    ensures Find(uf', nb) == Find(uf', i)
    ensures forall s {:trigger Find(uf', s)} :: InGrid(n, s) && Find(uf, s) == Find(uf, i) ==> Find(uf', s) == Find(uf', i)
  {
    var root := Find(uf, nb);
    topped' := topped | (At(grid, root) & TOPPED);
    bottomed' := bottomed | (At(grid, root) & BOTTOMED);
    var ra := Find(uf, i);
    var towardIndex: bool :| true;
    var keep := if towardIndex then ra else root;
    uf' := Union(n, uf, ra, root, keep);
    UnionJoining(n, grid, uf, i, nb, topped, bottomed, changed, percolates, keep, uf');
  }

  // ---------------------------------------------------------------------
  // Proof of open: setting the ACTIVE bit

  /** Just after the ACTIVE bit of the closed site `i` is set. */
  lemma Activate(p: System, i: Site, grid: seq<seq<bv8>>)
    requires Valid(p) && InGrid(p.n, i) && !OpenIn(p.grid, i)
    requires grid == Put(p.n, p.grid, i, At(p.grid, i) | ACTIVE)
    ensures Joining(p.n, grid, p.uf, i, At(grid, i) & TOPPED, At(grid, i) & BOTTOMED, false, p.percolates)
  {
    var n, uf := p.n, p.uf;
    ActivateClasses(n, p.grid, grid, uf, i);
    ActivateRooted(n, p.grid, grid, uf, i);
    ActivateFlags(n, p.grid, grid, uf, i);
    ActivateSpans(n, p.grid, grid, uf, i);
  }

  lemma ActivateClasses(n: int, grid0: seq<seq<bv8>>, grid: seq<seq<bv8>>, uf: seq<seq<Site>>, i: Site)
    requires Square(n, grid0) && Square(n, uf) && Singletons(n, grid0, uf) && Closed(n, grid0, uf)
    requires InGrid(n, i) && !OpenIn(grid0, i) && grid == Put(n, grid0, i, At(grid0, i) | ACTIVE)
    ensures Square(n, grid) && OpenIn(grid, i) && Find(uf, i) == i
    ensures Singletons(n, grid, uf) && ClosedExcept(n, grid, uf, i)
  {
    assert Find(uf, i) == i;
  }

  lemma ActivateRooted(n: int, grid0: seq<seq<bv8>>, grid: seq<seq<bv8>>, uf: seq<seq<Site>>, i: Site)
    requires Square(n, grid0) && Square(n, uf) && Rooted(n, grid0, uf)
    requires InGrid(n, i) && grid == Put(n, grid0, i, At(grid0, i) | ACTIVE) && Find(uf, i) == i
    ensures Square(n, grid) && Rooted(n, grid, uf)
  {
    forall s | InGrid(n, s) && OpenIn(grid, s)
      ensures Connected(n, grid, s, Find(uf, s))
    {
      if s == i {
        ConnectedAdjacent(n, grid, i, i);
      } else {
        ConnectedGrow(n, grid0, grid, s, Find(uf, s));
      }
    }
  }

  /** The new site's class is itself alone, so the flags it starts with are
      its own; every other representative keeps its bits. */
  lemma ActivateFlags(n: int, grid0: seq<seq<bv8>>, grid: seq<seq<bv8>>, uf: seq<seq<Site>>, i: Site)
    requires Square(n, grid0) && Square(n, uf) && Singletons(n, grid0, uf)
    requires FlaggedExcept(n, grid0, uf, Site(-1, -1))
    requires InGrid(n, i) && !OpenIn(grid0, i) && grid == Put(n, grid0, i, At(grid0, i) | ACTIVE)
    ensures Square(n, grid) && Find(uf, i) == i && FlaggedExcept(n, grid, uf, i)
    ensures Gathered(n, grid, uf, i, At(grid, i) & TOPPED, At(grid, i) & BOTTOMED, false)
  {
    assert Find(uf, i) == i;
    forall s | InGrid(n, s) && Find(uf, s) == s && s != i
      ensures FlagsAt(n, grid, uf, s)
    {
      assert FlagsAt(n, grid0, uf, s);
    }
    assert FlagsAt(n, grid0, uf, i);
  }

  lemma ActivateSpans(n: int, grid0: seq<seq<bv8>>, grid: seq<seq<bv8>>, uf: seq<seq<Site>>, i: Site)
    requires n > 0 && Square(n, grid0) && Square(n, uf) && Singletons(n, grid0, uf)
    requires InGrid(n, i) && !OpenIn(grid0, i) && grid == Put(n, grid0, i, At(grid0, i) | ACTIVE)
    ensures Square(n, grid)
    ensures Spans(n, grid, uf) <==> Spans(n, grid0, uf) || (Touches(n, uf, i, 0) && Touches(n, uf, i, n - 1))
  {
    if Spans(n, grid, uf) && !Spans(n, grid0, uf) {
      var c1 :| 0 <= c1 < n && OpenIn(grid, Site(0, c1)) && Touches(n, uf, Find(uf, Site(0, c1)), n - 1);
      assert Site(0, c1) == i;
      assert Touches(n, uf, i, 0);
    }
    if Touches(n, uf, i, 0) && Touches(n, uf, i, n - 1) {
      var c1 :| 0 <= c1 < n && Find(uf, Site(0, c1)) == i;
      assert Site(0, c1) == i;
      assert Spans(n, grid, uf);
    }
    if Spans(n, grid0, uf) {
      var c1 :| 0 <= c1 < n && OpenIn(grid0, Site(0, c1)) && Touches(n, uf, Find(uf, Site(0, c1)), n - 1);
      assert OpenIn(grid, Site(0, c1));
    }
  }

  // ---------------------------------------------------------------------
  // Proof of open: one union

  /** A union of the class of `i` with that of its open neighbour `nb`
      keeps the joining state, and the flags gathered so far are those of
      the united class. */
  lemma UnionJoining(n: int, grid: seq<seq<bv8>>, uf: seq<seq<Site>>, i: Site, nb: Site,
                     topped: bv8, bottomed: bv8, changed: bool, percolates: bool,
                     keep: Site, u: seq<seq<Site>>)
    requires Joining(n, grid, uf, i, topped, bottomed, changed, percolates)
    requires InGrid(n, nb) && Adjacent(i, nb) && OpenIn(grid, nb)
    requires keep == Find(uf, i) || keep == Find(uf, nb)
    requires u == Union(n, uf, Find(uf, i), Find(uf, nb), keep)
    ensures Joining(n, grid, u, i, topped | (At(grid, Find(uf, nb)) & TOPPED),
                    bottomed | (At(grid, Find(uf, nb)) & BOTTOMED), true, percolates)
    ensures Find(u, nb) == Find(u, i)
  {
    var ra, rb := Find(uf, i), Find(uf, nb);
    UnionCore(n, grid, uf, i, nb, keep, u);
    UnionFlagged(n, grid, uf, ra, rb, keep);
    UnionGathered(n, grid, uf, ra, rb, keep, topped, bottomed, changed);
    UnionSpans(n, grid, uf, ra, rb, keep);
  }

  /** The partition, the singleton classes, the connections to the
      representatives and the closure away from `i` survive a union of
      adjacent open sites. */
  lemma UnionCore(n: int, grid: seq<seq<bv8>>, uf: seq<seq<Site>>, i: Site, nb: Site,
                  keep: Site, u: seq<seq<Site>>)
    requires Core(n, grid, uf) && ClosedExcept(n, grid, uf, i)
    requires InGrid(n, i) && InGrid(n, nb) && Adjacent(i, nb) && OpenIn(grid, i) && OpenIn(grid, nb)
    requires keep == Find(uf, i) || keep == Find(uf, nb)
    requires u == Union(n, uf, Find(uf, i), Find(uf, nb), keep)
    ensures Core(n, grid, u) && ClosedExcept(n, grid, u, i)
  {
    var ra, rb := Find(uf, i), Find(uf, nb);
    ConnectedSymmetric(n, grid, i, ra);
    ConnectedAdjacent(n, grid, i, nb);
    ConnectedTransitive(n, grid, ra, i, nb);
    ConnectedTransitive(n, grid, ra, nb, rb);
    ConnectedSymmetric(n, grid, ra, rb);
    UnionPartition(n, uf, ra, rb, keep);
    UnionSingletons(n, grid, uf, ra, rb, keep);
    UnionRooted(n, grid, uf, ra, rb, keep);
    UnionClosedExcept(n, grid, uf, ra, rb, keep, i);
  }

  lemma UnionPartition(n: int, uf: seq<seq<Site>>, ra: Site, rb: Site, keep: Site)
    requires Partition(n, uf) && InGrid(n, ra) && InGrid(n, rb) && Find(uf, ra) == ra && Find(uf, rb) == rb
    requires keep == ra || keep == rb
    ensures Partition(n, Union(n, uf, ra, rb, keep))
  {
    var u := Union(n, uf, ra, rb, keep);
    forall s | InGrid(n, s)
      ensures InGrid(n, Find(u, s)) && Find(u, Find(u, s)) == Find(u, s)
    {
      var x := Find(uf, s);
      assert Find(uf, x) == x;
    }
  }

  lemma UnionSingletons(n: int, grid: seq<seq<bv8>>, uf: seq<seq<Site>>, ra: Site, rb: Site, keep: Site)
    requires Square(n, grid) && Square(n, uf) && Singletons(n, grid, uf)
    requires InGrid(n, ra) && InGrid(n, rb) && OpenIn(grid, ra) && OpenIn(grid, rb) && (keep == ra || keep == rb)
    ensures Singletons(n, grid, Union(n, uf, ra, rb, keep))
  {
  }

  lemma UnionRooted(n: int, grid: seq<seq<bv8>>, uf: seq<seq<Site>>, ra: Site, rb: Site, keep: Site)
    requires Square(n, grid) && Square(n, uf) && Rooted(n, grid, uf)
    requires Connected(n, grid, ra, rb) && Connected(n, grid, rb, ra) && (keep == ra || keep == rb)
    ensures Rooted(n, grid, Union(n, uf, ra, rb, keep))
  {
    var u := Union(n, uf, ra, rb, keep);
    forall s | InGrid(n, s) && OpenIn(grid, s)
      ensures Connected(n, grid, s, Find(u, s))
    {
      var x := Find(uf, s);
      assert Connected(n, grid, s, x);
      if x == ra && keep == rb {
        ConnectedTransitive(n, grid, s, ra, rb);
      } else if x == rb && keep == ra {
        ConnectedTransitive(n, grid, s, rb, ra);
      }
    }
  }

  lemma UnionClosedExcept(n: int, grid: seq<seq<bv8>>, uf: seq<seq<Site>>, ra: Site, rb: Site, keep: Site, x: Site)
    requires Square(n, grid) && Square(n, uf) && ClosedExcept(n, grid, uf, x)
    ensures ClosedExcept(n, grid, Union(n, uf, ra, rb, keep), x)
  {
    var u := Union(n, uf, ra, rb, keep);
    forall s, t | && InGrid(n, s) && InGrid(n, t) && Adjacent(s, t) && s != x && t != x
                  && OpenIn(grid, s) && OpenIn(grid, t)
      ensures Find(u, s) == Find(u, t)
    {
      assert Find(uf, s) == Find(uf, t);
    }
  }

  /** Every representative other than the kept one was a representative
      before and reaches the same rows. */
  lemma UnionFlagged(n: int, grid: seq<seq<bv8>>, uf: seq<seq<Site>>, ra: Site, rb: Site, keep: Site)
    requires Square(n, grid) && Square(n, uf) && FlaggedExcept(n, grid, uf, ra)
    requires InGrid(n, ra) && InGrid(n, rb) && Find(uf, ra) == ra && Find(uf, rb) == rb && (keep == ra || keep == rb)
    ensures FlaggedExcept(n, grid, Union(n, uf, ra, rb, keep), keep)
  {
    var u := Union(n, uf, ra, rb, keep);
    forall s | InGrid(n, s) && Find(u, s) == s && s != keep
      ensures FlagsAt(n, grid, u, s)
    {
      assert Find(uf, s) == s && s != ra && s != rb;
      assert FlagsAt(n, grid, uf, s);
      UnionTouchesOther(n, uf, ra, rb, keep, s, 0);
      UnionTouchesOther(n, uf, ra, rb, keep, s, n - 1);
    }
  }

  /** Or-ing in the flags of the neighbour's representative gives the flags
      of the united class. */
  lemma UnionGathered(n: int, grid: seq<seq<bv8>>, uf: seq<seq<Site>>, ra: Site, rb: Site, keep: Site,
                      topped: bv8, bottomed: bv8, changed: bool)
    requires Square(n, grid) && Square(n, uf) && InGrid(n, ra) && InGrid(n, rb) && (keep == ra || keep == rb)
    requires FlaggedExcept(n, grid, uf, ra) && Find(uf, rb) == rb
    requires Gathered(n, grid, uf, ra, topped, bottomed, changed)
    ensures Gathered(n, grid, Union(n, uf, ra, rb, keep), keep,
                     topped | (At(grid, rb) & TOPPED), bottomed | (At(grid, rb) & BOTTOMED), true)
  {
    UnionTouchesKeep(n, uf, ra, rb, keep, 0);
    UnionTouchesKeep(n, uf, ra, rb, keep, n - 1);
    if rb != ra {
      assert FlagsAt(n, grid, uf, rb);
    }
  }

  lemma UnionTouchesOther(n: int, uf: seq<seq<Site>>, ra: Site, rb: Site, keep: Site, root: Site, row: int)
    requires Square(n, uf) && 0 <= row < n && root != ra && root != rb && (keep == ra || keep == rb)
    ensures Touches(n, Union(n, uf, ra, rb, keep), root, row) <==> Touches(n, uf, root, row)
  {
    var u := Union(n, uf, ra, rb, keep);
    if Touches(n, uf, root, row) {
      var c :| 0 <= c < n && Find(uf, Site(row, c)) == root;
      assert Find(u, Site(row, c)) == root;
    }
    if Touches(n, u, root, row) {
      var c :| 0 <= c < n && Find(u, Site(row, c)) == root;
      assert Find(uf, Site(row, c)) == root;
    }
  }

  lemma UnionTouchesKeep(n: int, uf: seq<seq<Site>>, ra: Site, rb: Site, keep: Site, row: int)
    requires Square(n, uf) && 0 <= row < n && (keep == ra || keep == rb)
    ensures Touches(n, Union(n, uf, ra, rb, keep), keep, row)
            <==> Touches(n, uf, ra, row) || Touches(n, uf, rb, row)
  {
    var u := Union(n, uf, ra, rb, keep);
    if Touches(n, u, keep, row) {
      var c :| 0 <= c < n && Find(u, Site(row, c)) == keep;
      assert Find(uf, Site(row, c)) == ra || Find(uf, Site(row, c)) == rb;
    }
    if Touches(n, uf, ra, row) {
      var c :| 0 <= c < n && Find(uf, Site(row, c)) == ra;
      assert Find(u, Site(row, c)) == keep;
    }
    if Touches(n, uf, rb, row) {
      var c :| 0 <= c < n && Find(uf, Site(row, c)) == rb;
      assert Find(u, Site(row, c)) == keep;
    }
  }

  /** A union makes the grid span exactly when it did before or the union
      joins a class reaching the top with one reaching the bottom. */
  lemma UnionSpans(n: int, grid: seq<seq<bv8>>, uf: seq<seq<Site>>, ra: Site, rb: Site, keep: Site)
    requires n > 0 && Square(n, grid) && Square(n, uf) && Singletons(n, grid, uf)
    requires InGrid(n, ra) && InGrid(n, rb) && OpenIn(grid, ra) && OpenIn(grid, rb) && (keep == ra || keep == rb)
    ensures Spans(n, grid, Union(n, uf, ra, rb, keep)) <==>
              || Spans(n, grid, uf)
              || (Touches(n, uf, ra, 0) && Touches(n, uf, rb, n - 1))
              || (Touches(n, uf, rb, 0) && Touches(n, uf, ra, n - 1))
    ensures Touches(n, uf, rb, 0) && Touches(n, uf, rb, n - 1) ==> Spans(n, grid, uf)
  {
    UnionSpansOnly(n, grid, uf, ra, rb, keep);
    SpansUnion(n, grid, uf, ra, rb, keep);
    SpansAcross(n, grid, uf, ra, rb, keep);
    SpansAcross(n, grid, uf, rb, ra, keep);
    TouchesBoth(n, grid, uf, rb);
  }

  lemma UnionSpansOnly(n: int, grid: seq<seq<bv8>>, uf: seq<seq<Site>>, ra: Site, rb: Site, keep: Site)
    requires n > 0 && Square(n, grid) && Square(n, uf) && (keep == ra || keep == rb)
    ensures Spans(n, grid, Union(n, uf, ra, rb, keep)) ==>
              || Spans(n, grid, uf)
              || (Touches(n, uf, ra, 0) && Touches(n, uf, rb, n - 1))
              || (Touches(n, uf, rb, 0) && Touches(n, uf, ra, n - 1))
  {
    var u := Union(n, uf, ra, rb, keep);
    if Spans(n, grid, u) {
      var c1 :| 0 <= c1 < n && OpenIn(grid, Site(0, c1)) && Touches(n, u, Find(u, Site(0, c1)), n - 1);
      var c2 :| 0 <= c2 < n && Find(u, Site(n - 1, c2)) == Find(u, Site(0, c1));
      var x, y := Find(uf, Site(0, c1)), Find(uf, Site(n - 1, c2));
      if x == y {
        assert Spans(n, grid, uf);
      } else {
        assert (x == ra || x == rb) && (y == ra || y == rb);
      }
    }
  }

  lemma SpansUnion(n: int, grid: seq<seq<bv8>>, uf: seq<seq<Site>>, ra: Site, rb: Site, keep: Site)
    requires n > 0 && Square(n, grid) && Square(n, uf) && (keep == ra || keep == rb)
    ensures Spans(n, grid, uf) ==> Spans(n, grid, Union(n, uf, ra, rb, keep))
  {
    var u := Union(n, uf, ra, rb, keep);
    if Spans(n, grid, uf) {
      var c1 :| 0 <= c1 < n && OpenIn(grid, Site(0, c1)) && Touches(n, uf, Find(uf, Site(0, c1)), n - 1);
      var c2 :| 0 <= c2 < n && Find(uf, Site(n - 1, c2)) == Find(uf, Site(0, c1));
      assert Find(u, Site(0, c1)) == Find(u, Site(n - 1, c2));
    }
  }

  /** A class holding a top-row site has an open top-row site. */
  lemma TouchesBoth(n: int, grid: seq<seq<bv8>>, uf: seq<seq<Site>>, r: Site)
    requires n > 0 && Square(n, grid) && Square(n, uf) && Singletons(n, grid, uf) && InGrid(n, r) && OpenIn(grid, r)
    ensures Touches(n, uf, r, 0) && Touches(n, uf, r, n - 1) ==> Spans(n, grid, uf)
  {
    if Touches(n, uf, r, 0) && Touches(n, uf, r, n - 1) {
      var c1 :| 0 <= c1 < n && Find(uf, Site(0, c1)) == r;
      assert OpenIn(grid, Site(0, c1));
    }
  }

  lemma SpansAcross(n: int, grid: seq<seq<bv8>>, uf: seq<seq<Site>>, ra: Site, rb: Site, keep: Site)
    requires n > 0 && Square(n, grid) && Square(n, uf) && Singletons(n, grid, uf)
    requires InGrid(n, ra) && OpenIn(grid, ra) && (keep == ra || keep == rb)
    ensures Touches(n, uf, ra, 0) && Touches(n, uf, rb, n - 1) ==>
              Spans(n, grid, Union(n, uf, ra, rb, keep)) && Spans(n, grid, Union(n, uf, rb, ra, keep))
  {
    if Touches(n, uf, ra, 0) && Touches(n, uf, rb, n - 1) {
      var c1 :| 0 <= c1 < n && Find(uf, Site(0, c1)) == ra;
      var c2 :| 0 <= c2 < n && Find(uf, Site(n - 1, c2)) == rb;
      assert OpenIn(grid, Site(0, c1));
      var u := Union(n, uf, ra, rb, keep);
      assert Find(u, Site(0, c1)) == Find(u, Site(n - 1, c2));
      var v := Union(n, uf, rb, ra, keep);
      assert Find(v, Site(0, c1)) == Find(v, Site(n - 1, c2));
    }
  }

  // ---------------------------------------------------------------------
  // Proof of open: writing the flags

  /** Both grids have the same open sites. */
  ghost predicate SameOpen(n: int, grid: seq<seq<bv8>>, grid': seq<seq<bv8>>)
    requires Square(n, grid) && Square(n, grid')
  {
    forall s {:trigger OpenIn(grid', s)} :: InGrid(n, s) ==> (OpenIn(grid', s) <==> OpenIn(grid, s))
  }

  /** The end of open(): with every open neighbour joined, the flags written
      to the representative and the percolation flag restore the invariant. */
  lemma Finish(p: System, i: Site, grid: seq<seq<bv8>>, uf: seq<seq<Site>>,
               topped: bv8, bottomed: bv8, changed: bool, q: System)
    requires Valid(p) && InGrid(p.n, i) && !OpenIn(p.grid, i)
    requires grid == Put(p.n, p.grid, i, At(p.grid, i) | ACTIVE)
    requires Joining(p.n, grid, uf, i, topped, bottomed, changed, p.percolates)
    requires forall nb {:trigger Adjacent(i, nb)} :: InGrid(p.n, nb) && Adjacent(i, nb) && OpenIn(grid, nb) ==> Find(uf, nb) == Find(uf, i)
    requires q == System(p.n, if changed then Put(p.n, grid, Find(uf, i), At(grid, Find(uf, i)) | bottomed | topped) else grid,
                         uf, p.openCount + 1, p.percolates || (bottomed != 0 && topped != 0))
    ensures Valid(q) && OpenSites(p.n, q.grid) == OpenSites(p.n, p.grid) + {i}
  {
    FinishClasses(p.n, grid, uf, i, topped, bottomed, changed, q.grid);
    FinishSites(p.n, p.grid, grid, q.grid, i);
  }

  /** The grid and partition part of the end of open(). */
  lemma FinishClasses(n: int, grid: seq<seq<bv8>>, uf: seq<seq<Site>>, i: Site,
                      topped: bv8, bottomed: bv8, changed: bool, grid': seq<seq<bv8>>)
    requires Core(n, grid, uf) && InGrid(n, i) && ClosedExcept(n, grid, uf, i)
    requires FlaggedExcept(n, grid, uf, Find(uf, i)) && Gathered(n, grid, uf, Find(uf, i), topped, bottomed, changed)
    requires forall nb {:trigger Adjacent(i, nb)} :: InGrid(n, nb) && Adjacent(i, nb) && OpenIn(grid, nb) ==> Find(uf, nb) == Find(uf, i)
    requires grid' == if changed then Put(n, grid, Find(uf, i), At(grid, Find(uf, i)) | bottomed | topped) else grid
    ensures Core(n, grid', uf) && SameOpen(n, grid, grid') && Closed(n, grid', uf)
    ensures FlaggedExcept(n, grid', uf, Site(-1, -1)) && (Spans(n, grid', uf) <==> Spans(n, grid, uf))
  {
    WriteFlags(n, grid, uf, Find(uf, i), topped, bottomed, changed, grid');
    SameOpenCore(n, grid, grid', uf);
    FinishClosed(n, grid, grid', uf, i);
    SameOpenSpans(n, grid, grid', uf);
  }

  /** Writing the gathered bits to the representative: no site changes its
      open state, and the representative's flags become the gathered ones. */
  lemma WriteFlags(n: int, grid: seq<seq<bv8>>, uf: seq<seq<Site>>, root: Site,
                   topped: bv8, bottomed: bv8, changed: bool, grid': seq<seq<bv8>>)
    requires Square(n, grid) && Square(n, uf) && InGrid(n, root)
    requires FlaggedExcept(n, grid, uf, root) && Gathered(n, grid, uf, root, topped, bottomed, changed)
    requires grid' == if changed then Put(n, grid, root, At(grid, root) | bottomed | topped) else grid
    ensures Square(n, grid') && SameOpen(n, grid, grid') && FlaggedExcept(n, grid', uf, Site(-1, -1))
  {
    forall s | InGrid(n, s) && Find(uf, s) == s
      ensures FlagsAt(n, grid', uf, s)
    {
      if s != root {
        assert FlagsAt(n, grid, uf, s);
      }
    }
  }

  lemma FinishSites(n: int, grid0: seq<seq<bv8>>, grid: seq<seq<bv8>>, grid': seq<seq<bv8>>, i: Site)
    requires Square(n, grid0) && InGrid(n, i) && !OpenIn(grid0, i)
    requires grid == Put(n, grid0, i, At(grid0, i) | ACTIVE)
    requires Square(n, grid') && SameOpen(n, grid, grid')
    ensures OpenSites(n, grid') == OpenSites(n, grid0) + {i}
    ensures |OpenSites(n, grid')| == |OpenSites(n, grid0)| + 1
  {
    assert OpenSites(n, grid') == OpenSites(n, grid0) + {i};
  }

  lemma SameOpenCore(n: int, grid: seq<seq<bv8>>, grid': seq<seq<bv8>>, uf: seq<seq<Site>>)
    requires Core(n, grid, uf) && Square(n, grid') && SameOpen(n, grid, grid')
    ensures Core(n, grid', uf)
  {
    forall s | InGrid(n, s) && OpenIn(grid', s)
      ensures Connected(n, grid', s, Find(uf, s))
    {
      assert Connected(n, grid, s, Find(uf, s));
      ConnectedGrow(n, grid, grid', s, Find(uf, s));
    }
  }

  lemma FinishClosed(n: int, grid: seq<seq<bv8>>, grid': seq<seq<bv8>>, uf: seq<seq<Site>>, i: Site)
    requires Square(n, grid) && Square(n, grid') && Square(n, uf) && SameOpen(n, grid, grid')
    requires InGrid(n, i) && ClosedExcept(n, grid, uf, i)
    requires forall nb {:trigger Adjacent(i, nb)} :: InGrid(n, nb) && Adjacent(i, nb) && OpenIn(grid, nb) ==> Find(uf, nb) == Find(uf, i)
    ensures Closed(n, grid', uf)
  {
    forall s, t | InGrid(n, s) && InGrid(n, t) && Adjacent(s, t) && OpenIn(grid', s) && OpenIn(grid', t)
      ensures Find(uf, s) == Find(uf, t)
    {
      if s == i {
        assert Adjacent(i, t);
      } else if t == i {
        assert Adjacent(i, s);
      }
    }
  }

  lemma SameOpenSpans(n: int, grid: seq<seq<bv8>>, grid': seq<seq<bv8>>, uf: seq<seq<Site>>)
    requires n > 0 && Square(n, grid) && Square(n, grid') && Square(n, uf) && SameOpen(n, grid, grid')
    ensures Spans(n, grid', uf) <==> Spans(n, grid, uf)
  {
    if Spans(n, grid, uf) {
      var c1 :| 0 <= c1 < n && OpenIn(grid, Site(0, c1)) && Touches(n, uf, Find(uf, Site(0, c1)), n - 1);
      assert OpenIn(grid', Site(0, c1));
    }
  }
}

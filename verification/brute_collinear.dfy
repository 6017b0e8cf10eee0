/** Collinearity/src/BruteCollinearPoints.java: every quadruple of points, in
    index order, whose three slopes from the first point agree. */
module BruteCollinear {
  import opened Wrappers
  import opened CollinearPoints
  import opened JavaInt

  /** `max(a, b)`: `a` when it is strictly greater, else `b`. */
  function Max<P>(cmp: Compare<P>, a: P, b: P): P
  {
    if cmp(a, b) > 0 then a else b
  }

  /** `min(a, b)`: `a` when it is strictly smaller, else `b`. */
  function Min<P>(cmp: Compare<P>, a: P, b: P): P
  {
    if cmp(a, b) < 0 then a else b
  }

  /** Under a total order `max` and `min` are the greatest and least of
      the two. */
  lemma MaxMin<P(!new)>(cmp: Compare<P>, a: P, b: P)
    requires TotalOrder(cmp)
    ensures IsMax(cmp, Max(cmp, a, b), [a, b]) && IsMin(cmp, Min(cmp, a, b), [a, b])
  {
    assert cmp(a, a) == 0 && cmp(b, b) == 0;
  }

  /** `makeSegment`: the smaller of the two pairwise minima and the larger
      of the two pairwise maxima. */
  function MakeSegment<P>(cmp: Compare<P>, a: P, b: P, c: P, d: P): Segment<P>
  {
    Segment(Min(cmp, Min(cmp, a, b), Min(cmp, c, d)), Max(cmp, Max(cmp, a, b), Max(cmp, c, d)))
  }

  /** The segment runs from the least to the greatest of the four points. */
  lemma MakeSegmentBounds<P(!new)>(cmp: Compare<P>, a: P, b: P, c: P, d: P)
    requires TotalOrder(cmp)
    ensures IsMin(cmp, MakeSegment(cmp, a, b, c, d).p, [a, b, c, d])
    ensures IsMax(cmp, MakeSegment(cmp, a, b, c, d).q, [a, b, c, d])
  {
    var lo1, lo2 := Min(cmp, a, b), Min(cmp, c, d);
    var hi1, hi2 := Max(cmp, a, b), Max(cmp, c, d);
    MaxMin(cmp, a, b);
    MaxMin(cmp, c, d);
    MaxMin(cmp, lo1, lo2);
    MaxMin(cmp, hi1, hi2);
    var lo, hi := Min(cmp, lo1, lo2), Max(cmp, hi1, hi2);
    forall y | y in [a, b, c, d]
      ensures cmp(lo, y) <= 0 && cmp(hi, y) >= 0
    {
      if y in [a, b] {
        AtMostTrans(cmp, lo, lo1, y);
        AtMostTrans(cmp, y, hi1, hi);
      } else {
        AtMostTrans(cmp, lo, lo2, y);
        AtMostTrans(cmp, y, hi2, hi);
      }
    }
  }

  /** Two distinct points among the four give a segment between two
      different points, the smaller first. */
  lemma MakeSegmentProper<P(!new)>(cmp: Compare<P>, a: P, b: P, c: P, d: P)
    requires TotalOrder(cmp) && a != b
    ensures cmp(MakeSegment(cmp, a, b, c, d).p, MakeSegment(cmp, a, b, c, d).q) < 0
  {
    var s := MakeSegment(cmp, a, b, c, d);
    MakeSegmentBounds(cmp, a, b, c, d);
    assert cmp(s.p, a) <= 0 && cmp(s.p, b) <= 0 && cmp(s.q, a) >= 0 && cmp(s.q, b) >= 0;
    if cmp(a, b) < 0 {
      LessAtMost(cmp, a, b, s.q);
      AtMostLess(cmp, s.p, a, s.q);
    } else {
      LessAtMost(cmp, b, a, s.q);
      AtMostLess(cmp, s.p, b, s.q);
    }
  }

  /** The innermost loop: the first index from `p` on whose slope from
      point `i` is `ab`. */
  function Fourth<P>(slope: SlopeOf<P>, pts: seq<P>, i: nat, ab: real, p: nat): (r: Option<nat>)
    requires i < |pts| && p <= |pts|
    ensures r.Some? ==> p <= r.value < |pts|
    decreases |pts| - p
  {
    if p == |pts| then None
    else if slope(pts[i], pts[p]) == ab then Some(p)
    else Fourth(slope, pts, i, ab, p + 1)
  }

  /** The search finds the first index at or after `p` on the slope, and
      nothing when there is none. */
  lemma {:induction false} FourthMeaning<P>(slope: SlopeOf<P>, pts: seq<P>, i: nat, ab: real, p: nat)
    requires i < |pts| && p <= |pts|
    ensures var r := Fourth(slope, pts, i, ab, p);
            && (r.None? ==> forall q :: p <= q < |pts| ==> slope(pts[i], pts[q]) != ab)
            && (r.Some? ==> && p <= r.value < |pts| && slope(pts[i], pts[r.value]) == ab
                            && forall q :: p <= q < r.value ==> slope(pts[i], pts[q]) != ab)
    decreases |pts| - p
  {
    if p < |pts| && slope(pts[i], pts[p]) != ab {
      FourthMeaning(slope, pts, i, ab, p + 1);
    }
  }

  /** What the loops record for the triple `(i, j, k)`: nothing unless the
      slopes from `a` to `b` and to `c` agree, then the segment of the
      first later point `d` on the same slope, if any. */
  function Found<P>(cmp: Compare<P>, slope: SlopeOf<P>, pts: seq<P>, i: nat, j: nat, k: nat): Option<Segment<P>>
    requires i < j < k < |pts|
  {
    var ab := slope(pts[i], pts[j]);
    if ab != slope(pts[i], pts[k]) then None
    else match Fourth(slope, pts, i, ab, k + 1)
      case None => None
      case Some(p) => Some(MakeSegment(cmp, pts[i], pts[j], pts[k], pts[p]))
  }

  /** A triple records a segment exactly when its slopes from the first
      point agree and some later point lies on the same slope; the
      segment is that of the first such point. */
  lemma FoundMeaning<P>(cmp: Compare<P>, slope: SlopeOf<P>, pts: seq<P>, i: nat, j: nat, k: nat)
    requires i < j < k < |pts|
    ensures var r := Found(cmp, slope, pts, i, j, k);
            && (r.Some? <==> && slope(pts[i], pts[j]) == slope(pts[i], pts[k])
                             && exists p :: k < p < |pts| && slope(pts[i], pts[p]) == slope(pts[i], pts[j]))
            && (r.Some? ==> exists p :: && k < p < |pts| && slope(pts[i], pts[p]) == slope(pts[i], pts[j])
                                        && (forall q :: k < q < p ==> slope(pts[i], pts[q]) != slope(pts[i], pts[j]))
                                        && r.value == MakeSegment(cmp, pts[i], pts[j], pts[k], pts[p]))
  {
    FourthMeaning(slope, pts, i, slope(pts[i], pts[j]), k + 1);
  }

  /** The result of every triple, as the loops see it. */
  function Triples<P>(cmp: Compare<P>, slope: SlopeOf<P>, pts: seq<P>): (int, int, int) -> Option<Segment<P>>
  {
    (x, y, z) => if 0 <= x < y < z < |pts| then Found(cmp, slope, pts, x, y, z) else None
  }

  /** The `k` loop for fixed `i` and `j`, up to (not including) `k`: what
      each triple records, in order. */
  function Column<S>(t: (int, int, int) -> Option<S>, i: nat, j: nat, k: nat): seq<S>
    requires j < k
    decreases k
  {
    if k == j + 1 then []
    else
      var f := t(i, j, k - 1);
      Column(t, i, j, k - 1) + (if f.Some? then [f.value] else [])
  }

  /** The `j` loop for fixed `i`, up to (not including) `j`, over `n`
      points. */
  function Row<S>(t: (int, int, int) -> Option<S>, n: nat, i: nat, j: nat): seq<S>
    requires i < j <= n - 2
    decreases j
  {
    if j == i + 1 then []
    else Row(t, n, i, j - 1) + Column(t, i, j - 1, n - 1)
  }

  /** The `i` loop, up to (not including) `i`, over `n` points. */
  function Quadruples<S>(t: (int, int, int) -> Option<S>, n: nat, i: nat): seq<S>
    requires i <= n - 3
    decreases i
  {
    if i == 0 then []
    else Quadruples(t, n, i - 1) + Row(t, n, i - 1, n - 2)
  }

  /** The loops' listing with no bound on the buffer: nothing with fewer
      than four points, where the outer loop `i < n - 3` never starts. */
  function Segments<P>(cmp: Compare<P>, slope: SlopeOf<P>, pts: seq<P>): seq<Segment<P>>
  {
    if |pts| < 4 then [] else Quadruples(Triples(cmp, slope, pts), |pts|, |pts| - 3)
  }

  /** The constructor: validate, allocate `n * n` slots (a Java `int`
      product), then run the three loops, which throw on the first segment
      that does not fit. */
  function BruteCollinearPoints<P>(cmp: Compare<P>, slope: SlopeOf<P>, points: Option<seq<Option<P>>>)
    : (r: Result<seq<Segment<P>>, Failure>)
    ensures (r.Err? && r.error.Invalid?) <==> Validate(cmp, points).Err?
    ensures r.Err? && r.error.Invalid? ==> r.error.error == Validate(cmp, points).error
    ensures r == Err(NegativeArraySize) <==>
              Validate(cmp, points).Ok? && Int(|points.value| * |points.value|) < 0
    ensures r == Err(IndexOutOfBounds) <==>
              && Validate(cmp, points).Ok? && 0 <= Int(|points.value| * |points.value|)
              && Int(|points.value| * |points.value|) < |Segments(cmp, slope, Validate(cmp, points).value)|
    ensures r.Ok? ==> && r.value == Segments(cmp, slope, Validate(cmp, points).value)
                      && |r.value| <= |points.value| * |points.value|
  {
    match Validate(cmp, points)
    case Err(e) => Err(Invalid(e))
    case Ok(pts) =>
      var n := |pts|;
      var size := Int(n * n);
      IntSquare(n);
      if size < 0 then Err(NegativeArraySize)
      else
        var segs := Segments(cmp, slope, pts);
        if |segs| > size then Err(IndexOutOfBounds) else Ok(segs)
  }

  /** Lexicographic order on index triples: the order in which the three
      nested loops visit them. */
  predicate LexLess(a: (int, int, int), b: (int, int, int))
  {
    a.0 < b.0 || (a.0 == b.0 && (a.1 < b.1 || (a.1 == b.1 && a.2 < b.2)))
  }

  predicate Increasing(s: seq<(int, int, int)>)
  {
    forall a, b :: 0 <= a < b < |s| ==> LexLess(s[a], s[b])
  }

  lemma IncreasingAppend(s: seq<(int, int, int)>, u: seq<(int, int, int)>)
    requires Increasing(s) && Increasing(u)
    requires forall a, b :: 0 <= a < |s| && 0 <= b < |u| ==> LexLess(s[a], u[b])
    ensures Increasing(s + u)
  {
    var w := s + u;
    forall a, b | 0 <= a < b < |w|
      ensures LexLess(w[a], w[b])
    {
      if b < |s| {
        assert w[a] == s[a] && w[b] == s[b];
      } else if a >= |s| {
        assert w[a] == u[a - |s|] && w[b] == u[b - |s|];
      } else {
        assert w[a] == s[a] && w[b] == u[b - |s|];
      }
    }
  }

  /** The triples `(i, j, z)`, `j < z < k`, that record something, in the
      order the `k` loop visits them. */
  function ColumnTriples<S>(t: (int, int, int) -> Option<S>, i: nat, j: nat, k: nat): seq<(int, int, int)>
    requires j < k
    decreases k
  {
    if k == j + 1 then []
    else ColumnTriples(t, i, j, k - 1) + (if t(i, j, k - 1).Some? then [(i, j, k - 1)] else [])
  }

  /** The triples `(i, y, z)`, `i < y < j`, that record something, in the
      order the `j` and `k` loops visit them. */
  function RowTriples<S>(t: (int, int, int) -> Option<S>, n: nat, i: nat, j: nat): seq<(int, int, int)>
    requires i < j <= n - 2
    decreases j
  {
    if j == i + 1 then [] else RowTriples(t, n, i, j - 1) + ColumnTriples(t, i, j - 1, n - 1)
  }

  /** The triples `(x, y, z)`, `x < i`, that record something, in the order
      the three loops visit them. */
  function QuadrupleTriples<S>(t: (int, int, int) -> Option<S>, n: nat, i: nat): seq<(int, int, int)>
    requires i <= n - 3
    decreases i
  {
    if i == 0 then [] else QuadrupleTriples(t, n, i - 1) + RowTriples(t, n, i - 1, n - 2)
  }

  /** The column's triples are in loop order, all in range and recording,
      and include every recording triple of the column. */
  lemma {:induction false} ColumnTriplesExact<S>(t: (int, int, int) -> Option<S>, i: nat, j: nat, k: nat)
    requires j < k
    ensures var r := ColumnTriples(t, i, j, k);
            && Increasing(r)
            && (forall m :: 0 <= m < |r| ==> r[m].0 == i && r[m].1 == j && j < r[m].2 < k && t(r[m].0, r[m].1, r[m].2).Some?)
            && forall z :: j < z < k && t(i, j, z).Some? ==> (i, j, z) in r
    decreases k
  {
    if k > j + 1 {
      ColumnTriplesExact(t, i, j, k - 1);
      var before := ColumnTriples(t, i, j, k - 1);
      var last: seq<(int, int, int)> := if t(i, j, k - 1).Some? then [(i, j, k - 1)] else [];
      IncreasingAppend(before, last);
      assert ColumnTriples(t, i, j, k) == before + last;
    }
  }

  /** The row's triples are in loop order, all in range and recording, and
      include every recording triple of the row. */
  lemma {:induction false} RowTriplesExact<S>(t: (int, int, int) -> Option<S>, n: nat, i: nat, j: nat)
    requires i < j <= n - 2
    ensures var r := RowTriples(t, n, i, j);
            && Increasing(r)
            && (forall m :: 0 <= m < |r| ==>
                  r[m].0 == i && i < r[m].1 < j && r[m].1 < r[m].2 < n - 1 && t(r[m].0, r[m].1, r[m].2).Some?)
            && forall y, z :: i < y < j && y < z < n - 1 && t(i, y, z).Some? ==> (i, y, z) in r
    decreases j
  {
    if j > i + 1 {
      RowTriplesExact(t, n, i, j - 1);
      ColumnTriplesExact(t, i, j - 1, n - 1);
      var before := RowTriples(t, n, i, j - 1);
      var column := ColumnTriples(t, i, j - 1, n - 1);
      IncreasingAppend(before, column);
      var r := before + column;
      assert RowTriples(t, n, i, j) == r;
      forall y, z | i < y < j && y < z < n - 1 && t(i, y, z).Some?
        ensures (i, y, z) in r
      {
        if y < j - 1 {
          assert (i, y, z) in before;
        } else {
          assert (i, y, z) in column;
        }
      }
    }
  }

  /** `e` is a triple the loops before `i` visit and that records something. */
  predicate Recording<S>(t: (int, int, int) -> Option<S>, n: nat, i: nat, e: (int, int, int))
  {
    0 <= e.0 < i && e.0 < e.1 < e.2 < n - 1 && t(e.0, e.1, e.2).Some?
  }

  /** The loops' triples are all in range and recording. */
  lemma {:induction false} QuadrupleTriplesInRange<S>(t: (int, int, int) -> Option<S>, n: nat, i: nat)
    requires i <= n - 3
    ensures forall m :: 0 <= m < |QuadrupleTriples(t, n, i)| ==> Recording(t, n, i, QuadrupleTriples(t, n, i)[m])
    decreases i
  {
    if i > 0 {
      QuadrupleTriplesInRange(t, n, i - 1);
      RowTriplesExact(t, n, i - 1, n - 2);
      var before := QuadrupleTriples(t, n, i - 1);
      var row := RowTriples(t, n, i - 1, n - 2);
      var r := before + row;
      assert QuadrupleTriples(t, n, i) == r;
      forall m | 0 <= m < |r|
        ensures Recording(t, n, i, r[m])
      {
        if m < |before| {
          assert r[m] == before[m] && Recording(t, n, i - 1, before[m]);
        } else {
          assert r[m] == row[m - |before|];
        }
      }
    }
  }

  /** The loops' triples are listed in loop order. */
  lemma {:induction false} QuadrupleTriplesOrdered<S>(t: (int, int, int) -> Option<S>, n: nat, i: nat)
    requires i <= n - 3
    ensures Increasing(QuadrupleTriples(t, n, i))
    decreases i
  {
    if i > 0 {
      QuadrupleTriplesOrdered(t, n, i - 1);
      QuadrupleTriplesInRange(t, n, i - 1);
      RowTriplesExact(t, n, i - 1, n - 2);
      var before := QuadrupleTriples(t, n, i - 1);
      var row := RowTriples(t, n, i - 1, n - 2);
      forall a, b | 0 <= a < |before| && 0 <= b < |row|
        ensures LexLess(before[a], row[b])
      {
        assert Recording(t, n, i - 1, before[a]);
      }
      IncreasingAppend(before, row);
      assert QuadrupleTriples(t, n, i) == before + row;
    }
  }

  /** The loops' triples include every recording triple. */
  lemma {:induction false} QuadrupleTriplesComplete<S>(t: (int, int, int) -> Option<S>, n: nat, i: nat)
    requires i <= n - 3
    ensures forall x, y, z :: 0 <= x < i && x < y < z < n - 1 && t(x, y, z).Some? ==> (x, y, z) in QuadrupleTriples(t, n, i)
    decreases i
  {
    if i > 0 {
      QuadrupleTriplesComplete(t, n, i - 1);
      RowTriplesExact(t, n, i - 1, n - 2);
      var before := QuadrupleTriples(t, n, i - 1);
      var row := RowTriples(t, n, i - 1, n - 2);
      var r := before + row;
      assert QuadrupleTriples(t, n, i) == r;
      forall x, y, z | 0 <= x < i && x < y < z < n - 1 && t(x, y, z).Some?
        ensures (x, y, z) in r
      {
        if x < i - 1 {
          assert (x, y, z) in before;
        } else {
          assert (x, y, z) in row;
        }
      }
    }
  }

  /** `Column` lists, position by position, what the triples of
      `ColumnTriples` record. */
  lemma {:induction false} ColumnFollowsTriples<S>(t: (int, int, int) -> Option<S>, i: nat, j: nat, k: nat)
    requires j < k
    ensures var r := Column(t, i, j, k);
            var ix := ColumnTriples(t, i, j, k);
            |ix| == |r| && forall m :: 0 <= m < |r| ==> t(ix[m].0, ix[m].1, ix[m].2) == Some(r[m])
    decreases k
  {
    if k > j + 1 {
      ColumnFollowsTriples(t, i, j, k - 1);
    }
  }

  /** `Row` lists, position by position, what the triples of `RowTriples`
      record. */
  lemma {:induction false} RowFollowsTriples<S>(t: (int, int, int) -> Option<S>, n: nat, i: nat, j: nat)
    requires i < j <= n - 2
    ensures var r := Row(t, n, i, j);
            var ix := RowTriples(t, n, i, j);
            |ix| == |r| && forall m :: 0 <= m < |r| ==> t(ix[m].0, ix[m].1, ix[m].2) == Some(r[m])
    decreases j
  {
    if j > i + 1 {
      RowFollowsTriples(t, n, i, j - 1);
      ColumnFollowsTriples(t, i, j - 1, n - 1);
      var before, column := Row(t, n, i, j - 1), Column(t, i, j - 1, n - 1);
      var ib, ic := RowTriples(t, n, i, j - 1), ColumnTriples(t, i, j - 1, n - 1);
      var r, ix := before + column, ib + ic;
      assert Row(t, n, i, j) == r && RowTriples(t, n, i, j) == ix;
      forall m | 0 <= m < |r|
        ensures t(ix[m].0, ix[m].1, ix[m].2) == Some(r[m])
      {
        if m < |before| {
          assert r[m] == before[m] && ix[m] == ib[m];
        } else {
          assert r[m] == column[m - |before|] && ix[m] == ic[m - |before|];
        }
      }
    }
  }

  /** `Quadruples` lists, position by position, what the triples of
      `QuadrupleTriples` record. */
  lemma {:induction false} QuadruplesFollowTriples<S>(t: (int, int, int) -> Option<S>, n: nat, i: nat)
    requires i <= n - 3
    ensures var r := Quadruples(t, n, i);
            var ix := QuadrupleTriples(t, n, i);
            |ix| == |r| && forall m :: 0 <= m < |r| ==> t(ix[m].0, ix[m].1, ix[m].2) == Some(r[m])
    decreases i
  {
    if i > 0 {
      QuadruplesFollowTriples(t, n, i - 1);
      RowFollowsTriples(t, n, i - 1, n - 2);
      var before, row := Quadruples(t, n, i - 1), Row(t, n, i - 1, n - 2);
      var ib, ir := QuadrupleTriples(t, n, i - 1), RowTriples(t, n, i - 1, n - 2);
      var r, ix := before + row, ib + ir;
      assert Quadruples(t, n, i) == r && QuadrupleTriples(t, n, i) == ix;
      forall m | 0 <= m < |r|
        ensures t(ix[m].0, ix[m].1, ix[m].2) == Some(r[m])
      {
        if m < |before| {
          assert r[m] == before[m] && ix[m] == ib[m];
        } else {
          assert r[m] == row[m - |before|] && ix[m] == ir[m - |before|];
        }
      }
    }
  }

  /** The triples `i < j < k` (with `k < n - 1`, as the loop bounds have
      it) whose slopes agree and that find a fourth point, in the order the
      loops visit them. */
  function LoopOrder<P>(cmp: Compare<P>, slope: SlopeOf<P>, pts: seq<P>): seq<(int, int, int)>
    requires |pts| >= 4
  {
    QuadrupleTriples(Triples(cmp, slope, pts), |pts|, |pts| - 3)
  }

  /** The three loops over `pts` record one segment per triple that finds
      a fourth point, in loop order: the `m`-th segment is the one of the
      `m`-th such triple, and every such triple has its place. */
  lemma LoopsMeaning<P>(cmp: Compare<P>, slope: SlopeOf<P>, pts: seq<P>)
    requires |pts| >= 4
    ensures var segs := Segments(cmp, slope, pts);
            var ix := LoopOrder(cmp, slope, pts);
            && |ix| == |segs| && Increasing(ix)
            && (forall m :: 0 <= m < |segs| ==>
                  && 0 <= ix[m].0 < ix[m].1 < ix[m].2 < |pts| - 1
                  && Found(cmp, slope, pts, ix[m].0, ix[m].1, ix[m].2) == Some(segs[m]))
            && (forall x, y, z :: 0 <= x < y < z < |pts| - 1 && Found(cmp, slope, pts, x, y, z).Some? ==>
                  (x, y, z) in ix)
    ensures var segs := Segments(cmp, slope, pts);
            && (forall m :: 0 <= m < |segs| ==>
                  exists x, y, z :: 0 <= x < y < z < |pts| - 1 && Found(cmp, slope, pts, x, y, z) == Some(segs[m]))
            && (forall x, y, z :: 0 <= x < y < z < |pts| - 1 && Found(cmp, slope, pts, x, y, z).Some? ==>
                  Found(cmp, slope, pts, x, y, z).value in segs)
  {
    var t := Triples(cmp, slope, pts);
    var segs := Segments(cmp, slope, pts);
    var ix := LoopOrder(cmp, slope, pts);
    QuadruplesFollowTriples(t, |pts|, |pts| - 3);
    QuadrupleTriplesInRange(t, |pts|, |pts| - 3);
    QuadrupleTriplesOrdered(t, |pts|, |pts| - 3);
    QuadrupleTriplesComplete(t, |pts|, |pts| - 3);
    forall m | 0 <= m < |segs|
      ensures && 0 <= ix[m].0 < ix[m].1 < ix[m].2 < |pts| - 1
              && Found(cmp, slope, pts, ix[m].0, ix[m].1, ix[m].2) == Some(segs[m])
    {
      assert Recording(t, |pts|, |pts| - 3, ix[m]);
      assert t(ix[m].0, ix[m].1, ix[m].2) == Some(segs[m]);
    }
    forall x, y, z | 0 <= x < y < z < |pts| - 1 && Found(cmp, slope, pts, x, y, z).Some?
      ensures (x, y, z) in ix && Found(cmp, slope, pts, x, y, z).value in segs
    {
      assert t(x, y, z) == Found(cmp, slope, pts, x, y, z);
      var m :| 0 <= m < |ix| && ix[m] == (x, y, z);
      assert t(ix[m].0, ix[m].1, ix[m].2) == Some(segs[m]);
    }
    forall m | 0 <= m < |segs|
      ensures exists x, y, z :: 0 <= x < y < z < |pts| - 1 && Found(cmp, slope, pts, x, y, z) == Some(segs[m])
    {
      assert Found(cmp, slope, pts, ix[m].0, ix[m].1, ix[m].2) == Some(segs[m]);
    }
  }

  /** How many triples `(i, y, z)` with `i < y < j` and `y < z < n - 1`
      there are. */
  function RowCount(n: int, i: int, j: int): int
    requires i < j
    decreases j - i
  {
    if j == i + 1 then 0 else RowCount(n, i, j - 1) + (n - j - 1)
  }

  /** How many triples `(x, y, z)` with `x < i` and `x < y < z < n - 1`
      there are. */
  function QuadCount(n: int, i: int): int
    requires 0 <= i <= n - 3
    decreases i
  {
    if i == 0 then 0 else QuadCount(n, i - 1) + RowCount(n, i - 1, n - 2)
  }

  /** When every triple of a column records, the column lists all of them. */
  lemma {:induction false} FullColumn<S>(t: (int, int, int) -> Option<S>, i: nat, j: nat, k: nat)
    requires j < k && forall z :: j < z < k ==> t(i, j, z).Some?
    ensures |Column(t, i, j, k)| == k - j - 1
    decreases k
  {
    if k > j + 1 {
      FullColumn(t, i, j, k - 1);
    }
  }

  /** When every triple of a row records, the row lists all of them. */
  lemma {:induction false} FullRow<S>(t: (int, int, int) -> Option<S>, n: nat, i: nat, j: nat)
    requires i < j <= n - 2 && forall y, z :: i < y < j && y < z < n - 1 ==> t(i, y, z).Some?
    ensures |Row(t, n, i, j)| == RowCount(n, i, j)
    decreases j
  {
    if j > i + 1 {
      FullRow(t, n, i, j - 1);
      FullColumn(t, i, j - 1, n - 1);
    }
  }

  /** When every triple records, the loops list all of them. */
  lemma {:induction false} FullQuadruples<S>(t: (int, int, int) -> Option<S>, n: nat, i: nat)
    requires i <= n - 3 && forall x, y, z :: 0 <= x < i && x < y < z < n - 1 ==> t(x, y, z).Some?
    ensures |Quadruples(t, n, i)| == QuadCount(n, i)
    decreases i
  {
    if i > 0 {
      FullQuadruples(t, n, i - 1);
      FullRow(t, n, i - 1, n - 2);
    }
  }

  /** There are 165 triples `x < y < z < 11`. */
  lemma TwelveCount()
    ensures QuadCount(12, 9) == 165
  {
    assert QuadCount(12, 1) == 45;
    assert QuadCount(12, 2) == 81;
    assert QuadCount(12, 3) == 109;
    assert QuadCount(12, 4) == 130;
    assert QuadCount(12, 5) == 145;
    assert QuadCount(12, 6) == 155;
    assert QuadCount(12, 7) == 161;
    assert QuadCount(12, 8) == 164;
  }

  /** Integer points ordered by value. */
  function IntCompare(a: int, b: int): int
  {
    a - b
  }

  /** Every slope is the same: all the points lie on one line. */
  function Level(a: int, b: int): real
  {
    0.0
  }

  /** The points 0 to 11. */
  const TwelvePoints: seq<int> := seq(12, i => i)

  /** The same points as the constructor's argument, none of them null. */
  const Twelve: Option<seq<Option<int>>> := Some(seq(12, i => Some(i)))

  /** The twelve points pass validation unchanged. */
  lemma TwelveValid()
    ensures Validate(IntCompare, Twelve) == Ok(TwelvePoints)
  {
    assert forall i :: 0 <= i < 12 ==> Twelve.value[i] == Some(i);
    assert !exists i :: 0 <= i < 12 && Twelve.value[i].None?;
    assert !exists i, j :: 0 <= i < j < 12 && IntCompare(Twelve.value[i].value, Twelve.value[j].value) == 0;
    var v := Validate(IntCompare, Twelve);
    assert v.Ok?;
    assert v.value == TwelvePoints;
  }

  /** On one line every triple finds a fourth point, so the loops record
      one segment for each of the 165 triples. */
  lemma TwelveSegments()
    ensures |Segments(IntCompare, Level, TwelvePoints)| == 165
  {
    var pts := TwelvePoints;
    var t := Triples(IntCompare, Level, pts);
    forall x, y, z | 0 <= x < 9 && x < y < z < 11
      ensures t(x, y, z).Some?
    {
      assert Fourth(Level, pts, x, 0.0, z + 1) == Some(z + 1);
      assert Found(IntCompare, Level, pts, x, y, z).Some?;
    }
    FullQuadruples(t, 12, 9);
    TwelveCount();
  }

  /** Twelve points on one line: the loops record 165 segments, more than
      the 144 slots of the buffer, so the constructor throws. */
  lemma TwelveOnALine()
    ensures BruteCollinearPoints(IntCompare, Level, Twelve) == Err(IndexOutOfBounds)
  {
    TwelveValid();
    TwelveSegments();
    IntSquare(12);
    assert |Twelve.value| == 12 && Int(|Twelve.value| * |Twelve.value|) == 144;
  }

  /** One recorded segment joins two distinct input points, the smaller
      first. */
  lemma FoundProper<P(!new)>(cmp: Compare<P>, slope: SlopeOf<P>, pts: seq<P>, x: nat, y: nat, z: nat)
    requires TotalOrder(cmp) && x < y < z < |pts| && pts[x] != pts[y]
    requires Found(cmp, slope, pts, x, y, z).Some?
    ensures var s := Found(cmp, slope, pts, x, y, z).value;
            s.p in pts && s.q in pts && cmp(s.p, s.q) < 0
  {
    FoundMeaning(cmp, slope, pts, x, y, z);
    var p :| z < p < |pts| && Found(cmp, slope, pts, x, y, z).value == MakeSegment(cmp, pts[x], pts[y], pts[z], pts[p]);
    MakeSegmentProper(cmp, pts[x], pts[y], pts[z], pts[p]);
    assert pts[x] in pts && pts[y] in pts && pts[z] in pts && pts[p] in pts;
  }

  /** Over distinct points every segment the loops record joins two
      input points, the smaller first. */
  lemma LoopsProper<P(!new)>(cmp: Compare<P>, slope: SlopeOf<P>, pts: seq<P>)
    requires TotalOrder(cmp) && |pts| >= 4
    requires forall x, y :: 0 <= x < y < |pts| ==> pts[x] != pts[y]
    ensures var segs := Segments(cmp, slope, pts);
            forall m :: 0 <= m < |segs| ==> segs[m].p in pts && segs[m].q in pts && cmp(segs[m].p, segs[m].q) < 0
  {
    var segs := Segments(cmp, slope, pts);
    LoopsMeaning(cmp, slope, pts);
    forall m | 0 <= m < |segs|
      ensures segs[m].p in pts && segs[m].q in pts && cmp(segs[m].p, segs[m].q) < 0
    {
      assert exists x, y, z :: 0 <= x < y < z < |pts| - 1 && Found(cmp, slope, pts, x, y, z) == Some(segs[m]);
      var x, y, z :| 0 <= x < y < z < |pts| - 1 && Found(cmp, slope, pts, x, y, z) == Some(segs[m]);
      FoundProper(cmp, slope, pts, x, y, z);
    }
  }

  /** Every recorded segment joins two distinct input points, the smaller
      first. */
  lemma BruteSegments<P(!new)>(cmp: Compare<P>, slope: SlopeOf<P>, points: Option<seq<Option<P>>>)
    requires TotalOrder(cmp) && BruteCollinearPoints(cmp, slope, points).Ok?
    ensures var pts := Validate(cmp, points).value;
            var segs := BruteCollinearPoints(cmp, slope, points).value;
            forall m :: 0 <= m < |segs| ==>
              segs[m].p in pts && segs[m].q in pts && cmp(segs[m].p, segs[m].q) < 0
  {
    var pts := Validate(cmp, points).value;
    if |pts| >= 4 {
      ValidDistinct(cmp, points);
      LoopsProper(cmp, slope, pts);
    }
  }
}

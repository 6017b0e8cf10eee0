/** What Collinearity/src/FastCollinearPoints.java and BruteCollinearPoints.java
    share.  A point is any value of a type `P`; `Point.compareTo` is a
    comparison function `cmp` that is a strict total order, and
    `Point.slopeTo` is an uninterpreted function `slope` whose values are
    only ever compared for equality.  A `LineSegment` is a pair of points. */
module CollinearPoints {
  import opened Wrappers

  datatype Segment<P> = Segment(p: P, q: P)

  /** The `IllegalArgumentException`s of `validate`. */
  datatype Error = NullArgument | NullPoint | EqualPoints

  /** What either constructor throws: validation's
      `IllegalArgumentException`s, and the two exceptions of its
      `new LineSegment[n * n]` buffer, a negative size once the `int`
      product wraps, and a write past its end. */
  datatype Failure = Invalid(error: Error) | NegativeArraySize | IndexOutOfBounds

  type Compare<-P> = (P, P) -> int

  /** `slopeTo`: a double whose only use is an equality test, so any value
      type serves; the two infinities are two reals no other slope takes. */
  type SlopeOf<-P> = (P, P) -> real

  /** `compareTo` is a total order: zero exactly on equal points,
      antisymmetric in sign and transitive. */
  ghost predicate TotalOrder<P(!new)>(cmp: Compare<P>)
  {
    && (forall a, b :: cmp(a, b) == 0 <==> a == b)
    && (forall a, b :: cmp(a, b) < 0 <==> cmp(b, a) > 0)
    && (forall a, b, c :: cmp(a, b) < 0 && cmp(b, c) < 0 ==> cmp(a, c) < 0)
  }

  /** `x` is a least element of `xs`. */
  predicate IsMin<P(==)>(cmp: Compare<P>, x: P, xs: seq<P>)
  {
    x in xs && forall y :: y in xs ==> cmp(x, y) <= 0
  }

  /** `x` is a greatest element of `xs`. */
  predicate IsMax<P(==)>(cmp: Compare<P>, x: P, xs: seq<P>)
  {
    x in xs && forall y :: y in xs ==> cmp(x, y) >= 0
  }

  /** `<=` of a total order is transitive. */
  lemma AtMostTrans<P(!new)>(cmp: Compare<P>, x: P, y: P, z: P)
    requires TotalOrder(cmp) && cmp(x, y) <= 0 && cmp(y, z) <= 0
    ensures cmp(x, z) <= 0
  {
  }

  lemma AtMostLess<P(!new)>(cmp: Compare<P>, x: P, y: P, z: P)
    requires TotalOrder(cmp) && cmp(x, y) <= 0 && cmp(y, z) < 0
    ensures cmp(x, z) < 0
  {
  }

  lemma LessAtMost<P(!new)>(cmp: Compare<P>, x: P, y: P, z: P)
    requires TotalOrder(cmp) && cmp(x, y) < 0 && cmp(y, z) <= 0
    ensures cmp(x, z) < 0
  {
  }

  /** The points of an array none of whose slots is null. */
  function Present<P>(slots: seq<Option<P>>): (r: Option<seq<P>>)
    ensures r.None? <==> exists i :: 0 <= i < |slots| && slots[i].None?
    ensures r.Some? ==> |r.value| == |slots| && forall i :: 0 <= i < |slots| ==> slots[i] == Some(r.value[i])
    decreases |slots|
  {
    if |slots| == 0 then Some([])
    else match slots[0]
      case None => None
      case Some(x) =>
        match Present(slots[1..])
        case None => assert slots[1..][0] == slots[1]; None
        case Some(rest) => Some([x] + rest)
  }

  /** Some two points of `xs` compare as equal.  The source sorts a copy
      and compares neighbours; with a total order that finds such a pair
      exactly when one exists. */
  function HasEqual<P>(cmp: Compare<P>, xs: seq<P>): (r: bool)
    ensures r <==> exists i, j :: 0 <= i < j < |xs| && cmp(xs[i], xs[j]) == 0
    decreases |xs|
  {
    if |xs| == 0 then false
    else if exists j :: 0 < j < |xs| && cmp(xs[0], xs[j]) == 0 then true
    else
      var r := HasEqual(cmp, xs[1..]);
      assert r ==> exists i, j :: 0 <= i < j < |xs| && cmp(xs[i], xs[j]) == 0 by {
        if r {
          var i, j :| 0 <= i < j < |xs| - 1 && cmp(xs[1..][i], xs[1..][j]) == 0;
          assert cmp(xs[i + 1], xs[j + 1]) == 0;
        }
      }
      assert (exists i, j :: 0 <= i < j < |xs| && cmp(xs[i], xs[j]) == 0) ==> r by {
        if i, j :| 0 <= i < j < |xs| && cmp(xs[i], xs[j]) == 0 {
          assert i > 0;
          assert cmp(xs[1..][i - 1], xs[1..][j - 1]) == 0;
        }
      }
      r
  }

  /** `validate`: a null array, then a null point, then two equal points
      are rejected, in that order; otherwise the points are accepted. */
  function Validate<P>(cmp: Compare<P>, points: Option<seq<Option<P>>>): (r: Result<seq<P>, Error>)
    ensures points.None? <==> r == Err(NullArgument)
    ensures r == Err(NullPoint) <==> points.Some? && exists i :: 0 <= i < |points.value| && points.value[i].None?
    ensures r == Err(EqualPoints) <==>
              && points.Some? && (forall i :: 0 <= i < |points.value| ==> points.value[i].Some?)
              && exists i, j :: 0 <= i < j < |points.value| && cmp(points.value[i].value, points.value[j].value) == 0
    ensures r.Ok? ==> && points.Some? && |r.value| == |points.value|
                      && (forall i :: 0 <= i < |points.value| ==> points.value[i] == Some(r.value[i]))
                      && forall i, j :: 0 <= i < j < |r.value| ==> cmp(r.value[i], r.value[j]) != 0
  {
    if points.None? then Err(NullArgument)
    else match Present(points.value)
      case None => Err(NullPoint)
      case Some(xs) =>
        if HasEqual(cmp, xs) then Err(EqualPoints) else Ok(xs)
  }

  /** Under a total order, accepted points are pairwise distinct. */
  lemma ValidDistinct<P(!new)>(cmp: Compare<P>, points: Option<seq<Option<P>>>)
    requires TotalOrder(cmp) && Validate(cmp, points).Ok?
    ensures var xs := Validate(cmp, points).value;
            forall i, j :: 0 <= i < |xs| && 0 <= j < |xs| && i != j ==> xs[i] != xs[j]
  {
    var xs := Validate(cmp, points).value;
    forall i, j | 0 <= i < |xs| && 0 <= j < |xs| && i != j
      ensures xs[i] != xs[j]
    {
      if i < j {
        assert cmp(xs[i], xs[j]) != 0;
      } else {
        assert cmp(xs[j], xs[i]) != 0;
      }
    }
  }
}

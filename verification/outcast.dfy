/** The outcast of wordnet/Outcast.java: the noun whose sum of distances to
    all the nouns (itself included) is largest.  The WordNet distance is a
    parameter: any total function from two nouns to an `int`.  The sums are
    Java `int` additions, so they wrap around modulo 2^32. */
module Outcast {
  import opened Wrappers
  import opened JavaInt

  /** `Integer.MIN_VALUE`, the starting maximum. */
  const MIN_VALUE: int := -0x8000_0000
  const MAX_VALUE: int := 0x7fff_ffff

  type Distance = (string, string) -> int

  /** The inner loop's `sum` after the first `j` nouns. */
  function Total(dist: Distance, nouns: seq<string>, a: string, j: nat): int
    requires j <= |nouns|
    decreases j
  {
    if j == 0 then 0 else Int(Total(dist, nouns, a, j - 1) + dist(a, nouns[j - 1]))
  }

  /** The exact sum of the distances from `a` to the first `j` nouns. */
  function Exact(dist: Distance, nouns: seq<string>, a: string, j: nat): int
    requires j <= |nouns|
    decreases j
  {
    if j == 0 then 0 else Exact(dist, nouns, a, j - 1) + dist(a, nouns[j - 1])
  }

  /** The sum the outcast maximises. */
  function Score(dist: Distance, nouns: seq<string>, a: string): int
  {
    Total(dist, nouns, a, |nouns|)
  }

  /** `outcast`: scan the nouns in order and keep the first one whose score
      is strictly larger than every earlier score and than MIN_VALUE; null
      (None) when there is none, in particular for no nouns. */
  method FindOutcast(dist: Distance, nouns: seq<string>) returns (r: Option<string>)
    ensures r.None? <==> forall i :: 0 <= i < |nouns| ==> Score(dist, nouns, nouns[i]) == MIN_VALUE
    ensures r.Some? ==> exists i :: 0 <= i < |nouns| && r.value == nouns[i]
                          && (forall j :: 0 <= j < |nouns| ==> Score(dist, nouns, nouns[j]) <= Score(dist, nouns, nouns[i]))
                          && (forall j :: 0 <= j < i ==> Score(dist, nouns, nouns[j]) < Score(dist, nouns, nouns[i]))
  {
    var max := MIN_VALUE;
    r := None;
    ghost var best := -1;
    for i := 0 to |nouns|
      invariant r.None? <==> best == -1
      invariant r.None? ==> max == MIN_VALUE && forall j :: 0 <= j < i ==> Score(dist, nouns, nouns[j]) == MIN_VALUE
      invariant r.Some? ==> 0 <= best < i && r.value == nouns[best] && MIN_VALUE < max == Score(dist, nouns, nouns[best])
      invariant r.Some? ==> forall j :: 0 <= j < best ==> Score(dist, nouns, nouns[j]) < max
      invariant forall j :: 0 <= j < i ==> Score(dist, nouns, nouns[j]) <= max
    {
      var a := nouns[i];
      var sum := 0;
      for k := 0 to |nouns|
        invariant sum == Total(dist, nouns, a, k)
      {
        sum := Int(sum + dist(a, nouns[k]));
      }
      if sum > max {
        max := sum;
        r := Some(a);
        best := i;
      }
    }
    if r.Some? {
      assert Score(dist, nouns, nouns[best]) != MIN_VALUE;
    }
  }

  /** Without overflow the inner loop computes the exact sum. */
  lemma {:induction false} TotalExact(dist: Distance, nouns: seq<string>, a: string, j: nat)
    requires j <= |nouns|
    requires forall k :: 0 <= k < |nouns| ==> 0 <= dist(a, nouns[k])
    requires Exact(dist, nouns, a, j) <= MAX_VALUE
    ensures Total(dist, nouns, a, j) == Exact(dist, nouns, a, j) >= 0
    decreases j
  {
    if j > 0 {
      TotalExact(dist, nouns, a, j - 1);
    }
  }

  /** With non-negative distances whose sums fit in an `int`, every score is
      the exact sum, so a non-empty list of nouns always has an outcast. */
  lemma ScoreExact(dist: Distance, nouns: seq<string>)
    requires forall a, k :: a in nouns && 0 <= k < |nouns| ==> 0 <= dist(a, nouns[k])
    requires forall a :: a in nouns ==> Exact(dist, nouns, a, |nouns|) <= MAX_VALUE
    ensures forall i :: 0 <= i < |nouns| ==> Score(dist, nouns, nouns[i]) == Exact(dist, nouns, nouns[i], |nouns|)
    ensures |nouns| > 0 ==> exists i :: 0 <= i < |nouns| && Score(dist, nouns, nouns[i]) != MIN_VALUE
  {
    forall i | 0 <= i < |nouns|
      ensures Score(dist, nouns, nouns[i]) == Exact(dist, nouns, nouns[i], |nouns|) >= 0
    {
      TotalExact(dist, nouns, nouns[i], |nouns|);
    }
    if |nouns| > 0 {
      assert Score(dist, nouns, nouns[0]) >= 0;
    }
  }
}

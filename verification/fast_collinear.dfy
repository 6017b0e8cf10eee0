/** Collinearity/src/FastCollinearPoints.java: for every point taken as the
    origin, sort a copy of the points by slope from the origin and scan it
    in blocks of equal slope; a block of at least three points, all greater
    than the origin, gives the segment from the origin to the block's
    greatest point.  `Arrays.sort` with `slopeOrder` is a parameter
    `sortBySlope`: the origin and the copy as it stands give the re-sorted
    copy, a permutation of it. */
module FastCollinear {
  import opened Wrappers
  import opened CollinearPoints
  import opened JavaInt

  /** The slopes from `origin` to `copy[a..b)` all equal that of `copy[a]`. */
  predicate SameSlope<P>(slope: SlopeOf<P>, origin: P, copy: seq<P>, a: nat, b: nat)
    requires a <= b <= |copy|
  {
    forall k :: a <= k < b ==> slope(origin, copy[k]) == slope(origin, copy[a])
  }

  /** `copy[a..b)` is one block of the scan: positions from 1 on, cut
      wherever the slope from `origin` changes. */
  predicate Block<P>(slope: SlopeOf<P>, origin: P, copy: seq<P>, a: int, b: int)
  {
    && 1 <= a < b <= |copy|
    && SameSlope(slope, origin, copy, a, b)
    && (a == 1 || slope(origin, copy[a - 1]) != slope(origin, copy[a]))
    && (b == |copy| || slope(origin, copy[b]) != slope(origin, copy[a]))
  }

  /** A block that gives a segment: at least three points, every one of
      them greater than the origin (so the origin is the least point of the
      line and the segment is reported from this origin only). */
  predicate Eligible<P>(cmp: Compare<P>, slope: SlopeOf<P>, origin: P, copy: seq<P>, a: int, b: int)
  {
    && Block(slope, origin, copy, a, b)
    && b - a >= 3
    && forall k :: a <= k < b ==> cmp(copy[k], origin) > 0
  }

  /** `copy` in `slopeOrder` of `origin`: slopes from the origin never
      decrease along it. */
  predicate SortedBySlope<P>(slope: SlopeOf<P>, origin: P, copy: seq<P>)
  {
    forall i, j :: 0 <= i < j < |copy| ==> slope(origin, copy[i]) <= slope(origin, copy[j])
  }

  /** In a copy sorted by slope a block holds every point from position 1
      on whose slope from the origin is the block's: the scan sees each
      line through the origin as one block. */
  lemma BlockGathers<P>(slope: SlopeOf<P>, origin: P, copy: seq<P>, a: int, b: int)
    requires SortedBySlope(slope, origin, copy) && Block(slope, origin, copy, a, b)
    ensures forall k :: 1 <= k < |copy| && slope(origin, copy[k]) == slope(origin, copy[a]) ==> a <= k < b
  {
    forall k | 1 <= k < |copy| && slope(origin, copy[k]) == slope(origin, copy[a])
      ensures a <= k < b
    {
    }
  }

  /** The segment a block gives: from the origin to a greatest point of
      the block. */
  predicate SegmentOf<P(==)>(cmp: Compare<P>, origin: P, copy: seq<P>, a: int, b: int, s: Segment<P>)
    requires 0 <= a <= b <= |copy|
  {
    s.p == origin && IsMax(cmp, s.q, copy[a..b])
  }

  /** A block starting at `a` ends at one place only. */
  lemma BlockUnique<P>(slope: SlopeOf<P>, origin: P, copy: seq<P>, a: int, b: int, b': int)
    requires Block(slope, origin, copy, a, b) && Block(slope, origin, copy, a, b')
    ensures b == b'
  {
  }

  /** When `Arrays.sort` really orders the copy by slope, two blocks of
      the same slope are the same block: each line through the origin is
      scanned once, so it gives at most one segment from this origin. */
  lemma OneBlockPerLine<P>(slope: SlopeOf<P>, origin: P, copy: seq<P>, a: int, b: int, a': int, b': int)
    requires SortedBySlope(slope, origin, copy)
    requires Block(slope, origin, copy, a, b) && Block(slope, origin, copy, a', b')
    requires slope(origin, copy[a]) == slope(origin, copy[a'])
    ensures a == a' && b == b'
  {
    BlockGathers(slope, origin, copy, a, b);
    BlockGathers(slope, origin, copy, a', b');
    BlockUnique(slope, origin, copy, a, b, b');
  }

  /** `collinearComponent`: two (the origin and `copy[start]`) plus the
      number of points right after `start` with the same slope.  The points
      `copy[start..start + count - 1)` share the slope, and the run cannot
      be extended. */
  method CollinearComponent<P>(slope: SlopeOf<P>, copy: seq<P>, start: nat, origin: P) returns (count: int)
    requires start < |copy|
    ensures 2 <= count && start + count - 1 <= |copy|
    ensures SameSlope(slope, origin, copy, start, start + count - 1)
    ensures start + count - 1 == |copy| || slope(origin, copy[start + count - 1]) != slope(origin, copy[start])
  {
    var s := slope(origin, copy[start]);
    count := 2;
    var i := start + 1;
    var n := |copy|;
    while i < n
      invariant start + 1 <= i <= n && count == i - start + 1
      invariant SameSlope(slope, origin, copy, start, i)
      decreases n - i
    {
      if slope(origin, copy[i]) == s {
        count := count + 1;
      } else {
        break;
      }
      i := i + 1;
    }
  }

  /** `minMax`: the least and the greatest of `pts[start..start + length)`.
      An odd length starts from the first point alone, an even one from the
      first pair; the rest is taken two at a time, the smaller of each pair
      tried against the minimum and the larger against the maximum. */
  method MinMax<P(!new)>(cmp: Compare<P>, pts: seq<P>, start: nat, length: nat) returns (lo: P, hi: P)
    requires TotalOrder(cmp) && 1 <= length && start + length <= |pts|
    ensures IsMin(cmp, lo, pts[start..start + length]) && IsMax(cmp, hi, pts[start..start + length])
  {
    var i;
    ghost var l, h;
    lo, hi, i, l, h := FirstPoints(cmp, pts, start, length);
    lo, hi := RestPairs(cmp, pts, start, start + length, i, lo, hi, l, h);
  }

  /** The start of `minMax`: the first point alone for an odd length, the
      first pair, ordered, for an even one; `i` is the second index of the
      next pair and an even number of points is left from `i - 1` on. */
  method FirstPoints<P(!new)>(cmp: Compare<P>, pts: seq<P>, start: nat, length: nat)
    returns (lo: P, hi: P, i: nat, ghost l: nat, ghost h: nat)
    requires TotalOrder(cmp) && 1 <= length && start + length <= |pts|
    ensures start + 2 <= i <= start + length + 1 && (start + length + 1 - i) % 2 == 0
    ensures (length % 2 != 0 ==> i == start + 2) && (length % 2 == 0 ==> i == start + 3)
    ensures start <= l < i - 1 && pts[l] == lo && start <= h < i - 1 && pts[h] == hi
    ensures Bounded(cmp, lo, hi, pts, start, i - 1)
  {
    if length % 2 != 0 {
      lo, hi := pts[start], pts[start];
      l, h := start, start;
      i := start + 2;
      assert cmp(lo, lo) == 0;
    } else {
      var a, b := pts[start], pts[start + 1];
      assert cmp(a, a) == 0 && cmp(b, b) == 0;
      if cmp(a, b) < 0 {
        lo, hi := a, b;
        l, h := start, start + 1;
      } else {
        lo, hi := b, a;
        l, h := start + 1, start;
      }
      i := start + 3;
    }
  }

  /** The loop of `minMax`: the pairs `(pts[i - 1], pts[i])`, `(pts[i + 1],
      pts[i + 2])`, ... up to `end`, each taken by `TakePair`. */
  method RestPairs<P(!new)>(cmp: Compare<P>, pts: seq<P>, start: nat, end: nat, i0: nat, lo0: P, hi0: P,
                            ghost l0: nat, ghost h0: nat)
    returns (lo: P, hi: P)
    requires TotalOrder(cmp) && start + 2 <= i0 <= end + 1 && end <= |pts| && (end + 1 - i0) % 2 == 0
    requires start <= l0 < i0 - 1 && pts[l0] == lo0 && start <= h0 < i0 - 1 && pts[h0] == hi0
    requires Bounded(cmp, lo0, hi0, pts, start, i0 - 1)
    ensures IsMin(cmp, lo, pts[start..end]) && IsMax(cmp, hi, pts[start..end])
  {
    lo, hi := lo0, hi0;
    ghost var l, h := l0, h0;
    var i := i0;
    ghost var pairs: int := (end + 1 - i0) / 2;
    while i < end
      invariant start + 2 <= i <= end + 1 && end + 1 - i == 2 * pairs
      invariant start <= l < i - 1 && pts[l] == lo && start <= h < i - 1 && pts[h] == hi
      invariant Bounded(cmp, lo, hi, pts, start, i - 1)
      decreases end - i
    {
      ghost var lo1, hi1 := lo, hi;
      lo, hi := TakePair(cmp, pts[i], pts[i - 1], lo, hi);
      l := if lo == pts[i] then i else if lo == pts[i - 1] then i - 1 else l;
      h := if hi == pts[i] then i else if hi == pts[i - 1] then i - 1 else h;
      StepBounded(cmp, pts, start, i, lo1, hi1, lo, hi);
      i := i + 2;
      pairs := pairs - 1;
    }
    Bounds(cmp, pts, start, end, l, h, lo, hi);
  }

  /** `lo` is at most, and `hi` at least, every point of `pts[start..end)`. */
  predicate Bounded<P>(cmp: Compare<P>, lo: P, hi: P, pts: seq<P>, start: nat, end: int)
    requires end <= |pts|
  {
    forall k :: start <= k < end ==> cmp(lo, pts[k]) <= 0 && cmp(hi, pts[k]) >= 0
  }

  /** The bounds after one pair of `minMax`'s loop cover the pair too. */
  lemma StepBounded<P(!new)>(cmp: Compare<P>, pts: seq<P>, start: nat, i: nat, lo0: P, hi0: P, lo: P, hi: P)
    requires TotalOrder(cmp) && start + 1 <= i < |pts| && Bounded(cmp, lo0, hi0, pts, start, i - 1)
    requires cmp(lo, lo0) <= 0 && cmp(lo, pts[i]) <= 0 && cmp(lo, pts[i - 1]) <= 0
    requires cmp(hi0, hi) <= 0 && cmp(pts[i], hi) <= 0 && cmp(pts[i - 1], hi) <= 0
    ensures Bounded(cmp, lo, hi, pts, start, i + 1)
  {
    forall k | start <= k < i + 1
      ensures cmp(lo, pts[k]) <= 0 && cmp(hi, pts[k]) >= 0
    {
      if k < i - 1 {
        AtMostTrans(cmp, lo, lo0, pts[k]);
        AtMostTrans(cmp, pts[k], hi0, hi);
      }
      GreaterOf(cmp, hi, pts[k]);
    }
  }

  /** One pass of `minMax`'s loop: the smaller of `a` and `b` is tried
      against the minimum and the larger against the maximum, so the new
      minimum is at most, and the new maximum at least, the old one and
      both points; each is one of those three. */
  method TakePair<P(!new)>(cmp: Compare<P>, a: P, b: P, lo0: P, hi0: P) returns (lo: P, hi: P)
    requires TotalOrder(cmp)
    ensures (lo == lo0 || lo == a || lo == b) && (hi == hi0 || hi == a || hi == b)
    ensures cmp(lo, lo0) <= 0 && cmp(lo, a) <= 0 && cmp(lo, b) <= 0
    ensures cmp(hi0, hi) <= 0 && cmp(a, hi) <= 0 && cmp(b, hi) <= 0
  {
    assert cmp(a, a) == 0 && cmp(b, b) == 0 && cmp(lo0, lo0) == 0 && cmp(hi0, hi0) == 0;
    lo, hi := lo0, hi0;
    if cmp(a, b) < 0 {
      if cmp(a, lo) < 0 {
        lo := a;
      }
      if cmp(b, hi) > 0 {
        hi := b;
      }
    } else {
      if cmp(b, lo) < 0 {
        lo := b;
      }
      if cmp(a, hi) > 0 {
        hi := a;
      }
    }
  }

  /** `x >= y` read from the other side. */
  lemma GreaterOf<P(!new)>(cmp: Compare<P>, x: P, y: P)
    requires TotalOrder(cmp) && cmp(y, x) <= 0
    ensures cmp(x, y) >= 0
  {
  }

  /** Index bounds on a slice give its least and greatest element. */
  lemma Bounds<P(!new)>(cmp: Compare<P>, pts: seq<P>, start: nat, end: nat, l: int, h: int, lo: P, hi: P)
    requires start <= l < end <= |pts| && start <= h < end && pts[l] == lo && pts[h] == hi
    requires Bounded(cmp, lo, hi, pts, start, end)
    ensures IsMin(cmp, lo, pts[start..end]) && IsMax(cmp, hi, pts[start..end])
  {
    var s := pts[start..end];
    assert s[l - start] == lo && s[h - start] == hi;
    forall y | y in s
      ensures cmp(lo, y) <= 0 && cmp(hi, y) >= 0
    {
      var k :| 0 <= k < |s| && s[k] == y;
      assert pts[start + k] == y;
    }
  }

  /** A least element greater than the origin means the whole range is
      greater than the origin, and conversely. */
  lemma MinAbove<P(!new)>(cmp: Compare<P>, origin: P, lo: P, copy: seq<P>, a: nat, b: nat)
    requires TotalOrder(cmp) && a <= b <= |copy| && IsMin(cmp, lo, copy[a..b])
    ensures cmp(lo, origin) > 0 <==> forall k :: a <= k < b ==> cmp(copy[k], origin) > 0
  {
    var s := copy[a..b];
    if cmp(lo, origin) > 0 {
      forall k | a <= k < b
        ensures cmp(copy[k], origin) > 0
      {
        assert copy[k] == s[k - a];
        LessAtMost(cmp, origin, lo, copy[k]);
      }
    } else {
      var j :| 0 <= j < |s| && s[j] == lo;
      assert copy[a + j] == lo;
    }
  }

  /** One pass of the constructor's scan (lines 28-37): the block at `i`,
      and its segment when it has at least three points whose least is
      greater than the origin. */
  method ScanBlock<P(!new)>(cmp: Compare<P>, slope: SlopeOf<P>, origin: P, copy: seq<P>, i: nat)
    returns (len: nat, seg: Option<Segment<P>>)
    requires TotalOrder(cmp) && 1 <= i < |copy|
    requires i == 1 || slope(origin, copy[i - 1]) != slope(origin, copy[i])
    ensures Block(slope, origin, copy, i, i + len)
    ensures seg.Some? <==> Eligible(cmp, slope, origin, copy, i, i + len)
    ensures seg.Some? ==> SegmentOf(cmp, origin, copy, i, i + len, seg.value)
  {
    var count := CollinearComponent(slope, copy, i, origin);
    len := count - 1;
    seg := None;
    if len >= 3 {
      var lo, hi := MinMax(cmp, copy, i, len);
      MinAbove(cmp, origin, lo, copy, i, i + len);
      if cmp(lo, origin) > 0 {
        seg := Some(Segment(origin, hi));
      }
    }
  }

  /** Blocks do not overlap: a block starting inside the block at `i`
      is that block. */
  lemma NextBlock<P>(slope: SlopeOf<P>, origin: P, copy: seq<P>, i: int, j: int, a: int, b: int)
    requires Block(slope, origin, copy, i, j) && Block(slope, origin, copy, a, b) && i <= a < j
    ensures a == i && b == j
  {
    assert a == i;
    BlockUnique(slope, origin, copy, a, b, j);
  }

  /** `s` is the segment of an eligible block of `copy`. */
  ghost predicate FromBlock<P(!new)>(cmp: Compare<P>, slope: SlopeOf<P>, origin: P, copy: seq<P>, s: Segment<P>)
  {
    exists a, b :: Eligible(cmp, slope, origin, copy, a, b) && SegmentOf(cmp, origin, copy, a, b, s)
  }

  /** Each segment of `segs` is the segment of an eligible block. */
  ghost predicate ScanSound<P(!new)>(cmp: Compare<P>, slope: SlopeOf<P>, origin: P, copy: seq<P>, segs: seq<Segment<P>>)
  {
    forall m :: 0 <= m < |segs| ==> FromBlock(cmp, slope, origin, copy, segs[m])
  }

  /** Each eligible block starting before `upto` has its segment in `segs`. */
  ghost predicate ScanComplete<P(!new)>(cmp: Compare<P>, slope: SlopeOf<P>, origin: P, copy: seq<P>,
                                        segs: seq<Segment<P>>, upto: int)
  {
    forall a, b :: a < upto && Eligible(cmp, slope, origin, copy, a, b) ==>
      exists m :: 0 <= m < |segs| && SegmentOf(cmp, origin, copy, a, b, segs[m])
  }

  /** `segs` lists the segments of the eligible blocks of `copy` that
      start before `upto`, one per block and in the order of the blocks:
      `blocks[m]` is the block `segs[m]` comes from. */
  ghost predicate ScanListing<P(!new)>(cmp: Compare<P>, slope: SlopeOf<P>, origin: P, copy: seq<P>,
                                       segs: seq<Segment<P>>, blocks: seq<(int, int)>, upto: int)
  {
    && |blocks| == |segs|
    && ListedBlocks(cmp, slope, origin, copy, segs, blocks, upto)
    && StartsIncrease(blocks)
    && ListsAll(cmp, slope, origin, copy, blocks, upto)
  }

  /** `blocks[m]` is an eligible block before `upto` and `segs[m]` is its
      segment. */
  ghost predicate ListedBlocks<P(!new)>(cmp: Compare<P>, slope: SlopeOf<P>, origin: P, copy: seq<P>,
                                        segs: seq<Segment<P>>, blocks: seq<(int, int)>, upto: int)
    requires |blocks| == |segs|
  {
    forall m :: 0 <= m < |blocks| ==>
      && blocks[m].0 < upto
      && Eligible(cmp, slope, origin, copy, blocks[m].0, blocks[m].1)
      && SegmentOf(cmp, origin, copy, blocks[m].0, blocks[m].1, segs[m])
  }

  /** The blocks are listed in the order of their starts, each once. */
  predicate StartsIncrease(blocks: seq<(int, int)>)
  {
    forall m, m' :: 0 <= m < m' < |blocks| ==> blocks[m].0 < blocks[m'].0
  }

  /** Every eligible block starting before `upto` is listed. */
  ghost predicate ListsAll<P(!new)>(cmp: Compare<P>, slope: SlopeOf<P>, origin: P, copy: seq<P>,
                                    blocks: seq<(int, int)>, upto: int)
  {
    forall a, b :: a < upto && Eligible(cmp, slope, origin, copy, a, b) ==>
      exists m :: 0 <= m < |blocks| && blocks[m] == (a, b)
  }

  /** The constructor's `while (i < n)` loop over one sorted copy: the
      blocks are visited in order and each eligible block, and nothing
      else, gives its segment, so `segs` is their listing, with `blocks`
      the blocks in question.  A segment takes at least three points, so
      fewer than a third of the copy's length are found. */
  method Scan<P(!new)>(cmp: Compare<P>, slope: SlopeOf<P>, origin: P, copy: seq<P>)
    returns (segs: seq<Segment<P>>, ghost blocks: seq<(int, int)>)
    requires TotalOrder(cmp)
    ensures segs == [] || 3 * |segs| < |copy|
    ensures ScanListing(cmp, slope, origin, copy, segs, blocks, |copy|)
    ensures ScanSound(cmp, slope, origin, copy, segs)
    ensures ScanComplete(cmp, slope, origin, copy, segs, |copy|)
  {
    var n := |copy|;
    var i := 1;
    segs, blocks := [], [];
    while i < n
      invariant 1 <= i && (i <= n || (n == 0 && i == 1))
      invariant i < n ==> i == 1 || slope(origin, copy[i - 1]) != slope(origin, copy[i])
      invariant 3 * |segs| <= i - 1
      invariant ScanListing(cmp, slope, origin, copy, segs, blocks, i)
      decreases n - i
    {
      segs, blocks, i := ScanNext(cmp, slope, origin, copy, segs, blocks, i);
    }
    if n == 0 {
      assert ScanListing(cmp, slope, origin, copy, segs, blocks, |copy|);
    }
    ListingSound(cmp, slope, origin, copy, segs, blocks, |copy|);
    ListingComplete(cmp, slope, origin, copy, segs, blocks, |copy|);
  }

  /** One pass of `Scan`'s loop: the block at `i`, its segment appended
      when it is eligible, and the position past it. */
  method ScanNext<P(!new)>(cmp: Compare<P>, slope: SlopeOf<P>, origin: P, copy: seq<P>,
                           segs: seq<Segment<P>>, ghost blocks: seq<(int, int)>, i: nat)
    returns (segs': seq<Segment<P>>, ghost blocks': seq<(int, int)>, j: nat)
    requires TotalOrder(cmp) && 1 <= i < |copy|
    requires i == 1 || slope(origin, copy[i - 1]) != slope(origin, copy[i])
    requires 3 * |segs| <= i - 1 && ScanListing(cmp, slope, origin, copy, segs, blocks, i)
    ensures i < j <= |copy| && (j < |copy| ==> slope(origin, copy[j - 1]) != slope(origin, copy[j]))
    ensures 3 * |segs'| <= j - 1 && ScanListing(cmp, slope, origin, copy, segs', blocks', j)
  {
    var len, seg := ScanBlock(cmp, slope, origin, copy, i);
    j := i + len;
    BlockBoundary(slope, origin, copy, i, j);
    if seg.Some? {
      ListingKeep(cmp, slope, origin, copy, segs, blocks, i, j, seg.value);
      segs', blocks' := segs + [seg.value], blocks + [(i, j)];
    } else {
      ListingSkip(cmp, slope, origin, copy, segs, blocks, i, j);
      segs', blocks' := segs, blocks;
    }
  }

  /** Past a block the slope changes. */
  lemma BlockBoundary<P>(slope: SlopeOf<P>, origin: P, copy: seq<P>, i: int, j: int)
    requires Block(slope, origin, copy, i, j)
    ensures j < |copy| ==> slope(origin, copy[j - 1]) != slope(origin, copy[j])
  {
    if j < |copy| {
      assert slope(origin, copy[j - 1]) == slope(origin, copy[i]);
    }
  }

  /** A listed segment comes from an eligible block. */
  lemma ListingSound<P(!new)>(cmp: Compare<P>, slope: SlopeOf<P>, origin: P, copy: seq<P>,
                              segs: seq<Segment<P>>, blocks: seq<(int, int)>, upto: int)
    requires ScanListing(cmp, slope, origin, copy, segs, blocks, upto)
    ensures ScanSound(cmp, slope, origin, copy, segs)
  {
    forall m | 0 <= m < |segs|
      ensures FromBlock(cmp, slope, origin, copy, segs[m])
    {
      var a, b := blocks[m].0, blocks[m].1;
      assert Eligible(cmp, slope, origin, copy, a, b) && SegmentOf(cmp, origin, copy, a, b, segs[m]);
    }
  }

  /** Every eligible block listed has its segment among `segs`. */
  lemma ListingComplete<P(!new)>(cmp: Compare<P>, slope: SlopeOf<P>, origin: P, copy: seq<P>,
                                 segs: seq<Segment<P>>, blocks: seq<(int, int)>, upto: int)
    requires ScanListing(cmp, slope, origin, copy, segs, blocks, upto)
    ensures ScanComplete(cmp, slope, origin, copy, segs, upto)
  {
    forall a, b | a < upto && Eligible(cmp, slope, origin, copy, a, b)
      ensures exists m :: 0 <= m < |segs| && SegmentOf(cmp, origin, copy, a, b, segs[m])
    {
      var m :| 0 <= m < |blocks| && blocks[m] == (a, b);
      assert SegmentOf(cmp, origin, copy, blocks[m].0, blocks[m].1, segs[m]);
    }
  }

  /** The listing of `Scan` carried over a block that gives a segment. */
  lemma ListingKeep<P(!new)>(cmp: Compare<P>, slope: SlopeOf<P>, origin: P, copy: seq<P>, segs: seq<Segment<P>>,
                             blocks: seq<(int, int)>, i: nat, j: nat, s: Segment<P>)
    requires Eligible(cmp, slope, origin, copy, i, j) && SegmentOf(cmp, origin, copy, i, j, s)
    requires ScanListing(cmp, slope, origin, copy, segs, blocks, i)
    ensures ScanListing(cmp, slope, origin, copy, segs + [s], blocks + [(i, j)], j)
  {
    var segs', blocks' := segs + [s], blocks + [(i, j)];
    forall m | 0 <= m < |blocks'|
      ensures && blocks'[m].0 < j
              && Eligible(cmp, slope, origin, copy, blocks'[m].0, blocks'[m].1)
              && SegmentOf(cmp, origin, copy, blocks'[m].0, blocks'[m].1, segs'[m])
    {
      if m < |blocks| {
        assert blocks'[m] == blocks[m] && segs'[m] == segs[m];
      }
    }
    forall a, b | a < j && Eligible(cmp, slope, origin, copy, a, b)
      ensures exists m :: 0 <= m < |blocks'| && blocks'[m] == (a, b)
    {
      if a < i {
        var m :| 0 <= m < |blocks| && blocks[m] == (a, b);
        assert blocks'[m] == blocks[m];
      } else {
        NextBlock(slope, origin, copy, i, j, a, b);
        assert blocks'[|blocks|] == (a, b);
      }
    }
  }

  /** The listing of `Scan` carried over a block that gives no segment. */
  lemma ListingSkip<P(!new)>(cmp: Compare<P>, slope: SlopeOf<P>, origin: P, copy: seq<P>, segs: seq<Segment<P>>,
                             blocks: seq<(int, int)>, i: nat, j: nat)
    requires Block(slope, origin, copy, i, j) && !Eligible(cmp, slope, origin, copy, i, j)
    requires ScanListing(cmp, slope, origin, copy, segs, blocks, i)
    ensures ScanListing(cmp, slope, origin, copy, segs, blocks, j)
  {
    forall a, b | a < j && Eligible(cmp, slope, origin, copy, a, b)
      ensures exists m :: 0 <= m < |blocks| && blocks[m] == (a, b)
    {
      if a >= i {
        NextBlock(slope, origin, copy, i, j, a, b);
      }
    }
  }

  /** When `Arrays.sort` really orders the copy by slope, no two segments
      the scan finds for one origin lie on the same line through it: each
      line through the origin gives at most one segment from it. */
  lemma OneSegmentPerLine<P(!new)>(cmp: Compare<P>, slope: SlopeOf<P>, origin: P, copy: seq<P>,
                                   segs: seq<Segment<P>>, blocks: seq<(int, int)>)
    requires SortedBySlope(slope, origin, copy)
    requires ScanListing(cmp, slope, origin, copy, segs, blocks, |copy|)
    ensures forall m :: 0 <= m < |segs| ==> segs[m].p == origin
    ensures forall m, m' :: 0 <= m < m' < |segs| ==> slope(origin, segs[m].q) != slope(origin, segs[m'].q)
  {
    forall m, m' | 0 <= m < m' < |segs|
      ensures slope(origin, segs[m].q) != slope(origin, segs[m'].q)
    {
      var a, b, a', b' := blocks[m].0, blocks[m].1, blocks[m'].0, blocks[m'].1;
      SegmentSlope(cmp, slope, origin, copy, a, b, segs[m]);
      SegmentSlope(cmp, slope, origin, copy, a', b', segs[m']);
      if slope(origin, segs[m].q) == slope(origin, segs[m'].q) {
        OneBlockPerLine(slope, origin, copy, a, b, a', b');
        assert false;
      }
    }
  }

  /** The far end of a block's segment lies on the block's line. */
  lemma SegmentSlope<P(!new)>(cmp: Compare<P>, slope: SlopeOf<P>, origin: P, copy: seq<P>, a: int, b: int,
                              s: Segment<P>)
    requires Block(slope, origin, copy, a, b) && SegmentOf(cmp, origin, copy, a, b, s)
    ensures slope(origin, s.q) == slope(origin, copy[a])
  {
    var k :| 0 <= k < b - a && copy[a..b][k] == s.q;
    assert copy[a + k] == s.q;
  }

  /** Over a copy without repeated points the scan never finds the same
      segment twice: the blocks are disjoint, so their greatest points
      differ. */
  lemma ScanNoRepeat<P(!new)>(cmp: Compare<P>, slope: SlopeOf<P>, origin: P, copy: seq<P>,
                              segs: seq<Segment<P>>, blocks: seq<(int, int)>)
    requires forall k, k' :: 0 <= k < k' < |copy| ==> copy[k] != copy[k']
    requires ScanListing(cmp, slope, origin, copy, segs, blocks, |copy|)
    ensures forall m, m' :: 0 <= m < m' < |segs| ==> segs[m] != segs[m']
  {
    forall m, m' | 0 <= m < m' < |segs|
      ensures segs[m].q != segs[m'].q
    {
      var a, b, a', b' := blocks[m].0, blocks[m].1, blocks[m'].0, blocks[m'].1;
      if b > a' {
        NextBlock(slope, origin, copy, a, b, a', b');
      }
      var k :| 0 <= k < b - a && copy[a..b][k] == segs[m].q;
      var k' :| 0 <= k' < b' - a' && copy[a'..b'][k'] == segs[m'].q;
      assert copy[a + k] == segs[m].q && copy[a' + k'] == segs[m'].q;
    }
  }

  /** `Arrays.sort(copy, origin.slopeOrder())`: from the origin and the
      copy as it stands, the re-sorted copy. */
  type SortBy<!P> = (P, seq<P>) -> seq<P>

  /** Sorting only rearranges the copy. */
  ghost predicate Permutes<P(!new)>(sortBySlope: SortBy<P>)
  {
    forall origin, xs :: multiset(sortBySlope(origin, xs)) == multiset(xs)
  }

  /** The copy once the first `o` points have each re-sorted it. */
  function Copies<P>(sortBySlope: SortBy<P>, pts: seq<P>, o: nat): seq<P>
    requires o <= |pts|
    decreases o
  {
    if o == 0 then pts else sortBySlope(pts[o - 1], Copies(sortBySlope, pts, o - 1))
  }

  /** Every copy is a rearrangement of the points. */
  lemma {:induction false} CopiesPermutation<P(!new)>(sortBySlope: SortBy<P>, pts: seq<P>, o: nat)
    requires Permutes(sortBySlope) && o <= |pts|
    ensures multiset(Copies(sortBySlope, pts, o)) == multiset(pts)
    ensures |Copies(sortBySlope, pts, o)| == |pts|
    decreases o
  {
    if o > 0 {
      CopiesPermutation(sortBySlope, pts, o - 1);
      assert multiset(Copies(sortBySlope, pts, o)) == multiset(Copies(sortBySlope, pts, o - 1));
    }
    assert |multiset(Copies(sortBySlope, pts, o))| == |Copies(sortBySlope, pts, o)|;
  }

  /** Each segment comes from an eligible block of the copy one of the
      first `upto` origins sorted. */
  ghost predicate AllSound<P(!new)>(cmp: Compare<P>, slope: SlopeOf<P>, sortBySlope: SortBy<P>, pts: seq<P>,
                                    segs: seq<Segment<P>>, upto: nat)
    requires upto <= |pts|
  {
    forall m :: 0 <= m < |segs| ==>
      exists o :: 0 <= o < upto && FromBlock(cmp, slope, pts[o], Copies(sortBySlope, pts, o + 1), segs[m])
  }

  /** Each eligible block of the copy of each of the first `upto` origins
      has its segment among `segs`. */
  ghost predicate AllComplete<P(!new)>(cmp: Compare<P>, slope: SlopeOf<P>, sortBySlope: SortBy<P>, pts: seq<P>,
                                       segs: seq<Segment<P>>, upto: nat)
    requires upto <= |pts|
  {
    forall o :: 0 <= o < upto ==>
      ScanComplete(cmp, slope, pts[o], Copies(sortBySlope, pts, o + 1), segs, |pts|)
  }

  /** The segments of several lists, one list after another. */
  function Concat<T>(xss: seq<seq<T>>): (r: seq<T>)
  {
    if xss == [] then [] else Concat(xss[..|xss| - 1]) + xss[|xss| - 1]
  }

  /** `perOrigin[o]` is the scan listing of the copy the `o`-th origin
      sorted, with `blocks[o]` the blocks it comes from, for each of the
      first `upto` origins. */
  ghost predicate ListedUpTo<P(!new)>(cmp: Compare<P>, slope: SlopeOf<P>, sortBySlope: SortBy<P>, pts: seq<P>,
                                      perOrigin: seq<seq<Segment<P>>>, blocks: seq<seq<(int, int)>>, upto: nat)
  {
    && upto <= |pts| && |perOrigin| == upto && |blocks| == upto
    && forall o :: 0 <= o < upto ==>
         ScanListing(cmp, slope, pts[o], Copies(sortBySlope, pts, o + 1), perOrigin[o], blocks[o], |pts|)
  }

  /** The listing of every origin. */
  ghost predicate Listing<P(!new)>(cmp: Compare<P>, slope: SlopeOf<P>, sortBySlope: SortBy<P>, pts: seq<P>,
                                   perOrigin: seq<seq<Segment<P>>>, blocks: seq<seq<(int, int)>>)
  {
    ListedUpTo(cmp, slope, sortBySlope, pts, perOrigin, blocks, |pts|)
  }

  /** The constructor's `for (Point origin : points)` loop with no bound
      on the buffer: each point in input order re-sorts the copy by slope
      from it and the copy is scanned; the segments are the origins'
      listings one after another, and there are at most a third of
      `n * n` of them. */
  method Origins<P(!new)>(cmp: Compare<P>, slope: SlopeOf<P>, sortBySlope: SortBy<P>, pts: seq<P>)
    returns (segs: seq<Segment<P>>, ghost perOrigin: seq<seq<Segment<P>>>, ghost blocks: seq<seq<(int, int)>>)
    requires TotalOrder(cmp) && Permutes(sortBySlope)
    ensures Listing(cmp, slope, sortBySlope, pts, perOrigin, blocks) && segs == Concat(perOrigin)
    ensures 3 * |segs| <= |pts| * |pts|
    ensures AllSound(cmp, slope, sortBySlope, pts, segs, |pts|)
    ensures AllComplete(cmp, slope, sortBySlope, pts, segs, |pts|)
  {
    var n := |pts|;
    segs, perOrigin, blocks := [], [], [];
    var copy := pts;
    for o := 0 to n
      invariant copy == Copies(sortBySlope, pts, o)
      invariant 3 * |segs| <= o * n
      invariant ListedUpTo(cmp, slope, sortBySlope, pts, perOrigin, blocks, o) && segs == Concat(perOrigin)
      invariant AllSound(cmp, slope, sortBySlope, pts, segs, o)
      invariant AllComplete(cmp, slope, sortBySlope, pts, segs, o)
    {
      copy, segs, perOrigin, blocks := OriginNext(cmp, slope, sortBySlope, pts, o, copy, segs, perOrigin, blocks);
    }
  }

  /** One pass of the loop over the origins: the `o`-th point re-sorts the
      copy, and the scan of the copy is appended. */
  method OriginNext<P(!new)>(cmp: Compare<P>, slope: SlopeOf<P>, sortBySlope: SortBy<P>, pts: seq<P>, o: nat,
                             copy: seq<P>, segs: seq<Segment<P>>,
                             ghost perOrigin: seq<seq<Segment<P>>>, ghost blocks: seq<seq<(int, int)>>)
    returns (copy': seq<P>, segs': seq<Segment<P>>,
             ghost perOrigin': seq<seq<Segment<P>>>, ghost blocks': seq<seq<(int, int)>>)
    requires TotalOrder(cmp) && Permutes(sortBySlope) && o < |pts|
    requires copy == Copies(sortBySlope, pts, o) && 3 * |segs| <= o * |pts|
    requires ListedUpTo(cmp, slope, sortBySlope, pts, perOrigin, blocks, o) && segs == Concat(perOrigin)
    requires AllSound(cmp, slope, sortBySlope, pts, segs, o) && AllComplete(cmp, slope, sortBySlope, pts, segs, o)
    ensures copy' == Copies(sortBySlope, pts, o + 1) && 3 * |segs'| <= (o + 1) * |pts|
    ensures ListedUpTo(cmp, slope, sortBySlope, pts, perOrigin', blocks', o + 1) && segs' == Concat(perOrigin')
    ensures AllSound(cmp, slope, sortBySlope, pts, segs', o + 1)
    ensures AllComplete(cmp, slope, sortBySlope, pts, segs', o + 1)
  {
    copy' := sortBySlope(pts[o], copy);
    CopiesPermutation(sortBySlope, pts, o + 1);
    var found;
    ghost var found';
    found, found' := Scan(cmp, slope, pts[o], copy');
    OriginStep(cmp, slope, sortBySlope, pts, segs, found, o);
    assert (o + 1) * |pts| == o * |pts| + |pts|;
    assert (perOrigin + [found])[..o] == perOrigin;
    segs', perOrigin', blocks' := segs + found, perOrigin + [found], blocks + [found'];
  }

  /** The constructor: validate, allocate `n * n` slots (a Java `int`
      product), then run the loop over the origins, which throws on the
      first segment that does not fit.  Below 46341 points the product is
      exact and the buffer never fills up; from there on it can wrap to a
      negative size or to too few slots. */
  method FastCollinearPoints<P(!new)>(cmp: Compare<P>, slope: SlopeOf<P>, sortBySlope: SortBy<P>,
                                      points: Option<seq<Option<P>>>)
    returns (r: Result<seq<Segment<P>>, Failure>, ghost perOrigin: seq<seq<Segment<P>>>,
             ghost blocks: seq<seq<(int, int)>>)
    requires TotalOrder(cmp) && Permutes(sortBySlope)
    ensures (r.Err? && r.error.Invalid?) <==> Validate(cmp, points).Err?
    ensures r.Err? && r.error.Invalid? ==> r.error.error == Validate(cmp, points).error
    ensures r == Err(NegativeArraySize) <==>
              Validate(cmp, points).Ok? && Int(|points.value| * |points.value|) < 0
    ensures Validate(cmp, points).Ok? && 0 <= Int(|points.value| * |points.value|) ==>
              Listing(cmp, slope, sortBySlope, Validate(cmp, points).value, perOrigin, blocks)
    ensures r == Err(IndexOutOfBounds) <==>
              && Validate(cmp, points).Ok? && 0 <= Int(|points.value| * |points.value|)
              && Int(|points.value| * |points.value|) < |Concat(perOrigin)|
    ensures Validate(cmp, points).Ok? && |points.value| <= 46340 ==> r.Ok?
    ensures r.Ok? ==> && r.value == Concat(perOrigin)
                      && |r.value| <= Int(|points.value| * |points.value|)
    ensures r.Ok? ==> var pts := Validate(cmp, points).value;
                      && AllSound(cmp, slope, sortBySlope, pts, r.value, |pts|)
                      && AllComplete(cmp, slope, sortBySlope, pts, r.value, |pts|)
    ensures r.Ok? ==> var pts := Validate(cmp, points).value;
                      forall m :: 0 <= m < |r.value| ==>
                        r.value[m].p in pts && r.value[m].q in pts && cmp(r.value[m].p, r.value[m].q) < 0
  {
    perOrigin, blocks := [], [];
    match Validate(cmp, points)
    case Err(e) =>
      r := Err(Invalid(e));
    case Ok(pts) =>
      var n := |pts|;
      var size := Int(n * n);
      IntSquare(n);
      if size < 0 {
        r := Err(NegativeArraySize);
      } else {
        var segs;
        segs, perOrigin, blocks := Origins(cmp, slope, sortBySlope, pts);
        if |segs| > size {
          r := Err(IndexOutOfBounds);
        } else {
          SegmentsProper(cmp, slope, sortBySlope, pts, segs);
          r := Ok(segs);
        }
      }
  }

  /** The loop invariant of the constructor carried over one origin. */
  lemma OriginStep<P(!new)>(cmp: Compare<P>, slope: SlopeOf<P>, sortBySlope: SortBy<P>, pts: seq<P>,
                            segs: seq<Segment<P>>, found: seq<Segment<P>>, o: nat)
    requires o < |pts|
    requires AllSound(cmp, slope, sortBySlope, pts, segs, o) && AllComplete(cmp, slope, sortBySlope, pts, segs, o)
    requires ScanSound(cmp, slope, pts[o], Copies(sortBySlope, pts, o + 1), found)
    requires ScanComplete(cmp, slope, pts[o], Copies(sortBySlope, pts, o + 1), found, |pts|)
    ensures AllSound(cmp, slope, sortBySlope, pts, segs + found, o + 1)
    ensures AllComplete(cmp, slope, sortBySlope, pts, segs + found, o + 1)
  {
    var all := segs + found;
    forall m | 0 <= m < |all|
      ensures exists o' :: 0 <= o' < o + 1 && FromBlock(cmp, slope, pts[o'], Copies(sortBySlope, pts, o' + 1), all[m])
    {
      if m < |segs| {
        assert all[m] == segs[m];
        var o' :| 0 <= o' < o && FromBlock(cmp, slope, pts[o'], Copies(sortBySlope, pts, o' + 1), segs[m]);
      } else {
        assert all[m] == found[m - |segs|];
        assert FromBlock(cmp, slope, pts[o], Copies(sortBySlope, pts, o + 1), all[m]);
      }
    }
    forall o' | 0 <= o' < o + 1
      ensures ScanComplete(cmp, slope, pts[o'], Copies(sortBySlope, pts, o' + 1), all, |pts|)
    {
      if o' < o {
        CompleteAppend(cmp, slope, pts[o'], Copies(sortBySlope, pts, o' + 1), segs, found, |pts|, true);
      } else {
        CompleteAppend(cmp, slope, pts[o'], Copies(sortBySlope, pts, o' + 1), segs, found, |pts|, false);
      }
    }
  }

  /** Appending keeps the segments of either part. */
  lemma CompleteAppend<P(!new)>(cmp: Compare<P>, slope: SlopeOf<P>, origin: P, copy: seq<P>,
                                left: seq<Segment<P>>, right: seq<Segment<P>>, upto: int, fromLeft: bool)
    requires fromLeft ==> ScanComplete(cmp, slope, origin, copy, left, upto)
    requires !fromLeft ==> ScanComplete(cmp, slope, origin, copy, right, upto)
    ensures ScanComplete(cmp, slope, origin, copy, left + right, upto)
  {
    var all := left + right;
    forall a, b | a < upto && Eligible(cmp, slope, origin, copy, a, b)
      ensures exists m :: 0 <= m < |all| && SegmentOf(cmp, origin, copy, a, b, all[m])
    {
      if fromLeft {
        var m :| 0 <= m < |left| && SegmentOf(cmp, origin, copy, a, b, left[m]);
        assert all[m] == left[m];
      } else {
        var m :| 0 <= m < |right| && SegmentOf(cmp, origin, copy, a, b, right[m]);
        assert all[|left| + m] == right[m];
      }
    }
  }

  /** A segment of an eligible block of a rearrangement of the points
      joins two input points, the origin first and smaller. */
  lemma BlockSegmentProper<P(!new)>(cmp: Compare<P>, slope: SlopeOf<P>, pts: seq<P>, origin: P, copy: seq<P>,
                                    s: Segment<P>)
    requires TotalOrder(cmp) && origin in pts && multiset(copy) == multiset(pts)
    requires FromBlock(cmp, slope, origin, copy, s)
    ensures s.p in pts && s.q in pts && cmp(s.p, s.q) < 0
  {
    var a, b :| Eligible(cmp, slope, origin, copy, a, b) && SegmentOf(cmp, origin, copy, a, b, s);
    var j :| 0 <= j < b - a && copy[a..b][j] == s.q;
    assert copy[a + j] == s.q;
    assert s.q in multiset(copy);
    assert cmp(copy[a + j], origin) > 0;
  }

  /** Every segment the constructor keeps joins two input points, the
      smaller first. */
  lemma SegmentsProper<P(!new)>(cmp: Compare<P>, slope: SlopeOf<P>, sortBySlope: SortBy<P>, pts: seq<P>,
                                segs: seq<Segment<P>>)
    requires TotalOrder(cmp) && Permutes(sortBySlope)
    requires AllSound(cmp, slope, sortBySlope, pts, segs, |pts|)
    ensures forall m :: 0 <= m < |segs| ==> segs[m].p in pts && segs[m].q in pts && cmp(segs[m].p, segs[m].q) < 0
  {
    forall m | 0 <= m < |segs|
      ensures segs[m].p in pts && segs[m].q in pts && cmp(segs[m].p, segs[m].q) < 0
    {
      var v := segs[m];
      var o :| 0 <= o < |pts| && FromBlock(cmp, slope, pts[o], Copies(sortBySlope, pts, o + 1), v);
      CopiesPermutation(sortBySlope, pts, o + 1);
      BlockSegmentProper(cmp, slope, pts, pts[o], Copies(sortBySlope, pts, o + 1), v);
    }
  }
}

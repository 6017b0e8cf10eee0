/** The circular suffix array of the Burrows-Wheeler transform
    (burrows/CircularSuffixArray.java): the rotations of a string, listed by
    their starting positions in lexicographic order.  The order is computed by
    a 3-way radix quicksort on characters at increasing depth, with insertion
    sort for short ranges.  The int array of the source is a `seq<nat>`, and
    each mutating helper returns the updated sequence. */
module CircularSuffixArray {
  import opened Wrappers
  import JavaInt
  import opened Sequences

  /** CUTOFF: ranges of at most CUTOFF + 1 entries go to insertion sort. */
  const Cutoff: int := 15

  datatype Error = NullArgument | InvalidIndex

  /** A Java `char`: one UTF-16 code unit, ordered as an unsigned 16-bit
      number. */
  newtype CodeUnit = c: int | 0 <= c < 0x1_0000

  /** A Java `String` as `length()` and `charAt` see it: its sequence of
      UTF-16 code units, so a character outside the Basic Multilingual
      Plane counts as two and a lone surrogate is an ordinary unit. */
  type JavaString = seq<CodeUnit>

  // ---------------------------------------------------------------------
  // Rotations and their order

  /** The rotation of `s` that starts at position `x`. */
  function Rotation(s: JavaString, x: nat): (r: JavaString)
    requires x < |s|
    ensures |r| == |s|
  {
    s[x..] + s[..x]
  }

  /** `k % n` for non-negative `k`, as repeated subtraction; Java's `%`
      agrees with it on non-negative operands. */
  function Wrap(k: nat, n: nat): (r: nat)
    requires n > 0
    ensures r < n
    decreases k
  {
    if k < n then k else Wrap(k - n, n)
  }

  lemma {:induction false} WrapIsMod(k: nat, n: nat)
    requires n > 0
    ensures Wrap(k, n) == k % n
    decreases k
  {
    if k >= n {
      WrapIsMod(k - n, n);
      JavaInt.DivModUnique(k, n, (k - n) / n + 1, (k - n) % n);
    }
  }

  /** charAt: character `d` of the rotation starting at `x`, read circularly
      at `(x + d) % |s|`; `d` may exceed the length. */
  function CharAt(s: JavaString, x: nat, d: nat): CodeUnit
    requires |s| > 0
  {
    s[Wrap(x + d, |s|)]
  }

  /** charAt reads the rotation at `x`, depth taken modulo the length. */
  lemma CharAtRotation(s: JavaString, x: nat, d: nat)
    requires x < |s|
    ensures CharAt(s, x, d) == Rotation(s, x)[d % |s|]
  {
    var n := |s|;
    var m := d % n;
    WrapIsMod(x + d, n);
    if x + m < n {
      JavaInt.DivModUnique(x + d, n, d / n, x + m);
    } else {
      JavaInt.DivModUnique(x + d, n, d / n + 1, x + m - n);
    }
  }

  /** Java's `String.compareTo(u, v) < 0`: the first differing character is
      smaller in `u`, or `u` is a proper prefix of `v`. */
  predicate LexLess(u: JavaString, v: JavaString)
  {
    if |u| == 0 then |v| > 0
    else if |v| == 0 then false
    else if u[0] != v[0] then u[0] < v[0]
    else LexLess(u[1..], v[1..])
  }

  /** less: compares the rotations at `x` and `y` character by character from
      depth `d` up to the length, and is false when they agree throughout. */
  predicate LessFrom(s: JavaString, x: nat, y: nat, d: nat)
    decreases |s| - d
  {
    if d >= |s| then false
    else if CharAt(s, x, d) < CharAt(s, y, d) then true
    else if CharAt(s, x, d) > CharAt(s, y, d) then false
    else LessFrom(s, x, y, d + 1)
  }

  /** `less` from depth `d` is the lexicographic order of the rotations with
      their first `d` characters dropped. */
  lemma {:induction false} LessFromIsLex(s: JavaString, x: nat, y: nat, d: nat)
    requires x < |s| && y < |s| && d <= |s|
    ensures LessFrom(s, x, y, d) == LexLess(Rotation(s, x)[d..], Rotation(s, y)[d..])
    decreases |s| - d
  {
    if d < |s| {
      RotationFrom(s, x, d);
      RotationFrom(s, y, d);
      LessFromIsLex(s, x, y, d + 1);
    }
  }

  /** The rotation at `x` from depth `d < |s|` starts with charAt's
      character and goes on with the rotation from depth `d + 1`. */
  lemma RotationFrom(s: JavaString, x: nat, d: nat)
    requires x < |s| && d < |s|
    ensures Rotation(s, x)[d..][0] == CharAt(s, x, d)
    ensures Rotation(s, x)[d..][1..] == Rotation(s, x)[d + 1..]
  {
    assert d % |s| == d;
    CharAtRotation(s, x, d);
  }

  /** From depth 0, `less` is exactly `String.compareTo` on the two rotations,
      the order `Arrays.sort` uses. */
  lemma LessIsLex(s: JavaString, x: nat, y: nat)
    requires x < |s| && y < |s|
    ensures LessFrom(s, x, y, 0) == LexLess(Rotation(s, x), Rotation(s, y))
  {
    LessFromIsLex(s, x, y, 0);
    assert Rotation(s, x)[0..] == Rotation(s, x);
    assert Rotation(s, y)[0..] == Rotation(s, y);
  }

  /** `less` is false for rotations that are equal as strings. */
  lemma LessEqualRotations(s: JavaString, x: nat, y: nat)
    requires x < |s| && y < |s| && Rotation(s, x) == Rotation(s, y)
    ensures !LessFrom(s, x, y, 0)
  {
    LessIsLex(s, x, y);
    LexIrreflexive(Rotation(s, x));
  }

  lemma {:induction false} LexIrreflexive(u: JavaString)
    ensures !LexLess(u, u)
    decreases |u|
  {
    if |u| > 0 {
      LexIrreflexive(u[1..]);
    }
  }

  /** `less` is asymmetric. */
  lemma {:induction false} LessAsymmetric(s: JavaString, x: nat, y: nat, d: nat)
    requires LessFrom(s, x, y, d)
    ensures !LessFrom(s, y, x, d)
    decreases |s| - d
  {
    if CharAt(s, x, d) == CharAt(s, y, d) {
      LessAsymmetric(s, x, y, d + 1);
    }
  }

  /** "Not less" is transitive, so `less` is a strict weak order. */
  lemma {:induction false} NotLessTransitive(s: JavaString, x: nat, y: nat, z: nat, d: nat)
    requires !LessFrom(s, y, x, d) && !LessFrom(s, z, y, d)
    ensures !LessFrom(s, z, x, d)
    decreases |s| - d
  {
    if d < |s| && CharAt(s, x, d) == CharAt(s, y, d) == CharAt(s, z, d) {
      NotLessTransitive(s, x, y, z, d + 1);
    }
  }

  /** The rotations at `x` and `y` share their first `d` characters. */
  predicate Agree(s: JavaString, x: nat, y: nat, d: nat)
    requires |s| > 0
    decreases d
  {
    d == 0 || (Agree(s, x, y, d - 1) && CharAt(s, x, d - 1) == CharAt(s, y, d - 1))
  }

  lemma {:induction false} AgreeAt(s: JavaString, x: nat, y: nat, d: nat, k: nat)
    requires |s| > 0 && Agree(s, x, y, d) && k < d
    ensures CharAt(s, x, k) == CharAt(s, y, k)
    decreases d
  {
    if k < d - 1 {
      AgreeAt(s, x, y, d - 1, k);
    }
  }

  /** Rotations that share their first `d` characters compare the same from
      depth `d` as from depth 0, even when `d` exceeds the length. */
  lemma AgreeLess(s: JavaString, x: nat, y: nat, d: nat)
    requires |s| > 0 && Agree(s, x, y, d)
    ensures LessFrom(s, x, y, d) == LessFrom(s, x, y, 0)
  {
    AgreeLessFrom(s, x, y, 0, d);
  }

  lemma {:induction false} AgreeLessFrom(s: JavaString, x: nat, y: nat, k: nat, d: nat)
    requires |s| > 0 && Agree(s, x, y, d) && k <= d
    ensures LessFrom(s, x, y, d) == LessFrom(s, x, y, k)
    decreases d - k
  {
    if k < d && k < |s| {
      AgreeAt(s, x, y, d, k);
      AgreeLessFrom(s, x, y, k + 1, d);
    }
  }

  /** Characters repeat with period `|s|`. */
  lemma CharAtPeriodic(s: JavaString, x: nat, d: nat)
    requires |s| > 0 && d >= |s|
    ensures CharAt(s, x, d) == CharAt(s, x, d - |s|)
  {
  }

  /** Two rotations that share their first `d` characters and differ at
      depth `d` are ordered by that character. */
  lemma CharDecides(s: JavaString, x: nat, y: nat, d: nat)
    requires |s| > 0 && Agree(s, x, y, d) && CharAt(s, x, d) < CharAt(s, y, d)
    ensures LessFrom(s, x, y, 0) && !LessFrom(s, y, x, 0)
  {
    if d >= |s| {
      CharAtPeriodic(s, x, d);
      CharAtPeriodic(s, y, d);
      AgreeAt(s, x, y, d, d - |s|);
      assert false;
    }
    AgreeLess(s, x, y, d);
    AgreeSym(s, x, y, d);
    AgreeLess(s, y, x, d);
  }

  lemma {:induction false} AgreeSym(s: JavaString, x: nat, y: nat, d: nat)
    requires |s| > 0 && Agree(s, x, y, d)
    ensures Agree(s, y, x, d)
    decreases d
  {
    if d > 0 {
      AgreeSym(s, x, y, d - 1);
    }
  }

  /** Sharing a prefix with a common reference is transitive. */
  lemma {:induction false} AgreeVia(s: JavaString, x: nat, y: nat, r: nat, d: nat)
    requires |s| > 0 && Agree(s, x, r, d) && Agree(s, y, r, d)
    ensures Agree(s, x, y, d)
    decreases d
  {
    if d > 0 {
      AgreeVia(s, x, y, r, d - 1);
    }
  }

  /** Rotations that share `d` characters with `p` through `r`, and match
      `p` at depth `d`, share `d + 1` characters with `p`. */
  lemma AgreeExtend(s: JavaString, x: nat, p: nat, r: nat, d: nat)
    requires |s| > 0 && Agree(s, x, r, d) && Agree(s, p, r, d)
    requires CharAt(s, x, d) == CharAt(s, p, d)
    ensures Agree(s, x, p, d + 1)
  {
    AgreeVia(s, x, p, r, d);
  }

  // ---------------------------------------------------------------------
  // The index array

  /** `b` rearranges the entries of `a` in `[lo, hi)` and keeps the rest. */
  ghost predicate SameRange(a: seq<nat>, b: seq<nat>, lo: nat, hi: nat)
  {
    && |a| == |b| && lo <= hi <= |a|
    && a[..lo] == b[..lo] && a[hi..] == b[hi..]
    && multiset(a) == multiset(b)
  }

  /** A swap inside a range keeps a rearrangement a rearrangement. */
  lemma SwapStep(a: seq<nat>, b: seq<nat>, i: nat, j: nat, lo: nat, hi: nat)
    requires SameRange(a, b, lo, hi) && lo <= i < hi && lo <= j < hi
    ensures SameRange(a, Swap(b, i, j), lo, hi)
  {
    var b' := Swap(b, i, j);
    assert b'[..lo] == b[..lo];
    assert b'[hi..] == b[hi..];
    assert b' == b[i := b[j]][j := b[i]];
  }

  /** A rearrangement of a sub-range rearranges every range around it. */
  lemma Widen(a: seq<nat>, b: seq<nat>, lo: nat, hi: nat, lo': nat, hi': nat)
    requires SameRange(a, b, lo, hi) && lo' <= lo && hi <= hi' <= |a|
    ensures SameRange(a, b, lo', hi')
  {
    assert a[..lo'] == a[..lo][..lo'] && b[..lo'] == b[..lo][..lo'];
    assert a[hi'..] == a[hi..][hi' - hi..] && b[hi'..] == b[hi..][hi' - hi..];
  }

  /** The rearranged range holds the same multiset of entries. */
  lemma SliceMultiset(a: seq<nat>, b: seq<nat>, lo: nat, hi: nat)
    requires SameRange(a, b, lo, hi)
    ensures multiset(a[lo..hi]) == multiset(b[lo..hi])
  {
    assert a == a[..lo] + a[lo..hi] + a[hi..];
    assert b == b[..lo] + b[lo..hi] + b[hi..];
    assert multiset(a) == multiset(a[..lo]) + multiset(a[lo..hi]) + multiset(a[hi..]);
    assert multiset(b) == multiset(a[..lo]) + multiset(b[lo..hi]) + multiset(a[hi..]);
    forall o
      ensures multiset(a[lo..hi])[o] == multiset(b[lo..hi])[o]
    {
      assert multiset(a)[o] == multiset(b)[o];
    }
  }

  /** Every entry of a rearranged range came from that range. */
  lemma Source(a: seq<nat>, b: seq<nat>, lo: nat, hi: nat, k: nat) returns (m: nat)
    requires SameRange(a, b, lo, hi) && lo <= k < hi
    ensures lo <= m < hi && b[k] == a[m]
  {
    SliceMultiset(a, b, lo, hi);
    assert b[k] == b[lo..hi][k - lo];
    assert b[k] in multiset(a[lo..hi]);
    var m' :| 0 <= m' < hi - lo && a[lo..hi][m'] == b[k];
    m := lo + m';
  }

  /** `a` and `b` hold the same entries in `[i, j)`. */
  ghost predicate Copied(a: seq<nat>, b: seq<nat>, i: nat, j: nat)
  {
    |a| == |b| && i <= j <= |a| && forall k :: i <= k < j ==> a[k] == b[k]
  }

  /** Entries outside a rearranged range are copied. */
  lemma Untouched(a: seq<nat>, b: seq<nat>, lo: nat, hi: nat, i: nat, j: nat)
    requires SameRange(a, b, lo, hi) && i <= j <= |a| && (j <= lo || hi <= i)
    ensures Copied(a, b, i, j)
  {
    forall k | i <= k < j
      ensures a[k] == b[k]
    {
      if j <= lo {
        assert a[k] == a[..lo][k] && b[k] == b[..lo][k];
      } else {
        assert a[k] == a[hi..][k - hi] && b[k] == b[hi..][k - hi];
      }
    }
  }

  /** No entry of `[lo, hi)` is followed by one whose rotation is smaller. */
  ghost predicate Sorted(s: JavaString, a: seq<nat>, lo: nat, hi: nat)
    requires hi <= |a|
  {
    forall i, j :: lo <= i < j < hi ==> !LessFrom(s, a[j], a[i], 0)
  }

  /** Every entry of `[lo, hi)` shares its first `d` characters with `r`. */
  ghost predicate Shared(s: JavaString, a: seq<nat>, lo: nat, hi: nat, r: nat, d: nat)
    requires |s| == |a| && hi <= |a|
  {
    forall k :: lo <= k < hi ==> Agree(s, a[k], r, d)
  }

  /** How character `d` of a rotation compares with the pivot. */
  datatype Side = Below | Equal | Above

  predicate OnSide(c: CodeUnit, pivot: CodeUnit, side: Side)
  {
    match side
    case Below => c < pivot
    case Equal => c == pivot
    case Above => c > pivot
  }

  /** Character `d` of every entry of `[lo, hi)` lies on `side` of the pivot. */
  ghost predicate Band(s: JavaString, a: seq<nat>, lo: nat, hi: nat, d: nat, pivot: CodeUnit, side: Side)
    requires |s| == |a| && hi <= |a|
  {
    forall k :: lo <= k < hi ==> OnSide(CharAt(s, a[k], d), pivot, side)
  }

  /** A band copied from `a0` into `a`, rearranged into `b`, and then copied
      into `c`, keeps its
      shared prefix, its side of the pivot, and its order. */
  lemma Carry(s: JavaString, a0: seq<nat>, a: seq<nat>, b: seq<nat>, c: seq<nat>, lo: nat, hi: nat, r: nat, d: nat, pivot: CodeUnit, side: Side)
    requires |a0| == |s| && Copied(a0, a, lo, hi) && SameRange(a, b, lo, hi) && Copied(b, c, lo, hi)
    requires Shared(s, a0, lo, hi, r, d) && Band(s, a0, lo, hi, d, pivot, side)
    ensures Shared(s, c, lo, hi, r, d) && Band(s, c, lo, hi, d, pivot, side)
    ensures Sorted(s, b, lo, hi) ==> Sorted(s, c, lo, hi)
  {
    forall k | lo <= k < hi
      ensures Agree(s, c[k], r, d) && OnSide(CharAt(s, c[k], d), pivot, side)
    {
      var m := Source(a, b, lo, hi, k);
    }
  }

  /** Prefix sharing survives a rearrangement of the range. */
  lemma SharedKept(s: JavaString, a: seq<nat>, b: seq<nat>, lo: nat, hi: nat, r: nat, d: nat)
    requires |s| == |a| && SameRange(a, b, lo, hi) && Shared(s, a, lo, hi, r, d)
    ensures Shared(s, b, lo, hi, r, d)
  {
    forall k | lo <= k < hi
      ensures Agree(s, b[k], r, d)
    {
      var m := Source(a, b, lo, hi, k);
    }
  }

  // ---------------------------------------------------------------------
  // insertion

  /** Sorted except for the entry at position `j`. */
  ghost predicate SortedBut(s: JavaString, a: seq<nat>, lo: nat, hi: nat, j: nat)
    requires hi <= |a|
  {
    forall p, q :: lo <= p < q < hi && p != j && q != j ==> !LessFrom(s, a[q], a[p], 0)
  }

  /** One pass of insertion's inner loop: the entry at `i` moves left past
      every entry whose rotation is larger, comparing from depth `d`. */
  method Sink(s: JavaString, a: seq<nat>, lower: nat, i: nat, upper: nat, d: nat, ghost r: nat) returns (b: seq<nat>)
    requires |a| == |s| && lower <= i <= upper < |a|
    requires Shared(s, a, lower, upper + 1, r, d) && Sorted(s, a, lower, i)
    ensures SameRange(a, b, lower, upper + 1) && Shared(s, b, lower, upper + 1, r, d)
    ensures Sorted(s, b, lower, i + 1)
  {
    b := a;
    var j := i;
    while j > lower && LessFrom(s, b[j], b[j - 1], d)
      invariant lower <= j <= i && SameRange(a, b, lower, upper + 1)
      invariant Shared(s, b, lower, upper + 1, r, d)
      invariant SortedBut(s, b, lower, i + 1, j)
      invariant forall q :: j < q <= i ==> LessFrom(s, b[j], b[q], 0)
    {
      var b' := Swap(b, j, j - 1);
      SinkStep(s, a, b, b', lower, i, upper, j, r, d);
      b := b';
      j := j - 1;
    }
    SinkDone(s, b, lower, i, upper, j, r, d);
  }

  /** One swap of the inner loop keeps its invariant. */
  lemma SinkStep(s: JavaString, a: seq<nat>, b: seq<nat>, b': seq<nat>, lower: nat, i: nat, upper: nat, j: nat, r: nat, d: nat)
    requires |b| == |s| && lower < j <= i <= upper < |b| && b' == Swap(b, j, j - 1)
    requires SameRange(a, b, lower, upper + 1)
    requires Shared(s, b, lower, upper + 1, r, d) && SortedBut(s, b, lower, i + 1, j)
    requires forall q :: j < q <= i ==> LessFrom(s, b[j], b[q], 0)
    requires LessFrom(s, b[j], b[j - 1], d)
    ensures SameRange(a, b', lower, upper + 1)
    ensures Shared(s, b', lower, upper + 1, r, d)
    ensures SortedBut(s, b', lower, i + 1, j - 1)
    ensures forall q :: j - 1 < q <= i ==> LessFrom(s, b'[j - 1], b'[q], 0)
  {
    AgreeVia(s, b[j], b[j - 1], r, d);
    AgreeLess(s, b[j], b[j - 1], d);
    SwapStep(a, b, j, j - 1, lower, upper + 1);
    SwapShared(s, b, b', lower, upper + 1, j, r, d);
    SinkOrder(s, b, b', lower, i, j);
  }

  /** Swapping two neighbours of a range keeps its shared prefix. */
  lemma SwapShared(s: JavaString, b: seq<nat>, b': seq<nat>, lo: nat, hi: nat, j: nat, r: nat, d: nat)
    requires |b| == |s| && lo < j < hi <= |b| && b' == Swap(b, j, j - 1)
    requires Shared(s, b, lo, hi, r, d)
    ensures Shared(s, b', lo, hi, r, d)
  {
    forall k | lo <= k < hi
      ensures Agree(s, b'[k], r, d)
    {
      if k == j {
        assert b'[k] == b[j - 1];
      } else if k == j - 1 {
        assert b'[k] == b[j];
      } else {
        assert b'[k] == b[k];
      }
    }
  }

  /** Moving the entry at `j` one place left keeps the inner loop's order
      invariant. */
  lemma SinkOrder(s: JavaString, b: seq<nat>, b': seq<nat>, lower: nat, i: nat, j: nat)
    requires lower < j <= i < |b| && b' == Swap(b, j, j - 1)
    requires SortedBut(s, b, lower, i + 1, j)
    requires forall q :: j < q <= i ==> LessFrom(s, b[j], b[q], 0)
    requires LessFrom(s, b[j], b[j - 1], 0)
    ensures SortedBut(s, b', lower, i + 1, j - 1)
    ensures forall q :: j - 1 < q <= i ==> LessFrom(s, b'[j - 1], b'[q], 0)
  {
    forall p, q | lower <= p < q <= i && p != j - 1 && q != j - 1
      ensures !LessFrom(s, b'[q], b'[p], 0)
    {
      var p' := if p == j then j - 1 else p;
      var q' := if q == j then j - 1 else q;
      assert b'[p] == b[p'] && b'[q] == b[q'];
    }
  }

  /** When the moving entry stops, the prefix up to `i` is sorted. */
  lemma SinkDone(s: JavaString, b: seq<nat>, lower: nat, i: nat, upper: nat, j: nat, r: nat, d: nat)
    requires |b| == |s| && lower <= j <= i <= upper < |b| && SortedBut(s, b, lower, i + 1, j)
    requires Shared(s, b, lower, upper + 1, r, d)
    requires forall q :: j < q <= i ==> LessFrom(s, b[j], b[q], 0)
    requires j > lower ==> !LessFrom(s, b[j], b[j - 1], d)
    ensures Sorted(s, b, lower, i + 1)
  {
    if j > lower {
      AgreeVia(s, b[j], b[j - 1], r, d);
      AgreeLess(s, b[j], b[j - 1], d);
    }
    forall p, q | lower <= p < q <= i
      ensures !LessFrom(s, b[q], b[p], 0)
    {
      if q == j && p < j - 1 {
        NotLessTransitive(s, b[p], b[j - 1], b[j], 0);
      } else if p == j {
        LessAsymmetric(s, b[j], b[q], 0);
      }
    }
  }

  /** insertion: sorts `[lower, upper]`, all of whose rotations share their
      first `d` characters. */
  method Insertion(s: JavaString, a: seq<nat>, lower: nat, upper: int, d: nat, ghost r: nat) returns (b: seq<nat>)
    requires |a| == |s| && lower <= upper + 1 <= |a|
    requires Shared(s, a, lower, upper + 1, r, d)
    ensures SameRange(a, b, lower, upper + 1) && Sorted(s, b, lower, upper + 1)
  {
    b := a;
    var i := lower;
    while i <= upper
      invariant lower <= i <= upper + 1
      invariant SameRange(a, b, lower, upper + 1) && Shared(s, b, lower, upper + 1, r, d)
      invariant Sorted(s, b, lower, i)
    {
      b := Sink(s, b, lower, i, upper, d, r);
      i := i + 1;
    }
  }

  // ---------------------------------------------------------------------
  // sort

  /** The state of the partition loop: `[lower, lt)` below the pivot,
      `[lt, i)` equal to it, `(gt, upper]` above it, `[i, gt]` not yet seen. */
  ghost predicate Partitioned(s: JavaString, a: seq<nat>, b: seq<nat>, lower: nat, upper: nat, lt: nat, i: nat, gt: int, d: nat, pivot: CodeUnit)
  {
    && |a| == |s| && lower <= lt < i <= gt + 1 <= upper + 1 <= |a|
    && SameRange(a, b, lower, upper + 1)
    && (forall k :: lower <= k < lt ==> CharAt(s, b[k], d) < pivot)
    && (forall k :: lt <= k < i ==> CharAt(s, b[k], d) == pivot)
    && (forall k :: gt < k <= upper ==> CharAt(s, b[k], d) > pivot)
  }

  /** A larger character is swapped to the end of the unseen part. */
  lemma PartitionAbove(s: JavaString, a: seq<nat>, b: seq<nat>, lower: nat, upper: nat, lt: nat, i: nat, gt: nat, d: nat, pivot: CodeUnit)
    requires Partitioned(s, a, b, lower, upper, lt, i, gt, d, pivot) && i <= gt
    requires CharAt(s, b[i], d) > pivot
    ensures Partitioned(s, a, Swap(b, i, gt), lower, upper, lt, i, gt - 1, d, pivot)
  {
    SwapStep(a, b, i, gt, lower, upper + 1);
  }

  /** A smaller character is swapped to the end of the lower part. */
  lemma PartitionBelow(s: JavaString, a: seq<nat>, b: seq<nat>, lower: nat, upper: nat, lt: nat, i: nat, gt: nat, d: nat, pivot: CodeUnit)
    requires Partitioned(s, a, b, lower, upper, lt, i, gt, d, pivot) && i <= gt
    requires CharAt(s, b[i], d) < pivot
    ensures Partitioned(s, a, Swap(b, i, lt), lower, upper, lt + 1, i + 1, gt, d, pivot)
  {
    SwapStep(a, b, i, lt, lower, upper + 1);
  }

  /** An equal character extends the middle part. */
  lemma PartitionEqual(s: JavaString, a: seq<nat>, b: seq<nat>, lower: nat, upper: nat, lt: nat, i: nat, gt: nat, d: nat, pivot: CodeUnit)
    requires Partitioned(s, a, b, lower, upper, lt, i, gt, d, pivot) && i <= gt
    requires CharAt(s, b[i], d) == pivot
    ensures Partitioned(s, a, b, lower, upper, lt, i + 1, gt, d, pivot)
  {
  }

  /** The loop's final state, as the three bands of rotations. */
  lemma PartitionDone(s: JavaString, a: seq<nat>, b: seq<nat>, lower: nat, upper: nat, lt: nat, gt: nat, d: nat, pivot: CodeUnit)
    requires Partitioned(s, a, b, lower, upper, lt, gt + 1, gt, d, pivot)
    ensures Band(s, b, lower, lt, d, pivot, Below)
    ensures Band(s, b, lt, gt + 1, d, pivot, Equal)
    ensures Band(s, b, gt + 1, upper + 1, d, pivot, Above)
  {
  }

  /** The 3-way partition of sort at depth `d` around the character of the
      first entry: entries below the pivot end in `[lower, lt)`, equal ones
      in `[lt, gt]` and larger ones in `(gt, upper]`. */
  method Partition(s: JavaString, a: seq<nat>, lower: nat, upper: nat, d: nat) returns (b: seq<nat>, lt: nat, gt: nat)
    requires |a| == |s| && lower < upper < |a|
    ensures SameRange(a, b, lower, upper + 1) && lower <= lt <= gt <= upper
    ensures Band(s, b, lower, lt, d, CharAt(s, a[lower], d), Below)
    ensures Band(s, b, lt, gt + 1, d, CharAt(s, a[lower], d), Equal)
    ensures Band(s, b, gt + 1, upper + 1, d, CharAt(s, a[lower], d), Above)
  {
    var pivot := CharAt(s, a[lower], d);
    b, lt, gt := a, lower, upper;
    var i := lower + 1;
    while i <= gt
      invariant Partitioned(s, a, b, lower, upper, lt, i, gt, d, pivot)
      decreases gt + 1 - i
    {
      var c := CharAt(s, b[i], d);
      if c > pivot {
        PartitionAbove(s, a, b, lower, upper, lt, i, gt, d, pivot);
        b := Swap(b, i, gt);
        gt := gt - 1;
      } else if c < pivot {
        PartitionBelow(s, a, b, lower, upper, lt, i, gt, d, pivot);
        b := Swap(b, i, lt);
        i, lt := i + 1, lt + 1;
      } else {
        PartitionEqual(s, a, b, lower, upper, lt, i, gt, d, pivot);
        i := i + 1;
      }
    }
    PartitionDone(s, a, b, lower, upper, lt, gt, d, pivot);
  }

  /** After the partition, the bands below and above the pivot still share
      `d` characters with `r`, and the band equal to the pivot shares `d + 1`
      characters with the pivot's rotation `p`. */
  lemma Split(s: JavaString, a: seq<nat>, a1: seq<nat>, lower: nat, lt: nat, gt: nat, upper: nat, p: nat, r: nat, d: nat)
    requires |a| == |s| && lower <= lt <= gt <= upper < |a| && p == a[lower]
    requires SameRange(a, a1, lower, upper + 1) && Shared(s, a, lower, upper + 1, r, d)
    requires Band(s, a1, lt, gt + 1, d, CharAt(s, p, d), Equal)
    ensures Shared(s, a1, lower, upper + 1, r, d)
    ensures Shared(s, a1, lower, lt, r, d)
    ensures Shared(s, a1, lt, gt + 1, p, d + 1)
    ensures Shared(s, a1, gt + 1, upper + 1, r, d)
  {
    SharedKept(s, a, a1, lower, upper + 1, r, d);
    assert Agree(s, p, r, d);
    forall k | lt <= k <= gt
      ensures Agree(s, a1[k], p, d + 1)
    {
      AgreeExtend(s, a1[k], p, r, d);
    }
  }

  /** A shared prefix is kept by entries copied unchanged. */
  lemma SharedCopy(s: JavaString, a: seq<nat>, b: seq<nat>, lo: nat, hi: nat, r: nat, d: nat)
    requires |a| == |s| && Copied(a, b, lo, hi) && Shared(s, a, lo, hi, r, d)
    ensures Shared(s, b, lo, hi, r, d)
  {
  }

  /** Sorting the band below the pivot leaves the other two bands, and their
      shared prefixes, in place. */
  lemma AfterBelow(s: JavaString, a1: seq<nat>, a2: seq<nat>, lower: nat, lt: nat, gt: nat, upper: nat, p: nat, r: nat, d: nat)
    requires |a1| == |s| && lower <= lt <= gt <= upper < |a1| && SameRange(a1, a2, lower, lt)
    requires Shared(s, a1, lt, gt + 1, p, d + 1) && Shared(s, a1, gt + 1, upper + 1, r, d)
    ensures Shared(s, a2, lt, gt + 1, p, d + 1) && Shared(s, a2, gt + 1, upper + 1, r, d)
  {
    Untouched(a1, a2, lower, lt, lt, gt + 1);
    SharedCopy(s, a1, a2, lt, gt + 1, p, d + 1);
    Untouched(a1, a2, lower, lt, gt + 1, upper + 1);
    SharedCopy(s, a1, a2, gt + 1, upper + 1, r, d);
  }

  /** Sorting the band equal to the pivot leaves the band above it in place. */
  lemma AfterEqual(s: JavaString, a2: seq<nat>, a3: seq<nat>, lt: nat, gt: nat, upper: nat, r: nat, d: nat)
    requires |a2| == |s| && lt <= gt <= upper < |a2| && SameRange(a2, a3, lt, gt + 1)
    requires Shared(s, a2, gt + 1, upper + 1, r, d)
    ensures Shared(s, a3, gt + 1, upper + 1, r, d)
  {
    Untouched(a2, a3, lt, gt + 1, gt + 1, upper + 1);
    SharedCopy(s, a2, a3, gt + 1, upper + 1, r, d);
  }

  /** Three sorted bands that share a prefix of `d` characters and are split
      by character `d` form one sorted range. */
  lemma JoinSorted(s: JavaString, a: seq<nat>, lower: nat, lt: nat, gt: nat, upper: nat, r: nat, d: nat, pivot: CodeUnit)
    requires |a| == |s| && lower <= lt <= gt + 1 <= upper + 1 <= |a|
    requires Shared(s, a, lower, lt, r, d) && Shared(s, a, lt, gt + 1, r, d) && Shared(s, a, gt + 1, upper + 1, r, d)
    requires Band(s, a, lower, lt, d, pivot, Below) && Sorted(s, a, lower, lt)
    requires Band(s, a, lt, gt + 1, d, pivot, Equal) && Sorted(s, a, lt, gt + 1)
    requires Band(s, a, gt + 1, upper + 1, d, pivot, Above) && Sorted(s, a, gt + 1, upper + 1)
    ensures Sorted(s, a, lower, upper + 1)
  {
    forall i, j | lower <= i < j <= upper && ((i < lt && lt <= j) || (i <= gt && gt < j))
      ensures !LessFrom(s, a[j], a[i], 0)
    {
      assert Agree(s, a[i], r, d) && Agree(s, a[j], r, d);
      assert CharAt(s, a[i], d) < CharAt(s, a[j], d);
      AgreeVia(s, a[i], a[j], r, d);
      CharDecides(s, a[i], a[j], d);
    }
  }

  /** The partition and the three recursive calls of sort together
      rearrange the range. */
  lemma SortRearranges(a: seq<nat>, a1: seq<nat>, a2: seq<nat>, a3: seq<nat>, a4: seq<nat>, lower: nat, lt: nat, gt: nat, upper: nat)
    requires lower <= lt <= gt <= upper < |a|
    requires SameRange(a, a1, lower, upper + 1) && SameRange(a1, a2, lower, lt)
    requires SameRange(a2, a3, lt, gt + 1) && SameRange(a3, a4, gt + 1, upper + 1)
    ensures SameRange(a, a4, lower, upper + 1)
  {
    Widen(a1, a2, lower, lt, lower, upper + 1);
    Widen(a2, a3, lt, gt + 1, lower, upper + 1);
    Widen(a3, a4, gt + 1, upper + 1, lower, upper + 1);
  }

  /** The three recursive calls of sort leave sorted bands that join into a
      sorted range. */
  lemma SortJoin(s: JavaString, a1: seq<nat>, a2: seq<nat>, a3: seq<nat>, a4: seq<nat>,
                 lower: nat, lt: nat, gt: nat, upper: nat, r: nat, d: nat, pivot: CodeUnit)
    requires |a1| == |s| && lower <= lt <= gt <= upper < |a1| && Shared(s, a1, lower, upper + 1, r, d)
    requires SameRange(a1, a2, lower, lt) && SameRange(a2, a3, lt, gt + 1) && SameRange(a3, a4, gt + 1, upper + 1)
    requires Band(s, a1, lower, lt, d, pivot, Below)
    requires Band(s, a1, lt, gt + 1, d, pivot, Equal)
    requires Band(s, a1, gt + 1, upper + 1, d, pivot, Above)
    requires Sorted(s, a2, lower, lt) && Sorted(s, a3, lt, gt + 1) && Sorted(s, a4, gt + 1, upper + 1)
    ensures Sorted(s, a4, lower, upper + 1)
  {
    Untouched(a2, a3, lt, gt + 1, lower, lt);
    Untouched(a3, a4, gt + 1, upper + 1, lower, lt);
    Carry(s, a1, a1, a2, a4, lower, lt, r, d, pivot, Below);
    Untouched(a1, a2, lower, lt, lt, gt + 1);
    Untouched(a3, a4, gt + 1, upper + 1, lt, gt + 1);
    Carry(s, a1, a2, a3, a4, lt, gt + 1, r, d, pivot, Equal);
    Untouched(a1, a2, lower, lt, gt + 1, upper + 1);
    Untouched(a2, a3, lt, gt + 1, gt + 1, upper + 1);
    Carry(s, a1, a3, a4, a4, gt + 1, upper + 1, r, d, pivot, Above);
    JoinSorted(s, a4, lower, lt, gt, upper, r, d, pivot);
  }

  /** Every character of `s` is the same. */
  predicate Constant(s: JavaString)
  {
    forall k :: 0 <= k < |s| ==> s[k] == s[0]
  }

  /** In a string of one repeated character the partition leaves the whole
      range in the band equal to the pivot. */
  lemma PartitionWhole(s: JavaString, b: seq<nat>, lower: nat, lt: nat, gt: nat, upper: nat, d: nat, pivot: CodeUnit)
    requires |b| == |s| && lower <= lt <= gt <= upper < |b| && Constant(s) && pivot == s[0]
    requires Band(s, b, lower, lt, d, pivot, Below) && Band(s, b, gt + 1, upper + 1, d, pivot, Above)
    ensures lt == lower && gt == upper
  {
    assert CharAt(s, b[lower], d) == pivot && CharAt(s, b[upper], d) == pivot;
  }

  /** sort: the 3-way radix quicksort of `[lower, upper]` at depth `d`, whose
      rotations share their first `d` characters.  The source recurses with
      no bound on `d`, and does not return on a range of more than CUTOFF + 1
      equal rotations; `fuel` bounds the nesting of partition steps, and
      `done` is false when it ran out.  The range is always rearranged, and
      sorted whenever `done` holds. */
  method Sort(s: JavaString, a: seq<nat>, lower: nat, upper: int, d: nat, ghost r: nat, fuel: nat) returns (b: seq<nat>, done: bool)
    requires |a| == |s| && lower <= upper + 1 <= |a|
    requires Shared(s, a, lower, upper + 1, r, d)
    ensures SameRange(a, b, lower, upper + 1)
    ensures done ==> Sorted(s, b, lower, upper + 1)
    ensures Constant(s) && upper > lower + Cutoff ==> !done
    decreases fuel
  {
    if upper <= lower + Cutoff {
      b := Insertion(s, a, lower, upper, d, r);
      done := true;
    } else if fuel == 0 {
      b, done := a, false;
    } else {
      ghost var p := a[lower];
      var pivot := CharAt(s, a[lower], d);
      var a1, lt, gt := Partition(s, a, lower, upper, d);
      Split(s, a, a1, lower, lt, gt, upper, p, r, d);
      if Constant(s) {
        PartitionWhole(s, a1, lower, lt, gt, upper, d, pivot);
      }
      var a2, done1 := Sort(s, a1, lower, lt as int - 1, d, r, fuel - 1);
      AfterBelow(s, a1, a2, lower, lt, gt, upper, p, r, d);
      var a3, done2 := Sort(s, a2, lt, gt, d + 1, p, fuel - 1);
      AfterEqual(s, a2, a3, lt, gt, upper, r, d);
      var a4, done3 := Sort(s, a3, gt + 1, upper, d, r, fuel - 1);
      SortRearranges(a, a1, a2, a3, a4, lower, lt, gt, upper);
      b, done := a4, done1 && done2 && done3;
      if done {
        SortJoin(s, a1, a2, a3, a4, lower, lt, gt, upper, r, d, pivot);
      }
    }
  }

  /** Rotations sharing at least `|s|` characters with one reference are
      equal, so any order of them is sorted. */
  lemma EqualBandSorted(s: JavaString, a: seq<nat>, lo: nat, hi: nat, p: nat, n: nat)
    requires |a| == |s| && lo <= hi <= |a| && Shared(s, a, lo, hi, p, n) && n >= |s|
    ensures Sorted(s, a, lo, hi)
  {
    forall i, j | lo <= i < j < hi
      ensures !LessFrom(s, a[j], a[i], 0)
    {
      AgreeVia(s, a[j], a[i], p, n);
      AgreeLess(s, a[j], a[i], n);
    }
  }

  /** sort with the band equal to the pivot sorted further only while its
      shared prefix is shorter than the string.  The recursion ends: every
      call either deepens the shared prefix or works on a shorter range, and
      the range is always sorted. */
  method SortBounded(s: JavaString, a: seq<nat>, lower: nat, upper: int, d: nat, ghost r: nat) returns (b: seq<nat>)
    requires |a| == |s| && lower <= upper + 1 <= |a|
    requires Shared(s, a, lower, upper + 1, r, d)
    ensures SameRange(a, b, lower, upper + 1) && Sorted(s, b, lower, upper + 1)
    decreases if d < |s| then |s| - d else 0, upper + 1 - lower
  {
    if upper <= lower + Cutoff {
      b := Insertion(s, a, lower, upper, d, r);
    } else {
      ghost var p := a[lower];
      var pivot := CharAt(s, a[lower], d);
      var a1, lt, gt := Partition(s, a, lower, upper, d);
      Split(s, a, a1, lower, lt, gt, upper, p, r, d);
      var a2 := SortBounded(s, a1, lower, lt as int - 1, d, r);
      AfterBelow(s, a1, a2, lower, lt, gt, upper, p, r, d);
      var a3 := a2;
      if d + 1 < |s| {
        a3 := SortBounded(s, a2, lt, gt, d + 1, p);
      } else {
        EqualBandSorted(s, a2, lt, gt + 1, p, d + 1);
      }
      AfterEqual(s, a2, a3, lt, gt, upper, r, d);
      var a4 := SortBounded(s, a3, gt + 1, upper, d, r);
      SortRearranges(a, a1, a2, a3, a4, lower, lt, gt, upper);
      SortJoin(s, a1, a2, a3, a4, lower, lt, gt, upper, r, d, pivot);
      b := a4;
    }
  }

  // ---------------------------------------------------------------------
  // The suffix array

  /** The fields of a constructed CircularSuffixArray; `order` is its `array`. */
  datatype Suffixes = Suffixes(data: JavaString, length: nat, order: seq<nat>)

  /** The identity order `0, 1, ..., n - 1` the constructor starts from. */
  function Iota(n: nat): (a: seq<nat>)
    ensures |a| == n && forall i :: 0 <= i < n ==> a[i] == i
  {
    seq(n, i requires 0 <= i < n => i)
  }

  /** The array lists every rotation index once, in the order of the
      rotations as strings. */
  ghost predicate Valid(sa: Suffixes)
  {
    && sa.length == |sa.data| && |sa.order| == sa.length
    && multiset(sa.order) == multiset(Iota(sa.length))
    && (forall i :: 0 <= i < |sa.order| ==> sa.order[i] < sa.length)
    && (forall i, j :: 0 <= i < j < |sa.order| ==>
          !LexLess(Rotation(sa.data, sa.order[j]), Rotation(sa.data, sa.order[i])))
  }

  /** The entries of a rearranged identity order are indices of the string. */
  lemma Bounded(a: seq<nat>, n: nat)
    requires multiset(a) == multiset(Iota(n))
    ensures forall i :: 0 <= i < |a| ==> a[i] < n
  {
    forall i | 0 <= i < |a|
      ensures a[i] < n
    {
      assert a[i] in multiset(a);
      var m :| 0 <= m < n && Iota(n)[m] == a[i];
    }
  }

  /** A range sorted by `less` lists its rotations in string order. */
  lemma SortedRotations(s: JavaString, a: seq<nat>)
    requires |a| == |s| && Sorted(s, a, 0, |a|)
    requires forall i :: 0 <= i < |a| ==> a[i] < |s|
    ensures forall i, j :: 0 <= i < j < |a| ==> !LexLess(Rotation(s, a[j]), Rotation(s, a[i]))
  {
    forall i, j | 0 <= i < j < |a|
      ensures !LexLess(Rotation(s, a[j]), Rotation(s, a[i]))
    {
      LessIsLex(s, a[j], a[i]);
    }
  }

  /** The constructor: a null string is rejected; otherwise the identity
      order of the rotations is sorted. */
  method New(s: Option<JavaString>) returns (r: Result<Suffixes, Error>)
    ensures r.Err? <==> s.None?
    ensures r.Err? ==> r.error == NullArgument
    ensures r.Ok? ==> r.value.data == s.value && Valid(r.value)
  {
    if s.None? {
      return Err(NullArgument);
    }
    var t := s.value;
    var a := Iota(|t|);
    var b := SortBounded(t, a, 0, |t| - 1, 0, 0);
    Bounded(b, |t|);
    SortedRotations(t, b);
    r := Ok(Suffixes(t, |t|, b));
  }

  /** length: the length of the string. */
  function Length(sa: Suffixes): (n: nat)
    requires Valid(sa)
    ensures n == |sa.data| && n == |sa.order|
  {
    sa.length
  }

  /** index: the rotation in sorted position `i`, after the range check. */
  function Index(sa: Suffixes, i: int): (r: Result<nat, Error>)
    requires Valid(sa)
    ensures r.Err? <==> !(0 <= i < |sa.data|)
    ensures r.Err? ==> r.error == InvalidIndex
    ensures r.Ok? ==> r.value < |sa.data| && r.value == sa.order[i]
  {
    if i < 0 || i >= sa.length then Err(InvalidIndex) else Ok(sa.order[i])
  }
}

/** The 8-puzzle board (8Puzzle/src/Board.java).  The n-by-n grid of tiles is
    stored row-major in a flat sequence, 0 standing for the blank.  A board
    also caches its Hamming and Manhattan distances and the index of the blank;
    the caches are computed from scratch by the constructor and updated
    incrementally whenever a neighbour or the twin swaps two tiles. */
module EightPuzzle {
  import opened Wrappers
  import opened Matrix
  import opened JavaInt
  import opened Sequences

  /** The constructor's failures: a null argument, and the two ways the
      allocation `new short[n * n]` fails once `n * n` wraps in `int`. */
  datatype Error = NullArgument | NegativeArraySize | IndexOutOfBounds

  /** The fields of a board: tiles, cached metrics, dimension and blank index. */
  datatype Board = Board(tiles: seq<int>, hamming: int, manhattan: int, dimension: nat, zero: int)

  /** Tile `t` at position `k` counts as out of place: it is not the blank and
      is not tile number `k + 1`. */
  predicate Misplaced(t: int, k: int)
  {
    t != 0 && t != k + 1
  }

  /** Grid distance from position `k` to the goal position `t - 1` of tile
      `t`; the goal row and column use Java's truncating `/` and `%`, and
      `t - 1` is an `int` difference. */
  function Distance(t: int, k: nat, n: nat): nat
    requires n > 0
  {
    Abs(RowOf(k, n) - Quot(Int(t - 1), n)) + Abs(ColOf(k, n) - Rem(Int(t - 1), n))
  }

  datatype Metric = Hamming | Manhattan

  /** What position `k`, holding tile `t`, adds to a metric. */
  function Term(m: Metric, t: int, k: nat, n: nat): nat
    requires n > 0
  {
    if !Misplaced(t, k) then 0
    else match m
      case Hamming => 1
      case Manhattan => Distance(t, k, n)
  }

  /** The metric summed over the first `upto` positions. */
  function Sum(m: Metric, tiles: seq<int>, n: nat, upto: nat): nat
    requires n > 0 && upto <= |tiles|
  {
    if upto == 0 then 0 else Sum(m, tiles, n, upto - 1) + Term(m, tiles[upto - 1], upto - 1, n)
  }

  /** The metric of a whole board, as the constructor computes it from scratch. */
  function Measure(m: Metric, tiles: seq<int>, n: nat): nat
    requires n > 0
  {
    Sum(m, tiles, n, |tiles|)
  }

  /** A board whose caches agree with its tiles.  The tile array's length
      is an `int`, and the Manhattan cache is an `int` sum, so it holds the
      metric wrapped to 32 bits. */
  predicate Consistent(b: Board)
  {
    && b.dimension > 0
    && |b.tiles| == Cells(b.dimension) < 0x8000_0000
    && 0 <= b.zero < |b.tiles|
    && b.tiles[b.zero] == 0
    && b.hamming == Measure(Hamming, b.tiles, b.dimension)
    && b.manhattan == Int(Measure(Manhattan, b.tiles, b.dimension))
  }


  // ---------------------------------------------------------------------
  // Row-major positions, by repeated addition so that no proof below needs
  // non-linear arithmetic

  /** Position `i * n + j` of an n-column grid. */
  function Pos(i: nat, j: nat, n: nat): nat
  {
    if i == 0 then j else Pos(i - 1, j, n) + n
  }

  /** Number of cells of an n-by-n grid. */
  function Cells(n: nat): nat
  {
    Pos(n, 0, n)
  }

  /** Row of position `k` in an n-column grid. */
  function RowOf(k: nat, n: nat): nat
    requires n > 0
    decreases k
  {
    if k < n then 0 else RowOf(k - n, n) + 1
  }

  /** Column of position `k` in an n-column grid. */
  function ColOf(k: nat, n: nat): nat
    requires n > 0
    decreases k
  {
    if k < n then k else ColOf(k - n, n)
  }

  lemma {:induction false} PosShift(i: nat, j: nat, n: nat)
    ensures Pos(i, j, n) == Pos(i, 0, n) + j
  {
    if i > 0 {
      PosShift(i - 1, j, n);
    }
  }

  /** Row and column of `Pos(i, j, n)` are `i` and `j`. */
  lemma {:induction false} PosCoordinates(i: nat, j: nat, n: nat)
    requires j < n
    ensures RowOf(Pos(i, j, n), n) == i && ColOf(Pos(i, j, n), n) == j
  {
    if i > 0 {
      PosCoordinates(i - 1, j, n);
    }
  }

  /** Every position is `Pos` of its row and column. */
  lemma {:induction false} Decompose(k: nat, n: nat)
    requires n > 0
    ensures ColOf(k, n) < n && k == Pos(RowOf(k, n), ColOf(k, n), n)
    decreases k
  {
    if k >= n {
      Decompose(k - n, n);
    }
  }

  /** A cell of row `i < m` lies before the start of row `m`. */
  lemma {:induction false} PosBound(i: nat, j: nat, n: nat, m: nat)
    requires j < n && i < m
    ensures Pos(i, j, n) < Pos(m, 0, n)
    decreases i
  {
    if i > 0 {
      PosBound(i - 1, j, n, m - 1);
    }
  }

  /** A position before the start of row `m` lies in a row before `m`. */
  lemma {:induction false} RowBound(k: nat, n: nat, m: nat)
    requires n > 0 && k < Pos(m, 0, n)
    ensures RowOf(k, n) < m
    decreases k
  {
    if k >= n {
      RowBound(k - n, n, m - 1);
    }
  }

  lemma {:induction false} PosIsProduct(i: nat, j: nat, n: nat)
    ensures Pos(i, j, n) == i * n + j
  {
    if i > 0 {
      PosIsProduct(i - 1, j, n);
      assert (i - 1) * n + n == i * n;
    }
  }

  /** `Cells(n)` is `n * n`. */
  lemma CellsIsSquare(n: nat)
    ensures Cells(n) == n * n
  {
    PosIsProduct(n, 0, n);
  }

  /** Java's `k / n` and `k % n` on a position are its row and column. */
  lemma DivIsRow(k: nat, n: nat)
    requires n > 0
    ensures k / n == RowOf(k, n) && k % n == ColOf(k, n)
  {
    Decompose(k, n);
    PosIsProduct(RowOf(k, n), ColOf(k, n), n);
    DivModUnique(k, n, RowOf(k, n), ColOf(k, n));
  }

  /** Positions `s` and `z` are horizontally or vertically next to each other. */
  predicate GridAdjacent(s: nat, z: nat, n: nat)
    requires n > 0
  {
    Abs(RowOf(s, n) - RowOf(z, n)) + Abs(ColOf(s, n) - ColOf(z, n)) == 1
  }

  // ---------------------------------------------------------------------
  // Constructor

  /** The blocks concatenated row by row. */
  function Flatten(bs: seq<seq<int>>): seq<int>
  {
    if |bs| == 0 then [] else bs[0] + Flatten(bs[1..])
  }

  lemma {:induction false} FlattenLength(bs: seq<seq<int>>, n: nat)
    requires IsRect(bs, |bs|, n)
    ensures |Flatten(bs)| == Pos(|bs|, 0, n)
  {
    if |bs| > 0 {
      FlattenLength(bs[1..], n);
    }
  }

  /** Entry `(i, j)` of the blocks is entry `Pos(i, j, n)` of the flat board. */
  lemma {:induction false} FlattenIndex(bs: seq<seq<int>>, n: nat, i: nat, j: nat)
    requires IsRect(bs, |bs|, n) && i < |bs| && j < n
    ensures Pos(i, j, n) < |Flatten(bs)| == Pos(|bs|, 0, n)
    ensures Flatten(bs)[Pos(i, j, n)] == bs[i][j]
  {
    FlattenLength(bs, n);
    PosBound(i, j, n, |bs|);
    if i > 0 {
      FlattenIndex(bs[1..], n, i - 1, j);
    }
  }

  predicate IsSquare(bs: seq<seq<int>>)
  {
    IsRect(bs, |bs|, |bs|)
  }

  /** Some cell holds a value whose short cast is the blank. */
  predicate HasBlank(bs: seq<seq<int>>)
  {
    exists i, j :: 0 <= i < |bs| && 0 <= j < |bs[i]| && Short(bs[i][j]) == 0
  }

  predicate FitsShort(bs: seq<seq<int>>)
  {
    forall i, j :: 0 <= i < |bs| && 0 <= j < |bs[i]| ==> -0x8000 <= bs[i][j] < 0x8000
  }

  /** The short cast applied to every tile. */
  function Narrow(flat: seq<int>): (s: seq<int>)
    ensures |s| == |flat| && forall k :: 0 <= k < |flat| ==> s[k] == Short(flat[k])
  {
    seq(|flat|, k requires 0 <= k < |flat| => Short(flat[k]))
  }

  /** `flat` lists the n-by-n `blocks` in row-major order. */
  ghost predicate RowMajorOf(flat: seq<int>, blocks: seq<seq<int>>, n: nat)
  {
    && IsRect(blocks, n, n) && |flat| == Cells(n)
    && forall i, j :: 0 <= i < n && 0 <= j < n ==> Pos(i, j, n) < |flat| && flat[Pos(i, j, n)] == blocks[i][j]
  }

  lemma FlattenIsRowMajor(blocks: seq<seq<int>>)
    requires IsSquare(blocks)
    ensures RowMajorOf(Flatten(blocks), blocks, |blocks|)
  {
    var n := |blocks|;
    FlattenLength(blocks, n);
    forall i, j | 0 <= i < n && 0 <= j < n
      ensures Pos(i, j, n) < |Flatten(blocks)| && Flatten(blocks)[Pos(i, j, n)] == blocks[i][j]
    {
      FlattenIndex(blocks, n, i, j);
    }
  }

  /** calculateHamming: one pass over the blocks, counting misplaced tiles.
      The board has fewer than 2^31 cells, so neither the count nor the
      running goal number `block` wraps. */
  method CalculateHamming(blocks: seq<seq<int>>) returns (result: int)
    requires IsSquare(blocks) && |blocks| > 0 && Cells(|blocks|) < 0x8000_0000
    ensures result == Measure(Hamming, Flatten(blocks), |blocks|)
  {
    FlattenIsRowMajor(blocks);
    result := HammingScan(blocks, Flatten(blocks));
  }

  /** The double loop of calculateHamming over blocks listed by `flat`. */
  method HammingScan(blocks: seq<seq<int>>, ghost flat: seq<int>) returns (result: int)
    requires |blocks| > 0 && RowMajorOf(flat, blocks, |blocks|)
    ensures result == Measure(Hamming, flat, |blocks|)
  {
    var n := |blocks|;
    result := 0;
    var block := 1;
    var i := 0;
    while i < n
      invariant 0 <= i <= n && block == Pos(i, 0, n) + 1 && block - 1 <= |flat|
      invariant result == Sum(Hamming, flat, n, block - 1)
    {
      var j := 0;
      while j < n
        invariant 0 <= j <= n && block == Pos(i, j, n) + 1 && block - 1 <= |flat|
        invariant result == Sum(Hamming, flat, n, block - 1)
      {
        PosNext(i, j, n);
        var elem := blocks[i][j];
        if elem != 0 && elem != block {
          result := result + 1;
        }
        block := block + 1;
        j := j + 1;
      }
      PosShift(i, n, n);
      i := i + 1;
    }
    PosShift(n, 0, n);
  }

  /** calculateManhattan: one pass over the blocks, summing for each misplaced
      tile the row and column distance to its goal cell.  The sum is an `int`
      and wraps: the result is the exact metric brought into 32 bits. */
  method CalculateManhattan(blocks: seq<seq<int>>) returns (result: int)
    requires IsSquare(blocks) && |blocks| > 0 && Cells(|blocks|) < 0x8000_0000
    requires IntBlocks(blocks)
    ensures result == Int(Measure(Manhattan, Flatten(blocks), |blocks|))
  {
    FlattenIsRowMajor(blocks);
    result := ManhattanScan(blocks, Flatten(blocks));
  }

  /** Every block is a Java `int`. */
  predicate IntBlocks(bs: seq<seq<int>>)
  {
    forall i, j :: 0 <= i < |bs| && 0 <= j < |bs[i]| ==> -0x8000_0000 <= bs[i][j] < 0x8000_0000
  }

  /** The double loop of calculateManhattan over blocks listed by `flat`,
      in `int` arithmetic throughout. */
  method ManhattanScan(blocks: seq<seq<int>>, ghost flat: seq<int>) returns (result: int)
    requires |blocks| > 0 && RowMajorOf(flat, blocks, |blocks|) && Cells(|blocks|) < 0x8000_0000
    requires IntBlocks(blocks)
    ensures result == Int(Measure(Manhattan, flat, |blocks|))
  {
    var n := |blocks|;
    SmallDimension(n);
    result := 0;
    var i := 0;
    while i < n
      invariant 0 <= i <= n && Pos(i, 0, n) <= |flat|
      invariant result == Int(Sum(Manhattan, flat, n, Pos(i, 0, n)))
    {
      result := ManhattanRow(blocks, flat, i, result);
      i := i + 1;
    }
    PosShift(n, 0, n);
  }

  /** One pass of the outer loop of calculateManhattan: the inner loop over
      row `i`, adding each cell of the row to the wrapped sum. */
  method ManhattanRow(blocks: seq<seq<int>>, ghost flat: seq<int>, i: nat, result: int) returns (r: int)
    requires RowMajorOf(flat, blocks, |blocks|) && IntBlocks(blocks) && i < |blocks| <= 46340
    requires result == Int(Sum(Manhattan, flat, |blocks|, Pos(i, 0, |blocks|)))
    ensures Pos(i + 1, 0, |blocks|) <= |flat|
    ensures r == Int(Sum(Manhattan, flat, |blocks|, Pos(i + 1, 0, |blocks|)))
  {
    var n := |blocks|;
    r := result;
    var block := Pos(i, 0, n) + 1;
    var j := 0;
    while j < n
      invariant 0 <= j <= n && block == Pos(i, j, n) + 1 && block - 1 <= |flat|
      invariant r == Int(Sum(Manhattan, flat, n, block - 1))
    {
      PosNext(i, j, n);
      var elem := blocks[i][j];
      assert block <= |flat| && flat[block - 1] == elem;
      assert -0x8000_0000 <= elem < 0x8000_0000;
      r := ManhattanCell(r, elem, block, i, j, n, flat);
      block := block + 1;
      j := j + 1;
    }
    PosShift(i, n, n);
  }

  /** The body of the inner loop of calculateManhattan: `result` holds the
      wrapped sum so far, and afterwards holds it with cell `(i, j)` added. */
  method ManhattanCell(result: int, elem: int, block: int, i: nat, j: nat, n: nat, ghost flat: seq<int>) returns (r: int)
    requires i < n <= 46340 && j < n && block == Pos(i, j, n) + 1 && block <= |flat| && flat[block - 1] == elem
    requires -0x8000_0000 <= elem < 0x8000_0000 && result == Int(Sum(Manhattan, flat, n, block - 1))
    ensures r == Int(Sum(Manhattan, flat, n, block))
  {
    ghost var sum := Sum(Manhattan, flat, n, block - 1);
    r := result;
    if elem != 0 && elem != block {
      var elemI := Quot(Int(elem - 1), n);
      var elemJ := Rem(Int(elem - 1), n);
      assert Sum(Manhattan, flat, n, block) == sum + Abs(i - elemI) + Abs(j - elemJ) by {
        ManhattanTerm(elem, i, j, n);
      }
      var x, y := i - elemI, j - elemJ;
      assert -0x8000_0000 <= x <= 0x8000_0000 && -0x8000_0000 <= y <= 0x8000_0000 by {
        DifferenceBounds(Int(elem - 1), i, j, n);
      }
      ManhattanStep(sum, x, y);
      r := Int(r + Int(JavaAbs(Int(x)) + JavaAbs(Int(y))));
      assert r == Int(sum + Abs(x) + Abs(y));
    } else {
      assert Sum(Manhattan, flat, n, block) == sum by {
        ManhattanTerm(elem, i, j, n);
      }
    }
  }

  /** The Manhattan term of cell `(i, j)`, in the row and column form the
      constructor computes it in. */
  lemma ManhattanTerm(elem: int, i: nat, j: nat, n: nat)
    requires j < n
    ensures Term(Manhattan, elem, Pos(i, j, n), n)
         == if Misplaced(elem, Pos(i, j, n)) then Abs(i - Quot(Int(elem - 1), n)) + Abs(j - Rem(Int(elem - 1), n)) else 0
  {
    PosCoordinates(i, j, n);
  }

  /** A grid of fewer than 2^31 cells has at most 46340 rows. */
  lemma SmallDimension(n: nat)
    requires Cells(n) < 0x8000_0000
    ensures n <= 46340
  {
    CellsIsSquare(n);
    if n > 46340 {
      SquareAtLeast(n, 46341);
    }
  }

  /** Dividing an `int` by at least 2 leaves at most 2^30 either way. */
  lemma QuotHalf(e: int, n: int)
    requires -0x8000_0000 <= e < 0x8000_0000 && n >= 2
    ensures -0x4000_0000 <= Quot(e, n) <= 0x4000_0000
  {
    if e >= 0 {
      DivHalf(e, n);
    } else {
      DivHalf(-e, n);
    }
  }

  lemma DivHalf(a: nat, n: int)
    requires a <= 0x8000_0000 && n >= 2
    ensures a / n <= 0x4000_0000
  {
    var q := a / n;
    assert q * n <= a;
    if q > 0 {
      MulDistance(n, 1, q);
    }
  }

  /** The row and column differences inside `Math.abs` stay within 2^31 of
      0 for a cell of a board of at most 46340 rows. */
  lemma DifferenceBounds(e: int, i: nat, j: nat, n: nat)
    requires -0x8000_0000 <= e < 0x8000_0000 && i < n <= 46340 && j < n
    ensures -0x8000_0000 <= i - Quot(e, n) <= 0x8000_0000
    ensures -0x8000_0000 <= j - Rem(e, n) <= 0x8000_0000
  {
    if n >= 2 {
      QuotHalf(e, n);
    }
  }

  /** One `result += Math.abs(x) + Math.abs(y)` in `int` adds the exact
      distances modulo 2^32. */
  lemma ManhattanStep(sum: int, x: int, y: int)
    requires -0x8000_0000 <= x <= 0x8000_0000 && -0x8000_0000 <= y <= 0x8000_0000
    ensures Int(Int(sum) + Int(JavaAbs(Int(x)) + JavaAbs(Int(y)))) == Int(sum + Abs(x) + Abs(y))
  {
    IntAbs(x, JavaAbs(Int(y)));
    IntAbs(y, Abs(x));
    IntAdd(sum, Int(JavaAbs(Int(x)) + JavaAbs(Int(y))));
    IntAdd(Abs(x) + Abs(y), sum);
  }

  /** What the constructor stores for the given blocks: the short-cast tiles,
      the metrics of the blocks as given, and the last blank position. */
  predicate Built(blocks: seq<seq<int>>, b: Board)
    requires IsSquare(blocks) && |blocks| > 0
  {
    var flat := Flatten(blocks);
    && b.dimension == |blocks|
    && b.tiles == Narrow(flat)
    && b.hamming == Measure(Hamming, flat, |blocks|)
    && b.manhattan == Int(Measure(Manhattan, flat, |blocks|))
    && 0 <= b.zero < |b.tiles| && b.tiles[b.zero] == 0
    && forall k :: b.zero < k < |b.tiles| ==> b.tiles[k] != 0
  }

  /** The first `upto` tiles are the short casts of `flat`, and `zeroIndex`
      is the last blank among them, or -1. */
  ghost predicate Copied(tiles: seq<int>, zeroIndex: int, flat: seq<int>, upto: nat)
  {
    && |tiles| == upto <= |flat|
    && (forall k :: 0 <= k < upto ==> tiles[k] == Short(flat[k]))
    && -1 <= zeroIndex < upto && (zeroIndex != -1 ==> tiles[zeroIndex] == 0)
    && (forall k :: zeroIndex < k < upto ==> tiles[k] != 0)
  }

  lemma CopiedStep(tiles: seq<int>, zeroIndex: int, flat: seq<int>, upto: nat)
    requires Copied(tiles, zeroIndex, flat, upto) && upto < |flat|
    ensures Copied(tiles + [Short(flat[upto])], if Short(flat[upto]) == 0 then upto else zeroIndex, flat, upto + 1)
  {
  }

  lemma CopiedAll(tiles: seq<int>, zeroIndex: int, flat: seq<int>)
    requires Copied(tiles, zeroIndex, flat, |flat|)
    ensures tiles == Narrow(flat)
    ensures zeroIndex != -1 ==> 0 <= zeroIndex < |tiles| && tiles[zeroIndex] == 0
    ensures forall k :: zeroIndex < k < |tiles| ==> tiles[k] != 0
  {
  }

  /** The copy loop of the constructor: short-cast tiles in row-major order,
      and the index of the last blank, or -1 when there is none. */
  method CopyBlocks(bs: seq<seq<int>>, ghost flat: seq<int>) returns (tiles: seq<int>, zeroIndex: int)
    requires |bs| > 0 && RowMajorOf(flat, bs, |bs|)
    ensures tiles == Narrow(flat)
    ensures zeroIndex != -1 ==> 0 <= zeroIndex < |tiles| && tiles[zeroIndex] == 0
    ensures forall k :: zeroIndex < k < |tiles| ==> tiles[k] != 0
  {
    var n := |bs|;
    tiles := [];
    zeroIndex := -1;
    var index := 0;
    var i := 0;
    while i < n
      invariant 0 <= i <= n && index == Pos(i, 0, n)
      invariant Copied(tiles, zeroIndex, flat, index)
    {
      var j := 0;
      while j < n
        invariant 0 <= j <= n && index == Pos(i, j, n)
        invariant Copied(tiles, zeroIndex, flat, index)
      {
        PosNext(i, j, n);
        assert flat[index] == bs[i][j];
        CopiedStep(tiles, zeroIndex, flat, index);
        var elem := Short(bs[i][j]);
        if elem == 0 {
          zeroIndex := index;
        }
        tiles := tiles + [elem];
        index := index + 1;
        j := j + 1;
      }
      PosShift(i, n, n);
      i := i + 1;
    }
    PosShift(n, 0, n);
    CopiedAll(tiles, zeroIndex, flat);
  }

  /** The public constructor: rejects a null argument, otherwise copies the
      blocks row by row into `new short[n * n]` and records where the blank
      is.  The product is an `int`: once it wraps negative the allocation
      throws, and once it wraps to fewer than n * n cells the copy loop runs
      off the end.  The source computes both metrics before allocating; they
      cannot fail and nobody sees them when the allocation does, so the model
      allocates first. */
  method New(blocks: Option<seq<seq<int>>>) returns (r: Result<Board, Error>)
    requires blocks.Some? ==> IsSquare(blocks.value) && HasBlank(blocks.value) && IntBlocks(blocks.value)
    ensures r == Err(NullArgument) <==> blocks.None?
    ensures r == Err(NegativeArraySize) <==> blocks.Some? && Int(|blocks.value| * |blocks.value|) < 0
    ensures r == Err(IndexOutOfBounds) <==>
              blocks.Some? && 0 <= Int(|blocks.value| * |blocks.value|) < |blocks.value| * |blocks.value|
    ensures r.Ok? ==> 0 < |blocks.value| <= 46340 && Built(blocks.value, r.value)
    ensures r.Ok? && FitsShort(blocks.value) ==> Consistent(r.value)
  {
    if blocks.None? {
      return Err(NullArgument);
    }
    var bs := blocks.value;
    var n := |bs|;
    var size := Int(n * n);
    if size < 0 {
      return Err(NegativeArraySize);
    }
    IntSquare(n);
    if size < n * n {
      return Err(IndexOutOfBounds);
    }
    CellsIsSquare(n);
    SmallDimension(n);
    var hamming := CalculateHamming(bs);
    var manhattan := CalculateManhattan(bs);
    FlattenIsRowMajor(bs);
    var tiles, zeroIndex := CopyBlocks(bs, Flatten(bs));
    var b := Board(tiles, hamming, manhattan, n, zeroIndex);
    FlattenLength(bs, n);
    if FitsShort(bs) {
      NarrowFits(bs);
    }
    return Ok(b);
  }

  /** The constructor's Manhattan cache wraps as the source's `int` sum does:
      three tiles numbered 2^31 - 1 on a 2-by-2 board stand 3 * 2^30 - 3
      cells from their goal cells, and the cache holds that less 2^32. */
  lemma WrappedManhattan(b: Board)
    requires Built([[0, 0x7FFF_FFFF], [0x7FFF_FFFF, 0x7FFF_FFFF]], b)
    ensures b.manhattan == -0x4000_0003
  {
    var blocks: seq<seq<int>> := [[0, 0x7FFF_FFFF], [0x7FFF_FFFF, 0x7FFF_FFFF]];
    var flat: seq<int> := [0, 0x7FFF_FFFF, 0x7FFF_FFFF, 0x7FFF_FFFF];
    assert Flatten(blocks) == flat by {
      assert Flatten(blocks[1..]) == [0x7FFF_FFFF, 0x7FFF_FFFF] by {
        assert |blocks[1..][1..]| == 0;
      }
    }
    assert Int(0x7FFF_FFFF - 1) == 0x7FFF_FFFE;
    assert Quot(0x7FFF_FFFE, 2) == 0x3FFF_FFFF && Rem(0x7FFF_FFFE, 2) == 0;
    assert RowOf(1, 2) == 0 && ColOf(1, 2) == 1;
    assert RowOf(2, 2) == 1 && ColOf(2, 2) == 0;
    assert RowOf(3, 2) == 1 && ColOf(3, 2) == 1;
    assert Term(Manhattan, 0x7FFF_FFFF, 1, 2) == 0x4000_0000;
    assert Term(Manhattan, 0x7FFF_FFFF, 2, 2) == 0x3FFF_FFFE;
    assert Term(Manhattan, 0x7FFF_FFFF, 3, 2) == 0x3FFF_FFFF;
    assert Sum(Manhattan, flat, 2, 1) == 0;
    assert Sum(Manhattan, flat, 2, 2) == 0x4000_0000;
    assert Sum(Manhattan, flat, 2, 3) == 0x7FFF_FFFE;
    assert Sum(Manhattan, flat, 2, 4) == 3 * 0x4000_0000 - 3;
  }

  /** Blocks that fit in a short are stored unchanged. */
  lemma NarrowFits(bs: seq<seq<int>>)
    requires IsSquare(bs) && FitsShort(bs)
    ensures Narrow(Flatten(bs)) == Flatten(bs)
  {
    var flat := Flatten(bs);
    var n := |bs|;
    FlattenLength(bs, n);
    forall k | 0 <= k < |flat|
      ensures Short(flat[k]) == flat[k]
    {
      Decompose(k, n);
      RowBound(k, n, n);
      FlattenIndex(bs, n, RowOf(k, n), ColOf(k, n));
      ShortInRange(flat[k]);
    }
  }

  // ---------------------------------------------------------------------
  // Incremental metrics

  /** Writing `v` at position `k` changes a metric by the difference of the
      two terms at `k` and nowhere else. */
  lemma {:induction false} SumUpdate(m: Metric, tiles: seq<int>, n: nat, upto: nat, k: nat, v: int)
    requires n > 0 && upto <= |tiles| && k < |tiles|
    ensures Sum(m, tiles[k := v], n, upto) + (if k < upto then Term(m, tiles[k], k, n) else 0)
         == Sum(m, tiles, n, upto) + (if k < upto then Term(m, v, k, n) else 0)
    decreases upto
  {
    if upto > 0 {
      SumUpdate(m, tiles, n, upto - 1, k, v);
    }
  }

  /** Swapping two positions changes a metric only through the terms of the
      two tiles that moved. */
  lemma SwapMeasure(m: Metric, tiles: seq<int>, n: nat, i: nat, j: nat)
    requires n > 0 && i < |tiles| && j < |tiles| && i != j
    ensures Measure(m, Swap(tiles, i, j), n) + Term(m, tiles[i], i, n) + Term(m, tiles[j], j, n)
         == Measure(m, tiles, n) + Term(m, tiles[j], i, n) + Term(m, tiles[i], j, n)
  {
    var t1 := tiles[i := tiles[j]];
    SumUpdate(m, tiles, n, |tiles|, i, tiles[j]);
    SumUpdate(m, t1, n, |tiles|, j, tiles[i]);
    assert t1[j := tiles[i]] == Swap(tiles, i, j);
  }

  /** updateHamming: each of the two moved tiles either lands in place (one
      fewer), leaves its place (one more), or neither. */
  function UpdateHamming(b: Board, swapped: seq<int>, i: nat, j: nat): int
    requires i < |swapped| && j < |swapped| && i < |b.tiles| && j < |b.tiles|
  {
    var a := swapped[i];
    var c := swapped[j];
    var fromA := if a == 0 then 0 else if a == i + 1 then -1 else if b.tiles[j] == j + 1 then 1 else 0;
    var fromC := if c == 0 then 0 else if c == j + 1 then -1 else if b.tiles[i] == i + 1 then 1 else 0;
    b.hamming + fromA + fromC
  }

  /** Each cell adds at most one to the Hamming metric. */
  lemma {:induction false} HammingAtMost(tiles: seq<int>, n: nat, upto: nat)
    requires n > 0 && upto <= |tiles|
    ensures Sum(Hamming, tiles, n, upto) <= upto
    decreases upto
  {
    if upto > 0 {
      HammingAtMost(tiles, n, upto - 1);
    }
  }

  /** The Hamming cache of a board never exceeds its number of cells, so
      unlike the Manhattan cache it never wraps, and neither do the `++` and
      `--` of updateHamming. */
  lemma HammingFits(b: Board)
    requires Consistent(b)
    ensures 0 <= b.hamming <= |b.tiles| < 0x8000_0000
  {
    HammingAtMost(b.tiles, b.dimension, |b.tiles|);
  }

  /** distanceFactor: how much farther from its goal a tile stands at
      `currIndex` than at `prevIndex`.  For a short tile on a board of at most
      46340 rows no intermediate value leaves the `int` range. */
  function DistanceFactor(elem: int, currIndex: nat, prevIndex: nat, n: nat): int
    requires n > 0
  {
    var validRow := Quot(Int(elem - 1), n);
    var validCol := Rem(Int(elem - 1), n);
    var distance := Abs(currIndex / n - validRow) + Abs(currIndex % n - validCol);
    var prevDistance := Abs(prevIndex / n - validRow) + Abs(prevIndex % n - validCol);
    distance - prevDistance
  }

  /** updateManhattan: add, with `int` `+=`, the distance factor of each
      moved non-blank tile. */
  function UpdateManhattan(b: Board, swapped: seq<int>, i: nat, j: nat): int
    requires b.dimension > 0
    requires i < |swapped| && j < |swapped|
  {
    var a := swapped[i];
    var c := swapped[j];
    var result := if a != 0 then Int(b.manhattan + DistanceFactor(a, i, j, b.dimension)) else b.manhattan;
    if c != 0 then Int(result + DistanceFactor(c, j, i, b.dimension)) else result
  }

  /** A tile in its goal cell is at distance 0 from it. */
  lemma InPlaceDistance(t: int, k: nat, n: nat)
    requires n > 0 && t == k + 1 && k < 0x8000_0000
    ensures Distance(t, k, n) == 0
  {
    DivIsRow(k, n);
  }

  /** The incremental Hamming update equals the metric recomputed on the
      swapped tiles. */
  lemma UpdateHammingIsHamming(b: Board, swapped: seq<int>, i: nat, j: nat)
    requires Consistent(b) && i < |b.tiles| && j < |b.tiles| && i != j
    requires swapped == Swap(b.tiles, i, j)
    ensures UpdateHamming(b, swapped, i, j) == Measure(Hamming, swapped, b.dimension)
  {
    SwapMeasure(Hamming, b.tiles, b.dimension, i, j);
  }

  /** A non-blank tile's Manhattan term is its distance to its goal cell. */
  lemma TermIsDistance(t: int, k: nat, n: nat)
    requires n > 0 && t != 0 && k < 0x8000_0000
    ensures Term(Manhattan, t, k, n) == Distance(t, k, n)
  {
    if t == k + 1 {
      InPlaceDistance(t, k, n);
    }
  }

  /** distanceFactor, computed with Java's `/` and `%`, is the difference of
      the two grid distances. */
  lemma FactorIsDistanceChange(t: int, p: nat, q: nat, n: nat)
    requires n > 0
    ensures DistanceFactor(t, p, q, n) == Distance(t, p, n) - Distance(t, q, n)
  {
    DivIsRow(p, n);
    DivIsRow(q, n);
  }

  /** The distance factor of a moved tile is the change of its Manhattan
      term. */
  lemma FactorIsTermChange(t: int, p: nat, q: nat, n: nat)
    requires n > 0 && t != 0 && p < 0x8000_0000 && q < 0x8000_0000
    ensures DistanceFactor(t, p, q, n) == Term(Manhattan, t, p, n) - Term(Manhattan, t, q, n)
  {
    FactorIsDistanceChange(t, p, q, n);
    TermIsDistance(t, p, n);
    TermIsDistance(t, q, n);
  }

  /** The incremental Manhattan update equals the metric recomputed on the
      swapped tiles, both wrapped to 32 bits. */
  lemma UpdateManhattanIsManhattan(b: Board, swapped: seq<int>, i: nat, j: nat)
    requires Consistent(b) && i < |b.tiles| && j < |b.tiles| && i != j
    requires swapped == Swap(b.tiles, i, j)
    ensures UpdateManhattan(b, swapped, i, j) == Int(Measure(Manhattan, swapped, b.dimension))
  {
    SwapFactors(b.tiles, b.dimension, i, j);
    UpdateAddsFactors(b, swapped, i, j, Measure(Manhattan, b.tiles, b.dimension));
  }

  /** Swapping two positions changes the exact Manhattan metric by the
      distance factors of the two tiles that moved. */
  lemma SwapFactors(tiles: seq<int>, n: nat, i: nat, j: nat)
    requires n > 0 && i < |tiles| < 0x8000_0000 && j < |tiles| && i != j
    ensures Measure(Manhattan, Swap(tiles, i, j), n)
         == Measure(Manhattan, tiles, n)
            + (if tiles[j] != 0 then DistanceFactor(tiles[j], i, j, n) else 0)
            + (if tiles[i] != 0 then DistanceFactor(tiles[i], j, i, n) else 0)
  {
    SwapMeasure(Manhattan, tiles, n, i, j);
    if tiles[j] != 0 {
      FactorIsTermChange(tiles[j], i, j, n);
    }
    if tiles[i] != 0 {
      FactorIsTermChange(tiles[i], j, i, n);
    }
  }

  /** The two `int` `+=` of updateManhattan add both factors to the exact
      metric before wrapping. */
  lemma UpdateAddsFactors(b: Board, swapped: seq<int>, i: nat, j: nat, m: int)
    requires b.dimension > 0 && i < |swapped| && j < |swapped| && b.manhattan == Int(m)
    ensures UpdateManhattan(b, swapped, i, j)
         == Int(m + (if swapped[i] != 0 then DistanceFactor(swapped[i], i, j, b.dimension) else 0)
                  + (if swapped[j] != 0 then DistanceFactor(swapped[j], j, i, b.dimension) else 0))
  {
    var fa := if swapped[i] != 0 then DistanceFactor(swapped[i], i, j, b.dimension) else 0;
    var fc := if swapped[j] != 0 then DistanceFactor(swapped[j], j, i, b.dimension) else 0;
    IntAdd(m, fa);
    IntAdd(m + fa, fc);
  }

  /** The incremental update wraps exactly as the source's `int` does:
      moving tile 1 from its goal cell to the opposite corner adds 2 to a
      cache of 2^31 - 1 and gives -2^31 + 1. */
  lemma UpdateManhattanWraps(b: Board, swapped: seq<int>)
    requires b.dimension == 2 && b.manhattan == 0x7FFF_FFFF && swapped == [0, 0, 0, 1]
    ensures UpdateManhattan(b, swapped, 3, 0) == -0x7FFF_FFFF
  {
    assert Int(1 - 1) == 0 && Quot(0, 2) == 0 && Rem(0, 2) == 0;
    assert 3 / 2 == 1 && 3 % 2 == 1 && 0 / 2 == 0 && 0 % 2 == 0;
    assert DistanceFactor(1, 3, 0, 2) == 2;
    assert Int(0x7FFF_FFFF + 2) == -0x7FFF_FFFF;
  }

  // ---------------------------------------------------------------------
  // Neighbours, twin, goal test, equality

  /** getNeighbor: swap the blank with position `toSwap` and update the caches. */
  function Neighbor(b: Board, toSwap: nat): (nb: Board)
    requires Consistent(b) && toSwap < |b.tiles| && toSwap != b.zero
    ensures nb.tiles == Swap(b.tiles, toSwap, b.zero) && nb.zero == toSwap
    ensures nb.dimension == b.dimension && Consistent(nb)
  {
    var blocks := Swap(b.tiles, toSwap, b.zero);
    UpdateManhattanIsManhattan(b, blocks, toSwap, b.zero);
    UpdateHammingIsHamming(b, blocks, toSwap, b.zero);
    Board(blocks, UpdateHamming(b, blocks, toSwap, b.zero), UpdateManhattan(b, blocks, toSwap, b.zero), b.dimension, toSwap)
  }

  /** What every neighbour is: a consistent board of the same dimension whose
      blank has moved to an adjacent cell, swapping with the tile there. */
  predicate IsNeighbor(b: Board, nb: Board)
    requires Consistent(b)
  {
    && Consistent(nb) && nb.dimension == b.dimension
    && 0 <= nb.zero < |b.tiles| && GridAdjacent(nb.zero, b.zero, b.dimension)
    && nb.tiles == Swap(b.tiles, nb.zero, b.zero)
  }

  /** neighbors: one board per direction in which the blank can move.  The
      source adds them up, down, left, right to a `LinkedBag`, whose `add`
      prepends, so they are listed right, left, down, up. */
  function Neighbors(b: Board): (r: seq<Board>)
    requires Consistent(b)
    ensures |r| <= 4 && (b.dimension >= 2 ==> |r| >= 2)
    ensures forall nb :: nb in r ==> IsNeighbor(b, nb)
  {
    var n := b.dimension;
    var z := b.zero;
    DivIsRow(z, n);
    Decompose(z, n);
    RowBound(z, n, n);
    NeighborsAt(b, z / n, z % n)
  }

  /** The body of neighbors once the blank's row `i` and column `j` are known. */
  function NeighborsAt(b: Board, i: nat, j: nat): (r: seq<Board>)
    requires Consistent(b) && i < b.dimension && j < b.dimension
    requires b.zero == Pos(i, j, b.dimension)
    ensures |r| <= 4 && (b.dimension >= 2 ==> |r| >= 2)
    ensures forall nb :: nb in r ==> IsNeighbor(b, nb)
  {
    Right(b, i, j) + Left(b, i, j) + Down(b, i, j) + Up(b, i, j)
  }

  /** The neighbour with the blank one row up, unless it is in the top row. */
  function Up(b: Board, i: nat, j: nat): (r: seq<Board>)
    requires Consistent(b) && i < b.dimension && j < b.dimension
    requires b.zero == Pos(i, j, b.dimension)
    ensures |r| == if i != 0 then 1 else 0
    ensures forall nb :: nb in r ==> IsNeighbor(b, nb)
  {
    if i != 0 then
      MoveIsNeighbor(b, i, j, i - 1, j);
      [Neighbor(b, b.zero - b.dimension)]
    else []
  }

  /** The neighbour with the blank one row down, unless it is in the bottom row. */
  function Down(b: Board, i: nat, j: nat): (r: seq<Board>)
    requires Consistent(b) && i < b.dimension && j < b.dimension
    requires b.zero == Pos(i, j, b.dimension)
    ensures |r| == if i != b.dimension - 1 then 1 else 0
    ensures forall nb :: nb in r ==> IsNeighbor(b, nb)
  {
    if i != b.dimension - 1 then
      MoveIsNeighbor(b, i, j, i + 1, j);
      [Neighbor(b, b.zero + b.dimension)]
    else []
  }

  /** The neighbour with the blank one column left, unless it is in the first column. */
  function Left(b: Board, i: nat, j: nat): (r: seq<Board>)
    requires Consistent(b) && i < b.dimension && j < b.dimension
    requires b.zero == Pos(i, j, b.dimension)
    ensures |r| == if j != 0 then 1 else 0
    ensures forall nb :: nb in r ==> IsNeighbor(b, nb)
  {
    if j != 0 then
      PosNext(i, j - 1, b.dimension);
      MoveIsNeighbor(b, i, j, i, j - 1);
      [Neighbor(b, b.zero - 1)]
    else []
  }

  /** The neighbour with the blank one column right, unless it is in the last column. */
  function Right(b: Board, i: nat, j: nat): (r: seq<Board>)
    requires Consistent(b) && i < b.dimension && j < b.dimension
    requires b.zero == Pos(i, j, b.dimension)
    ensures |r| == if j != b.dimension - 1 then 1 else 0
    ensures forall nb :: nb in r ==> IsNeighbor(b, nb)
  {
    if j != b.dimension - 1 then
      PosNext(i, j, b.dimension);
      MoveIsNeighbor(b, i, j, i, j + 1);
      [Neighbor(b, b.zero + 1)]
    else []
  }

  /** Moving the blank from `(i, j)` to an adjacent `(i2, j2)` yields a neighbour. */
  lemma MoveIsNeighbor(b: Board, i: nat, j: nat, i2: nat, j2: nat)
    requires Consistent(b) && i < b.dimension && j < b.dimension && i2 < b.dimension && j2 < b.dimension
    requires b.zero == Pos(i, j, b.dimension) && Abs(i - i2) + Abs(j - j2) == 1
    ensures Pos(i2, j2, b.dimension) < |b.tiles| && Pos(i2, j2, b.dimension) != b.zero
    ensures IsNeighbor(b, Neighbor(b, Pos(i2, j2, b.dimension)))
  {
    var n := b.dimension;
    PosCoordinates(i, j, n);
    PosCoordinates(i2, j2, n);
    PosBound(i2, j2, n, n);
  }

  /** The next column of a row is the next position. */
  lemma {:induction false} PosNext(i: nat, j: nat, n: nat)
    ensures Pos(i, j + 1, n) == Pos(i, j, n) + 1
  {
    if i > 0 {
      PosNext(i - 1, j, n);
    }
  }

  /** Every cell next to the blank is the blank of some neighbour. */
  lemma NeighborsComplete(b: Board, s: nat)
    requires Consistent(b) && s < |b.tiles| && GridAdjacent(s, b.zero, b.dimension)
    ensures exists nb :: nb in Neighbors(b) && nb.zero == s
  {
    var n := b.dimension;
    var z := b.zero;
    DivIsRow(z, n);
    Decompose(z, n);
    RowBound(z, n, n);
    Decompose(s, n);
    RowBound(s, n, n);
    NeighborsAtComplete(b, z / n, z % n, RowOf(s, n), ColOf(s, n));
  }

  /** The cell `(i2, j2)` next to the blank at `(i, j)` is reached by one of
      the four moves. */
  lemma NeighborsAtComplete(b: Board, i: nat, j: nat, i2: nat, j2: nat)
    requires Consistent(b) && i < b.dimension && j < b.dimension && i2 < b.dimension && j2 < b.dimension
    requires b.zero == Pos(i, j, b.dimension) && Abs(i - i2) + Abs(j - j2) == 1
    ensures Pos(i2, j2, b.dimension) < |b.tiles| && Pos(i2, j2, b.dimension) != b.zero
    ensures Neighbor(b, Pos(i2, j2, b.dimension)) in NeighborsAt(b, i, j)
  {
    if i2 + 1 == i {
      UpComplete(b, i, j, i2, j2);
    } else if i2 == i + 1 {
      DownComplete(b, i, j, i2, j2);
    } else if j2 + 1 == j {
      LeftComplete(b, i, j, i2, j2);
    } else {
      RightComplete(b, i, j, i2, j2);
    }
  }

  lemma UpComplete(b: Board, i: nat, j: nat, i2: nat, j2: nat)
    requires Consistent(b) && i < b.dimension && j < b.dimension && i2 < b.dimension && j2 < b.dimension
    requires b.zero == Pos(i, j, b.dimension) && Abs(i - i2) + Abs(j - j2) == 1
    requires i2 + 1 == i
    ensures Pos(i2, j2, b.dimension) < |b.tiles| && Pos(i2, j2, b.dimension) != b.zero
    ensures Neighbor(b, Pos(i2, j2, b.dimension)) in Up(b, i, j)
  {
    MoveIsNeighbor(b, i, j, i2, j2);
    assert Up(b, i, j) == [Neighbor(b, Pos(i2, j2, b.dimension))];
  }

  lemma DownComplete(b: Board, i: nat, j: nat, i2: nat, j2: nat)
    requires Consistent(b) && i < b.dimension && j < b.dimension && i2 < b.dimension && j2 < b.dimension
    requires b.zero == Pos(i, j, b.dimension) && Abs(i - i2) + Abs(j - j2) == 1
    requires i2 == i + 1
    ensures Pos(i2, j2, b.dimension) < |b.tiles| && Pos(i2, j2, b.dimension) != b.zero
    ensures Neighbor(b, Pos(i2, j2, b.dimension)) in Down(b, i, j)
  {
    MoveIsNeighbor(b, i, j, i2, j2);
    assert Down(b, i, j) == [Neighbor(b, Pos(i2, j2, b.dimension))];
  }

  lemma LeftComplete(b: Board, i: nat, j: nat, i2: nat, j2: nat)
    requires Consistent(b) && i < b.dimension && j < b.dimension && i2 < b.dimension && j2 < b.dimension
    requires b.zero == Pos(i, j, b.dimension) && Abs(i - i2) + Abs(j - j2) == 1
    requires j2 + 1 == j
    ensures Pos(i2, j2, b.dimension) < |b.tiles| && Pos(i2, j2, b.dimension) != b.zero
    ensures Neighbor(b, Pos(i2, j2, b.dimension)) in Left(b, i, j)
  {
    MoveIsNeighbor(b, i, j, i2, j2);
    PosNext(i, j2, b.dimension);
    assert Left(b, i, j) == [Neighbor(b, Pos(i2, j2, b.dimension))];
  }

  lemma RightComplete(b: Board, i: nat, j: nat, i2: nat, j2: nat)
    requires Consistent(b) && i < b.dimension && j < b.dimension && i2 < b.dimension && j2 < b.dimension
    requires b.zero == Pos(i, j, b.dimension) && Abs(i - i2) + Abs(j - j2) == 1
    requires j2 == j + 1
    ensures Pos(i2, j2, b.dimension) < |b.tiles| && Pos(i2, j2, b.dimension) != b.zero
    ensures Neighbor(b, Pos(i2, j2, b.dimension)) in Right(b, i, j)
  {
    MoveIsNeighbor(b, i, j, i2, j2);
    PosNext(i, j, b.dimension);
    assert Right(b, i, j) == [Neighbor(b, Pos(i2, j2, b.dimension))];
  }

  /** The positions where the twin swaps: the first two non-blank tiles. */
  predicate FirstTwo(tiles: seq<int>, a: int, c: int)
  {
    && 0 <= a < c < |tiles| && tiles[a] != 0 && tiles[c] != 0
    && forall k :: 0 <= k < c && k != a ==> tiles[k] == 0
  }

  predicate TwoTiles(tiles: seq<int>)
  {
    exists k, l :: 0 <= k < l < |tiles| && tiles[k] != 0 && tiles[l] != 0
  }

  /** The scan in twin: stops as soon as the second non-blank tile is found. */
  method FirstTwoTiles(tiles: seq<int>) returns (a: int, c: int)
    requires TwoTiles(tiles)
    ensures FirstTwo(tiles, a, c)
  {
    a, c := -1, -1;
    var i := 0;
    while i < |tiles| && c == -1
      invariant 0 <= i <= |tiles|
      invariant a == -1 ==> c == -1 && forall k :: 0 <= k < i ==> tiles[k] == 0
      invariant a != -1 ==> 0 <= a < i && tiles[a] != 0 && forall k :: 0 <= k < a ==> tiles[k] == 0
      invariant c == -1 ==> forall k :: a < k < i ==> tiles[k] == 0
      invariant c != -1 ==> a != -1 && c == i - 1 && a < c && tiles[c] != 0 && forall k :: a < k < c ==> tiles[k] == 0
    {
      if tiles[i] != 0 {
        if a == -1 {
          a := i;
        } else {
          c := i;
        }
      }
      i := i + 1;
    }
  }

  /** twin: the board with the first two non-blank tiles exchanged; the blank
      stays where it is. */
  method Twin(b: Board) returns (t: Board)
    requires Consistent(b) && TwoTiles(b.tiles)
    ensures Consistent(t) && t.zero == b.zero && t.dimension == b.dimension
    ensures exists a, c :: FirstTwo(b.tiles, a, c) && t.tiles == Swap(b.tiles, a, c)
  {
    var a, c := FirstTwoTiles(b.tiles);
    var twinBlocks := Swap(b.tiles, a, c);
    UpdateHammingIsHamming(b, twinBlocks, a, c);
    UpdateManhattanIsManhattan(b, twinBlocks, a, c);
    var twinHamming := UpdateHamming(b, twinBlocks, a, c);
    var twinManhattan := UpdateManhattan(b, twinBlocks, a, c);
    t := Board(twinBlocks, twinHamming, twinManhattan, b.dimension, b.zero);
  }

  /** isGoal reads the cached Hamming distance. */
  predicate IsGoal(b: Board)
  {
    b.hamming == 0
  }

  /** Every non-blank tile among the first `upto` positions is in place. */
  predicate SolvedUpTo(tiles: seq<int>, upto: nat)
    requires upto <= |tiles|
  {
    forall k :: 0 <= k < upto ==> !Misplaced(tiles[k], k)
  }

  lemma {:induction false} SumZero(tiles: seq<int>, n: nat, upto: nat)
    requires n > 0 && upto <= |tiles|
    ensures Sum(Hamming, tiles, n, upto) == 0 <==> SolvedUpTo(tiles, upto)
    decreases upto
  {
    if upto > 0 {
      SumZero(tiles, n, upto - 1);
    }
  }

  /** A consistent board is the goal exactly when every tile is in place. */
  lemma GoalIffSolved(b: Board)
    requires Consistent(b)
    ensures IsGoal(b) <==> SolvedUpTo(b.tiles, |b.tiles|)
  {
    SumZero(b.tiles, b.dimension, |b.tiles|);
  }

  /** equals: another board with the same tile array; null is never equal. */
  predicate Equals(b: Board, that: Option<Board>)
  {
    that.Some? && that.value.tiles == b.tiles
  }

  /** The dimension of a square board is fixed by its number of cells. */
  lemma SquareRoot(n: nat, m: nat)
    requires Cells(n) == Cells(m)
    ensures n == m
  {
    CellsIsSquare(n);
    CellsIsSquare(m);
    if n < m {
      MulDistance(m, n, n);
      MulDistance(m, n, m);
    } else if m < n {
      MulDistance(n, m, m);
      MulDistance(n, m, n);
    }
  }

  /** Equality only looks at tiles, yet equal consistent boards agree on the
      dimension and on both cached metrics. */
  lemma EqualBoardsAgree(b: Board, c: Board)
    requires Consistent(b) && Consistent(c) && Equals(b, Some(c))
    ensures b.dimension == c.dimension && b.hamming == c.hamming && b.manhattan == c.manhattan
  {
    SquareRoot(b.dimension, c.dimension);
  }
}

/** Seam validation, pixel removal and the incremental energy repair of
    seam/SeamCarver.java (validateSeam, removeVerticalSeam,
    removeHorizontalSeam, fixEnergy).  Removal works on the picture; the
    energy matrix is then patched in place, recomputing only the two cells
    beside each removed pixel, and `FixEnergyRestores` proves the patch equal
    to the energy recomputed from scratch. */
module SeamRemoval {
  import opened Wrappers
  import opened Matrix
  import opened SeamEnergy
  import opened SeamFinder

  /** The IllegalArgumentException messages of the seam carver. */
  datatype Error =
    | NullArgument        // "Null argument passed."
    | InvalidSeamLength   // "Invalid seam length."
    | InvalidSeamValue    // "Invalid seam value."
    | SeamJump            // "Seam values differ > 1."
    | DimensionTooSmall   // "Picture width <= 1." / "Picture height <= 1."
    | InvalidIndices      // "Invalid indices passed."

  /** The loop of validateSeam from entry i on: each entry is first checked
      against the range [0, b), then against its predecessor. */
  function CheckFrom(seam: seq<int>, b: nat, i: nat): (r: Option<Error>)
    requires 0 < i <= |seam|
    ensures r == None || r == Some(InvalidSeamValue) || r == Some(SeamJump)
    decreases |seam| - i
  {
    if i == |seam| then None
    else if seam[i] < 0 || seam[i] >= b then Some(InvalidSeamValue)
    else if !Adjacent(seam[i - 1], seam[i]) then Some(SeamJump)
    else CheckFrom(seam, b, i + 1)
  }

  /** validateSeam(seam, isVertical) with `a` the required length and `b` the
      bound on the values; `None` when the seam is accepted.  The dimension
      `a` is a picture dimension, hence positive. */
  function ValidateSeam(seam: seq<int>, a: nat, b: nat): Option<Error>
    requires a > 0
  {
    if |seam| != a then Some(InvalidSeamLength)
    else if seam[0] < 0 || seam[0] >= b then Some(InvalidSeamValue)
    else CheckFrom(seam, b, 1)
  }

  /** The loop accepts exactly the sequences whose entries from i on are in
      range and adjacent to their predecessors. */
  lemma {:induction false} CheckFromAccepts(seam: seq<int>, b: nat, i: nat)
    requires 0 < i <= |seam|
    ensures CheckFrom(seam, b, i) == None <==>
      forall k :: i <= k < |seam| ==> 0 <= seam[k] < b && StepsAt(seam, k)
    decreases |seam| - i
  {
    if i < |seam| {
      CheckFromAccepts(seam, b, i + 1);
    }
  }

  /** A seam is accepted exactly when it is a seam of an a-by-b matrix. */
  lemma ValidateSeamAccepts(seam: seq<int>, a: nat, b: nat)
    requires a > 0
    ensures ValidateSeam(seam, a, b) == None <==> IsSeam(seam, a, b)
  {
    if |seam| == a && 0 <= seam[0] < b {
      CheckFromAccepts(seam, b, 1);
      if CheckFrom(seam, b, 1) == None {
        assert InColumns(seam, b) by {
          forall k | 0 <= k < |seam| ensures 0 <= seam[k] < b {
            if k > 0 {
              assert 0 <= seam[k] < b && StepsAt(seam, k);
            }
          }
        }
      }
    }
  }

  /** The rejections come in the source's order: a wrong length is reported
      before any value, and the first bad entry decides between a value out
      of range and a jump. */
  lemma {:induction false} CheckFromReportsFirst(seam: seq<int>, b: nat, i: nat, k: nat)
    requires 0 < i <= k < |seam|
    requires forall m :: i <= m < k ==> 0 <= seam[m] < b && StepsAt(seam, m)
    requires !(0 <= seam[k] < b) || !StepsAt(seam, k)
    ensures CheckFrom(seam, b, i) == if !(0 <= seam[k] < b) then Some(InvalidSeamValue) else Some(SeamJump)
    decreases k - i
  {
    if i < k {
      CheckFromReportsFirst(seam, b, i + 1, k);
    }
  }

  /** Where entry c of a row comes from once the entry at j is removed. */
  function Shift(c: nat, j: nat): nat
  {
    if c < j then c else c + 1
  }

  /** One row with the entry at j removed: entries left of j stay put, those
      right of it move left by one. */
  function RemoveAt<T>(row: seq<T>, j: nat): (r: seq<T>)
    requires j < |row|
    ensures |r| == |row| - 1
    ensures forall c :: 0 <= c < |r| ==> r[c] == row[Shift(c, j)]
  {
    row[..j] + row[j + 1..]
  }

  /** Putting the removed entry back restores the row. */
  lemma RemoveAtInverse<T>(row: seq<T>, j: nat)
    requires j < |row|
    ensures RemoveAt(row, j)[..j] + [row[j]] + RemoveAt(row, j)[j..] == row
  {
    var r := RemoveAt(row, j);
    var back := r[..j] + [row[j]] + r[j..];
    assert |back| == |row|;
    forall c | 0 <= c < |row|
      ensures back[c] == row[c]
    {
      if c > j {
        assert back[c] == r[c - 1];
      }
    }
  }

  /** The picture after removeVerticalSeam: row r loses column seam[r]. */
  function RemoveVertical(p: Picture, seam: seq<int>): (q: Picture)
    requires IsPicture(p) && |seam| == Height(p) && InColumns(seam, Width(p))
    ensures IsRect(q, Height(p), Width(p) - 1)
    ensures forall r, c :: 0 <= r < Height(p) && 0 <= c < Width(p) - 1 ==> q[r][c] == p[r][Shift(c, seam[r])]
  {
    seq(Height(p), r requires 0 <= r < Height(p) => RemoveAt(p[r], seam[r]))
  }

  /** The picture after removeHorizontalSeam: column c loses row seam[c]. */
  function RemoveHorizontal(p: Picture, seam: seq<int>): (q: Picture)
    requires IsPicture(p) && Height(p) > 1 && |seam| == Width(p) && InColumns(seam, Height(p))
    ensures IsPicture(q) && Height(q) == Height(p) - 1 && Width(q) == Width(p)
  {
    seq(Height(p) - 1, r requires 0 <= r < Height(p) - 1 =>
      seq(Width(p), c requires 0 <= c < Width(p) => p[Shift(r, seam[c])][c]))
  }

  /** Horizontal removal is vertical removal on the transposed picture. */
  lemma RemoveHorizontalIsTransposed(p: Picture, seam: seq<int>)
    requires IsPicture(p) && Height(p) > 1 && |seam| == Width(p) && InColumns(seam, Height(p))
    ensures IsPicture(Transpose(p))
    ensures Transpose(RemoveHorizontal(p, seam)) == RemoveVertical(Transpose(p), seam)
  {
    var t := Transpose(p);
    assert IsPicture(t);
    var a := Transpose(RemoveHorizontal(p, seam));
    var b := RemoveVertical(t, seam);
    assert |a| == |b|;
    forall c | 0 <= c < |a|
      ensures a[c] == b[c]
    {
      forall r | 0 <= r < Height(p) - 1
        ensures a[c][r] == b[c][r]
      {
      }
    }
  }

  /** Each orientation of removal is vertical removal on the oriented picture:
      the energy matrix always sees the seam run along its rows. */
  lemma RemovalOriented(p: Picture, transposed: bool, seam: seq<int>, q: Picture)
    requires IsPicture(p) && MatrixCols(p, transposed) > 1
    requires |seam| == MatrixRows(p, transposed) && InColumns(seam, MatrixCols(p, transposed))
    requires q == if transposed then RemoveHorizontal(p, seam) else RemoveVertical(p, seam)
    ensures IsPicture(q)
    ensures Oriented(q, transposed) == RemoveVertical(Oriented(p, transposed), seam)
  {
    if transposed {
      RemoveHorizontalIsTransposed(p, seam);
    }
  }

  /** The copy loop of removeVerticalSeam: each pixel but the seam's is
      written to the next free column of its row. */
  method RemoveVerticalLoop(p: Picture, seam: seq<int>) returns (q: Picture)
    requires IsPicture(p) && |seam| == Height(p) && InColumns(seam, Width(p))
    ensures q == RemoveVertical(p, seam)
  {
    q := [];
    var row := 0;
    while row < Height(p)
      invariant 0 <= row <= Height(p)
      invariant q == RemoveVertical(p, seam)[..row]
    {
      var line: seq<int> := [];
      var col := 0;
      var j := seam[row];
      while col < Width(p)
        invariant 0 <= col <= Width(p)
        invariant line == if col <= j then p[row][..col] else p[row][..j] + p[row][j + 1..col]
      {
        if col != j {
          line := line + [p[row][col]];
        }
        col := col + 1;
      }
      assert line == RemoveAt(p[row], j);
      q := q + [line];
      row := row + 1;
    }
  }

  /** The copy loop of removeHorizontalSeam: each pixel but the seam's is
      written to the next free row of its column. */
  method RemoveHorizontalLoop(p: Picture, seam: seq<int>) returns (q: Picture)
    requires IsPicture(p) && Height(p) > 1 && |seam| == Width(p) && InColumns(seam, Height(p))
    ensures q == RemoveHorizontal(p, seam)
  {
    var t := Transpose(p);
    assert IsPicture(t);
    var cols := RemoveVerticalLoop(t, seam);
    RemoveHorizontalIsTransposed(p, seam);
    TransposeTwice(RemoveHorizontal(p, seam));
    q := Transpose(cols);
  }

  /** What fixEnergy leaves in the matrix, cell by cell: the two cells beside
      the removed pixel are recomputed on the new picture, every other cell
      is the prior entry it was shifted from. */
  ghost predicate Patched(root: nat -> real, q: Picture, transposed: bool,
                          prior: seq<seq<real>>, seam: seq<int>, e: seq<seq<real>>)
    requires IsPicture(q) && IsMatrix(prior) && |seam| == |prior| && InColumns(seam, |prior[0]|)
    requires MatrixRows(q, transposed) == |prior| && MatrixCols(q, transposed) == |prior[0]| - 1
  {
    && IsRect(e, |prior|, |prior[0]| - 1)
    && forall r, c :: 0 <= r < |prior| && 0 <= c < |prior[0]| - 1 ==>
         e[r][c] == if c == seam[r] || c + 1 == seam[r] then CalcEnergy(root, q, transposed, c, r)
                    else prior[r][Shift(c, seam[r])]
  }

  /** fixEnergy(seam) against the new picture `q` stored in the given
      orientation: shift every row left over its seam entry, then recompute
      column seam[row] (unless it fell off the end) and seam[row] - 1
      (unless the seam entry is 0). */
  method FixEnergy(root: nat -> real, q: Picture, transposed: bool, prior: seq<seq<real>>, seam: seq<int>)
    returns (e: seq<seq<real>>)
    requires IsPicture(q) && IsMatrix(prior) && |seam| == |prior| && InColumns(seam, |prior[0]|)
    requires MatrixRows(q, transposed) == |prior| && MatrixCols(q, transposed) == |prior[0]| - 1
    ensures Patched(root, q, transposed, prior, seam, e)
  {
    var rows, cols := |prior|, |prior[0]|;
    e := [];
    var i := 0;
    while i < rows
      invariant 0 <= i <= rows
      invariant IsRect(e, i, cols - 1)
      invariant forall r, c :: 0 <= r < i && 0 <= c < cols - 1 ==> e[r][c] == prior[r][Shift(c, seam[r])]
    {
      e := e + [RemoveAt(prior[i], seam[i])];
      i := i + 1;
    }
    var row := 0;
    while row < rows
      invariant 0 <= row <= rows
      invariant IsRect(e, rows, cols - 1)
      invariant forall r, c :: 0 <= r < rows && 0 <= c < cols - 1 ==>
        e[r][c] == if r < row && (c == seam[r] || c + 1 == seam[r]) then CalcEnergy(root, q, transposed, c, r)
                   else prior[r][Shift(c, seam[r])]
    {
      var col := seam[row];
      if col != cols - 1 {
        e := e[row := e[row][col := CalcEnergy(root, q, transposed, col, row)]];
      }
      if col != 0 {
        e := e[row := e[row][col - 1 := CalcEnergy(root, q, transposed, col - 1, row)]];
      }
      row := row + 1;
    }
  }

  /** Away from the removed pixel, a pixel of the narrowed picture has the
      energy of the pixel it was shifted from: its neighbours shifted with
      it, because consecutive seam entries differ by at most one. */
  lemma ShiftedEnergy(root: nat -> real, p: Picture, seam: seq<int>, r: nat, c: nat)
    requires IsPicture(p) && Width(p) > 1 && IsSeam(seam, Height(p), Width(p))
    requires r < Height(p) && c < Width(p) - 1 && c != seam[r] && c + 1 != seam[r]
    ensures IsPicture(RemoveVertical(p, seam))
    ensures PixelEnergy(root, RemoveVertical(p, seam), c, r) == PixelEnergy(root, p, Shift(c, seam[r]), r)
  {
    var q := RemoveVertical(p, seam);
    assert IsPicture(q);
    var j := seam[r];
    if 0 < r < Height(p) - 1 && 0 < c < Width(p) - 2 {
      assert StepsAt(seam, r) && StepsAt(seam, r + 1);
      assert Shift(c - 1, j) == Shift(c, j) - 1 && Shift(c + 1, j) == Shift(c, j) + 1;
      assert Shift(c, seam[r - 1]) == Shift(c, j) && Shift(c, seam[r + 1]) == Shift(c, j);
      assert DeltaXSquared(q, c, r) == DeltaXSquared(p, Shift(c, j), r);
      assert DeltaYSquared(q, c, r) == DeltaYSquared(p, Shift(c, j), r);
    }
  }

  /** The patch of an untransposed matrix equals the energy matrix of the
      narrowed picture. */
  lemma PatchIsRecompute(root: nat -> real, p: Picture, seam: seq<int>, e: seq<seq<real>>)
    requires IsPicture(p) && Width(p) > 1 && IsSeam(seam, Height(p), Width(p))
    requires Patched(root, RemoveVertical(p, seam), false, EnergyMatrix(root, p, false), seam, e)
    ensures e == EnergyMatrix(root, RemoveVertical(p, seam), false)
  {
    var q := RemoveVertical(p, seam);
    var recomputed := EnergyMatrix(root, q, false);
    forall r | 0 <= r < Height(p)
      ensures e[r] == recomputed[r]
    {
      forall c | 0 <= c < Width(p) - 1
        ensures e[r][c] == recomputed[r][c]
      {
        if c != seam[r] && c + 1 != seam[r] {
          ShiftedEnergy(root, p, seam, r, c);
        }
      }
    }
  }

  /** fixEnergy restores the energy invariant: if the matrix held the energy
      of picture `p` in the given orientation and `q` is `p` with the seam
      removed along that orientation, the patched matrix holds the energy of
      `q` in the same orientation. */
  lemma FixEnergyRestores(root: nat -> real, p: Picture, transposed: bool, seam: seq<int>,
                          q: Picture, e: seq<seq<real>>)
    requires IsPicture(p) && MatrixCols(p, transposed) > 1
    requires IsSeam(seam, MatrixRows(p, transposed), MatrixCols(p, transposed))
    requires q == if transposed then RemoveHorizontal(p, seam) else RemoveVertical(p, seam)
    requires IsPicture(q) && MatrixRows(q, transposed) == MatrixRows(p, transposed)
    requires MatrixCols(q, transposed) == MatrixCols(p, transposed) - 1
    requires Patched(root, q, transposed, EnergyMatrix(root, p, transposed), seam, e)
    ensures e == EnergyMatrix(root, q, transposed)
  {
    var op := Oriented(p, transposed);
    RemovalOriented(p, transposed, seam, q);
    EnergyMatrixOriented(root, p, transposed);
    EnergyMatrixOriented(root, q, transposed);
    var oq := RemoveVertical(op, seam);
    forall r, c | 0 <= r < |op| && 0 <= c < Width(op) - 1
      ensures CalcEnergy(root, q, transposed, c, r) == CalcEnergy(root, oq, false, c, r)
    {
      if transposed {
        PixelEnergyTranspose(root, q, r, c);
      }
    }
    PatchIsRecompute(root, op, seam, e);
  }
}

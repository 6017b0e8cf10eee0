/** The dual-gradient energy of a picture (seam/SeamCarver.java, calcEnergy and
    the constructor).  A picture is a rectangular grid `p[row][col]` of packed
    RGB integers.  `Math.sqrt` is not modelled: every energy function takes the
    square root as a parameter `root`, applied to the integer squared gradient. */
module SeamEnergy {
  import opened Matrix

  const BorderEnergy: real := 1000.0

  type Picture = seq<seq<int>>

  /** A picture has at least one row and one column and is rectangular. */
  predicate IsPicture(p: Picture)
  {
    IsMatrix(p) && |p[0]| > 0
  }

  function Width(p: Picture): nat
    requires IsPicture(p)
  {
    |p[0]|
  }

  function Height(p: Picture): nat
    requires IsPicture(p)
  {
    |p|
  }

  /** `(rgb >> 16) & 0xFF`: with a positive divisor, Euclidean division and
      remainder agree with Java's arithmetic shift and mask for every int. */
  function Red(rgb: int): int { (rgb / 0x10000) % 0x100 }

  function Green(rgb: int): int { (rgb / 0x100) % 0x100 }

  function Blue(rgb: int): int { rgb % 0x100 }

  function Square(x: int): nat { if x < 0 then (-x) * (-x) else x * x }

  /** Sum over the three channels of the squared difference of two pixels. */
  function Gradient(a: int, b: int): nat
  {
    Square(Red(a) - Red(b)) + Square(Green(a) - Green(b)) + Square(Blue(a) - Blue(b))
  }

  predicate InPicture(p: Picture, col: int, row: int)
    requires IsPicture(p)
  {
    0 <= col < Width(p) && 0 <= row < Height(p)
  }

  predicate OnBorder(p: Picture, col: int, row: int)
    requires IsPicture(p)
  {
    row == 0 || row == Height(p) - 1 || col == 0 || col == Width(p) - 1
  }

  /** deltaXSquared: left and right neighbours of an interior pixel. */
  function DeltaXSquared(p: Picture, col: int, row: int): nat
    requires IsPicture(p) && 0 < col < Width(p) - 1 && 0 <= row < Height(p)
  {
    Gradient(p[row][col - 1], p[row][col + 1])
  }

  /** deltaYSquared: upper and lower neighbours of an interior pixel. */
  function DeltaYSquared(p: Picture, col: int, row: int): nat
    requires IsPicture(p) && 0 <= col < Width(p) && 0 < row < Height(p) - 1
  {
    Gradient(p[row - 1][col], p[row + 1][col])
  }

  /** Energy of pixel (col, row) in picture coordinates: the border constant on
      the outer frame, otherwise the root of the squared dual gradient. */
  function PixelEnergy(root: nat -> real, p: Picture, col: int, row: int): real
    requires IsPicture(p) && InPicture(p, col, row)
  {
    if row == 0 || row == Height(p) - 1 then BorderEnergy
    else if col == 0 || col == Width(p) - 1 then BorderEnergy
    else root(DeltaXSquared(p, col, row) + DeltaYSquared(p, col, row))
  }

  /** Number of rows and columns of the energy matrix in either orientation. */
  function MatrixRows(p: Picture, transposed: bool): nat
    requires IsPicture(p)
  {
    if transposed then Width(p) else Height(p)
  }

  function MatrixCols(p: Picture, transposed: bool): nat
    requires IsPicture(p)
  {
    if transposed then Height(p) else Width(p)
  }

  /** calcEnergy(col, row): the arguments are matrix coordinates, swapped back
      to picture coordinates when the matrix is stored transposed. */
  function CalcEnergy(root: nat -> real, p: Picture, transposed: bool, col: int, row: int): real
    requires IsPicture(p)
    requires 0 <= row < MatrixRows(p, transposed) && 0 <= col < MatrixCols(p, transposed)
  {
    if !transposed then PixelEnergy(root, p, col, row) else PixelEnergy(root, p, row, col)
  }

  /** The energy matrix recomputed from scratch, stored in the given orientation. */
  function EnergyMatrix(root: nat -> real, p: Picture, transposed: bool): (e: seq<seq<real>>)
    requires IsPicture(p)
    ensures IsRect(e, MatrixRows(p, transposed), MatrixCols(p, transposed))
  {
    seq(MatrixRows(p, transposed), r requires 0 <= r < MatrixRows(p, transposed) =>
      seq(MatrixCols(p, transposed), c requires 0 <= c < MatrixCols(p, transposed) =>
        CalcEnergy(root, p, transposed, c, r)))
  }

  /** The border rule: every frame pixel has energy exactly 1000, and no other
      pixel is forced to it. */
  lemma BorderRule(root: nat -> real, p: Picture, col: int, row: int)
    requires IsPicture(p) && InPicture(p, col, row)
    ensures OnBorder(p, col, row) ==> PixelEnergy(root, p, col, row) == BorderEnergy
    ensures !OnBorder(p, col, row) ==>
      PixelEnergy(root, p, col, row) == root(DeltaXSquared(p, col, row) + DeltaYSquared(p, col, row))
  {
  }

  /** Energy does not depend on the orientation of the picture: the energy of
      (row, col) in the transposed picture is that of (col, row). */
  lemma PixelEnergyTranspose(root: nat -> real, p: Picture, col: int, row: int)
    requires IsPicture(p) && InPicture(p, col, row)
    ensures IsPicture(Transpose(p))
    ensures PixelEnergy(root, Transpose(p), row, col) == PixelEnergy(root, p, col, row)
  {
    var t := Transpose(p);
    assert IsPicture(t);
    if !OnBorder(p, col, row) {
      assert DeltaXSquared(t, row, col) == DeltaYSquared(p, col, row);
      assert DeltaYSquared(t, row, col) == DeltaXSquared(p, col, row);
    }
  }

  /** The picture as the seam finder sees it: rows of the stored matrix. */
  function Oriented(p: Picture, transposed: bool): (q: Picture)
    requires IsPicture(p)
    ensures IsPicture(q)
    ensures Height(q) == MatrixRows(p, transposed) && Width(q) == MatrixCols(p, transposed)
  {
    if transposed then Transpose(p) else p
  }

  /** A stored matrix in either orientation is the untransposed energy matrix
      of the oriented picture. */
  lemma EnergyMatrixOriented(root: nat -> real, p: Picture, transposed: bool)
    requires IsPicture(p)
    ensures EnergyMatrix(root, p, transposed) == EnergyMatrix(root, Oriented(p, transposed), false)
  {
    var q := Oriented(p, transposed);
    var a := EnergyMatrix(root, p, transposed);
    var b := EnergyMatrix(root, q, false);
    assert |a| == |b|;
    forall r | 0 <= r < |a|
      ensures a[r] == b[r]
    {
      forall c | 0 <= c < |a[r]|
        ensures a[r][c] == b[r][c]
      {
        if transposed {
          PixelEnergyTranspose(root, p, r, c);
        }
      }
    }
  }

  /** Transposing the stored matrix is the same as recomputing it in the other
      orientation: the invariant the orientation flag relies on. */
  lemma TransposeEnergyMatrix(root: nat -> real, p: Picture, transposed: bool)
    requires IsPicture(p)
    ensures IsMatrix(EnergyMatrix(root, p, transposed))
    ensures Transpose(EnergyMatrix(root, p, transposed)) == EnergyMatrix(root, p, !transposed)
  {
    var a := EnergyMatrix(root, p, transposed);
    var b := EnergyMatrix(root, p, !transposed);
    var t := Transpose(a);
    assert |t| == |b|;
    forall j | 0 <= j < |t|
      ensures t[j] == b[j]
    {
      forall i | 0 <= i < |t[j]|
        ensures t[j][i] == b[j][i]
      {
        assert t[j][i] == a[i][j];
      }
    }
  }

  /** The constructor's double loop fills the untransposed matrix cell by cell. */
  method InitialEnergy(root: nat -> real, p: Picture) returns (e: seq<seq<real>>)
    requires IsPicture(p)
    ensures e == EnergyMatrix(root, p, false)
  {
    e := [];
    var row := 0;
    while row < Height(p)
      invariant 0 <= row <= Height(p)
      invariant |e| == row
      invariant forall r :: 0 <= r < row ==> e[r] == EnergyMatrix(root, p, false)[r]
    {
      var line: seq<real> := [];
      var col := 0;
      while col < Width(p)
        invariant 0 <= col <= Width(p)
        invariant |line| == col
        invariant forall c :: 0 <= c < col ==> line[c] == CalcEnergy(root, p, false, c, row)
      {
        line := line + [CalcEnergy(root, p, false, col, row)];
        col := col + 1;
      }
      e := e + [line];
      row := row + 1;
    }
  }
}

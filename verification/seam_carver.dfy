/** The public face of seam/SeamCarver.java: a picture, its energy matrix and
    the orientation flag.  The class invariant `Valid` says the stored matrix
    is the energy of the picture in the stored orientation; every operation
    keeps it, and `transpose` is applied exactly when the flag flips. */
module SeamCarver {
  import opened Wrappers
  import opened Matrix
  import opened SeamEnergy
  import opened SeamFinder
  import opened SeamRemoval

  datatype Carver = Carver(picture: Picture, energy: seq<seq<real>>, transposed: bool)

  /** The class invariant. */
  predicate Valid(root: nat -> real, c: Carver)
  {
    IsPicture(c.picture) && c.energy == EnergyMatrix(root, c.picture, c.transposed)
  }

  /** The constructor: null is rejected; otherwise the picture is copied and
      its energy computed in the untransposed orientation. */
  method New(root: nat -> real, p: Option<Picture>) returns (r: Result<Carver, Error>)
    requires p.Some? ==> IsPicture(p.value)
    ensures p.None? ==> r == Err(NullArgument)
    ensures p.Some? ==> r.Ok? && Valid(root, r.value) && r.value.picture == p.value && !r.value.transposed
  {
    if p.None? {
      return Err(NullArgument);
    }
    var e := InitialEnergy(root, p.value);
    r := Ok(Carver(p.value, e, false));
  }

  /** width(): the columns `energy` accepts are exactly those below it. */
  function Width(c: Carver): (w: nat)
    requires IsPicture(c.picture)
    ensures w > 0 && forall col :: InPicture(c.picture, col, 0) <==> 0 <= col < w
  {
    SeamEnergy.Width(c.picture)
  }

  /** height(): the rows `energy` accepts are exactly those below it. */
  function Height(c: Carver): (h: nat)
    requires IsPicture(c.picture)
    ensures h > 0 && forall row :: InPicture(c.picture, 0, row) <==> 0 <= row < h
  {
    SeamEnergy.Height(c.picture)
  }

  /** energy(col, row): indices outside the picture are rejected; otherwise
      the stored matrix is read in the stored orientation. */
  function Energy(root: nat -> real, c: Carver, col: int, row: int): (r: Result<real, Error>)
    requires Valid(root, c)
    ensures r.Err? <==> !InPicture(c.picture, col, row)
    ensures r.Err? ==> r.error == InvalidIndices
  {
    if col < 0 || col >= Width(c) || row < 0 || row >= Height(c) then Err(InvalidIndices)
    else if !c.transposed then Ok(c.energy[row][col])
    else Ok(c.energy[col][row])
  }

  /** The value read does not depend on the orientation: it is the energy of
      the pixel, and exactly 1000 on the border. */
  lemma EnergyIsPixelEnergy(root: nat -> real, c: Carver, col: int, row: int)
    requires Valid(root, c) && InPicture(c.picture, col, row)
    ensures Energy(root, c, col, row) == Ok(PixelEnergy(root, c.picture, col, row))
    ensures OnBorder(c.picture, col, row) ==> Energy(root, c, col, row) == Ok(BorderEnergy)
  {
    BorderRule(root, c.picture, col, row);
  }

  /** Bring the matrix into the wanted orientation, transposing it exactly
      when the flag has to flip. */
  function Reorient(root: nat -> real, c: Carver, transposed: bool): (d: Carver)
    requires Valid(root, c)
    ensures Valid(root, d) && d.picture == c.picture && d.transposed == transposed
  {
    if c.transposed == transposed then c
    else
      TransposeEnergyMatrix(root, c.picture, c.transposed);
      Carver(c.picture, Transpose(c.energy), transposed)
  }

  /** findVerticalSeam: a minimum-energy seam from top to bottom, one column
      per picture row; the matrix ends untransposed. */
  method FindVerticalSeam(root: nat -> real, c: Carver) returns (d: Carver, seam: seq<int>)
    requires Valid(root, c)
    ensures Valid(root, d) && d.picture == c.picture && !d.transposed
    ensures seam == Seam(EnergyMatrix(root, c.picture, false))
    ensures IsSeam(seam, Height(c), Width(c))
    ensures forall s :: IsSeam(s, Height(c), Width(c)) ==>
      PathCost(d.energy, seam) <= PathCost(d.energy, s)
  {
    d := Reorient(root, c, false);
    seam := FindSeam(d.energy);
  }

  /** findHorizontalSeam: a minimum-energy seam from left to right, one row
      per picture column; the matrix ends transposed. */
  method FindHorizontalSeam(root: nat -> real, c: Carver) returns (d: Carver, seam: seq<int>)
    requires Valid(root, c)
    ensures Valid(root, d) && d.picture == c.picture && d.transposed
    ensures seam == Seam(EnergyMatrix(root, c.picture, true))
    ensures IsSeam(seam, Width(c), Height(c))
    ensures forall s :: IsSeam(s, Width(c), Height(c)) ==>
      PathCost(d.energy, seam) <= PathCost(d.energy, s)
  {
    d := Reorient(root, c, true);
    seam := FindSeam(d.energy);
  }

  /** The rejection removeVerticalSeam raises, in the source's order: null,
      then the seam checks, then a width of one. */
  function VerticalRejection(c: Carver, seam: Option<seq<int>>): Option<Error>
    requires IsPicture(c.picture)
  {
    if seam.None? then Some(NullArgument)
    else if ValidateSeam(seam.value, Height(c), Width(c)).Some? then ValidateSeam(seam.value, Height(c), Width(c))
    else if Width(c) <= 1 then Some(DimensionTooSmall)
    else None
  }

  /** The rejection removeHorizontalSeam raises, in the source's order. */
  function HorizontalRejection(c: Carver, seam: Option<seq<int>>): Option<Error>
    requires IsPicture(c.picture)
  {
    if seam.None? then Some(NullArgument)
    else if ValidateSeam(seam.value, Width(c), Height(c)).Some? then ValidateSeam(seam.value, Width(c), Height(c))
    else if Height(c) <= 1 then Some(DimensionTooSmall)
    else None
  }

  /** A removal is rejected exactly when the seam is missing, is not a seam
      of the picture in that direction, or the dimension it shrinks is 1. */
  lemma RejectionIff(c: Carver, seam: Option<seq<int>>)
    requires IsPicture(c.picture)
    ensures VerticalRejection(c, seam).None? <==>
      seam.Some? && IsSeam(seam.value, Height(c), Width(c)) && Width(c) > 1
    ensures HorizontalRejection(c, seam).None? <==>
      seam.Some? && IsSeam(seam.value, Width(c), Height(c)) && Height(c) > 1
  {
    if seam.Some? {
      ValidateSeamAccepts(seam.value, Height(c), Width(c));
      ValidateSeamAccepts(seam.value, Width(c), Height(c));
    }
  }

  /** removeVerticalSeam: after validation, every row loses the pixel at its
      seam entry, the matrix is brought untransposed and patched. */
  method RemoveVerticalSeam(root: nat -> real, c: Carver, seam: Option<seq<int>>) returns (r: Result<Carver, Error>)
    requires Valid(root, c)
    ensures VerticalRejection(c, seam).Some? ==> r == Err(VerticalRejection(c, seam).value)
    ensures r.Ok? <==> VerticalRejection(c, seam).None?
    ensures r.Ok? ==> seam.Some? && IsSeam(seam.value, Height(c), Width(c)) && Width(c) > 1
    ensures r.Ok? ==> (
      && Valid(root, r.value) && !r.value.transposed
      && r.value.picture == RemoveVertical(c.picture, seam.value)
      && Width(r.value) == Width(c) - 1 && Height(r.value) == Height(c))
  {
    var rejected := VerticalRejection(c, seam);
    if rejected.Some? {
      return Err(rejected.value);
    }
    RejectionIff(c, seam);
    var s := seam.value;
    var p := RemoveVerticalLoop(c.picture, s);
    var d := Reorient(root, c, false);
    var e := FixEnergy(root, p, false, d.energy, s);
    FixEnergyRestores(root, c.picture, false, s, p, e);
    r := Ok(Carver(p, e, false));
  }

  /** removeHorizontalSeam: after validation, every column loses the pixel at
      its seam entry, the matrix is brought transposed and patched. */
  method RemoveHorizontalSeam(root: nat -> real, c: Carver, seam: Option<seq<int>>) returns (r: Result<Carver, Error>)
    requires Valid(root, c)
    ensures HorizontalRejection(c, seam).Some? ==> r == Err(HorizontalRejection(c, seam).value)
    ensures r.Ok? <==> HorizontalRejection(c, seam).None?
    ensures r.Ok? ==> seam.Some? && IsSeam(seam.value, Width(c), Height(c)) && Height(c) > 1
    ensures r.Ok? ==> (
      && Valid(root, r.value) && r.value.transposed
      && r.value.picture == RemoveHorizontal(c.picture, seam.value)
      && Width(r.value) == Width(c) && Height(r.value) == Height(c) - 1)
  {
    var rejected := HorizontalRejection(c, seam);
    if rejected.Some? {
      return Err(rejected.value);
    }
    RejectionIff(c, seam);
    var s := seam.value;
    var p := RemoveHorizontalLoop(c.picture, s);
    var d := Reorient(root, c, true);
    var e := FixEnergy(root, p, true, d.energy, s);
    FixEnergyRestores(root, c.picture, true, s, p, e);
    r := Ok(Carver(p, e, true));
  }

  /** An all-black 3-by-3 picture, and its energy when the root of 0 is 0. */
  const Black3: Picture := [[0, 0, 0], [0, 0, 0], [0, 0, 0]]

  const Black3Energy: seq<seq<real>> := [[1000.0, 1000.0, 1000.0], [1000.0, 0.0, 1000.0], [1000.0, 1000.0, 1000.0]]

  /** A picture of one colour has zero gradient everywhere, so its energy is
      1000 on the border and the root of 0 inside. */
  lemma UniformEnergy(root: nat -> real, p: Picture, col: nat, row: nat)
    requires IsPicture(p) && InPicture(p, col, row)
    requires forall r, c :: 0 <= r < SeamEnergy.Height(p) && 0 <= c < SeamEnergy.Width(p) ==> p[r][c] == p[0][0]
    ensures PixelEnergy(root, p, col, row) == if OnBorder(p, col, row) then BorderEnergy else root(0)
  {
  }

  lemma Black3EnergyMatrix(root: nat -> real, p: Picture)
    requires root(0) == 0.0 && p == Black3
    ensures EnergyMatrix(root, p, false) == Black3Energy
  {
    var m := EnergyMatrix(root, p, false);
    assert IsPicture(p) && SeamEnergy.Width(p) == 3 && SeamEnergy.Height(p) == 3;
    forall r, c | 0 <= r < 3 && 0 <= c < 3
      ensures m[r][c] == Black3Energy[r][c]
    {
      UniformEnergy(root, p, c, r);
    }
    forall r | 0 <= r < 3
      ensures m[r] == Black3Energy[r]
    {
    }
  }

  /** Row 1: the centre is reached at 1000 from the leftmost source; the
      corners at 2000. */
  lemma Black3Row1(e: seq<seq<real>>)
    requires e == Black3Energy
    ensures Dist(e, 1, 0) == 2000.0 && Dist(e, 1, 1) == 1000.0
    ensures Dist(e, 1, 2) == 2000.0 && Pred(e, 1, 1) == 0
  {
    assert Relaxed(e, 0, 0, 2) == Relax(Fin(2000.0), 0);
    assert Relaxed(e, 0, 1, 3) == Relax(Fin(1000.0), 0);
    assert Relaxed(e, 0, 2, 2) == Relax(Fin(2000.0), 1);
  }

  /** Row 2: every column ties at 2000, and column 0 comes from the centre. */
  lemma Black3Row2(e: seq<seq<real>>)
    requires e == Black3Energy
    ensures DistRow(e, 2) == [2000.0, 2000.0, 2000.0] && Pred(e, 2, 0) == 1
  {
    Black3Row1(e);
    assert Relaxed(e, 1, 0, 2) == Relax(Fin(2000.0), 1);
    assert Relaxed(e, 1, 1, 3) == Relax(Fin(2000.0), 1);
    assert Relaxed(e, 1, 2, 2) == Relax(Fin(2000.0), 1);
  }

  /** The last row ties, so the leftmost column wins, and the seam bends
      through the centre. */
  lemma Black3Seam(e: seq<seq<real>>)
    requires e == Black3Energy
    ensures Seam(e) == [0, 1, 0]
  {
    Black3Row1(e);
    Black3Row2(e);
    assert ScanMin(DistRow(e, 2), 3).edge == 0;
    assert TraceFrom(e, 2, 0) == TraceFrom(e, 1, 1) + [0];
    assert TraceFrom(e, 1, 1) == TraceFrom(e, 0, 0) + [1];
  }

  /** The example from the assignment: an all-black 3-by-3 picture yields the
      vertical seam [0, 1, 0]. */
  lemma BlackPictureSeam(root: nat -> real)
    requires root(0) == 0.0
    ensures Seam(EnergyMatrix(root, Black3, false)) == [0, 1, 0]
  {
    Black3EnergyMatrix(root, Black3);
    Black3Seam(EnergyMatrix(root, Black3, false));
  }
}

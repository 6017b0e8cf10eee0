/** Rectangular matrices stored row by row, and the transpose the seam carver
    uses to run one shortest-path pass over either image axis. */
module Matrix {

  /** `m` has `rows` rows of `cols` entries each. */
  predicate IsRect<T>(m: seq<seq<T>>, rows: nat, cols: nat)
  {
    |m| == rows && forall i :: 0 <= i < rows ==> |m[i]| == cols
  }

  /** A matrix with at least one row, rectangular by the length of its first row. */
  predicate IsMatrix<T>(m: seq<seq<T>>)
  {
    |m| > 0 && IsRect(m, |m|, |m[0]|)
  }

  /** The transpose of `m`: it has `|m[0]|` rows and `|m|` columns, and its
      entry `[j][i]` is `m[i][j]`. */
  function Transpose<T>(m: seq<seq<T>>): (t: seq<seq<T>>)
    requires IsMatrix(m)
    ensures IsRect(t, |m[0]|, |m|)
    ensures forall i, j :: 0 <= i < |m| && 0 <= j < |m[0]| ==> t[j][i] == m[i][j]
  {
    seq(|m[0]|, j requires 0 <= j < |m[0]| => seq(|m|, i requires 0 <= i < |m| => m[i][j]))
  }

  /** Transposing twice gives back the original matrix, provided it has at
      least one column (otherwise the row count is lost). */
  lemma TransposeTwice<T>(m: seq<seq<T>>)
    requires IsMatrix(m) && |m[0]| > 0
    ensures IsMatrix(Transpose(m))
    ensures Transpose(Transpose(m)) == m
  {
    var t := Transpose(m);
    var tt := Transpose(t);
    assert |tt| == |m|;
    forall i | 0 <= i < |m|
      ensures tt[i] == m[i]
    {
      assert |tt[i]| == |m[i]|;
      forall j | 0 <= j < |m[i]|
        ensures tt[i][j] == m[i][j]
      {
        assert tt[i][j] == t[j][i];
      }
    }
  }
}

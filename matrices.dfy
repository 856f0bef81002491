/** Shared types of the testor programs: a boolean matrix is a sequence of rows of bits. */
module Matrices {

  /** One cell of a boolean matrix (the source stores it in an int that is always 0 or 1). */
  type Bit = x: int | 0 <= x <= 1

  type Row = seq<Bit>

  type Matrix = seq<Row>

  /** All rows have the same length. */
  predicate Rectangular(M: Matrix) {
    forall r, s :: r in M && s in M ==> |r| == |s|
  }

  /** Every row of M has exactly w columns. */
  predicate HasWidth(M: Matrix, w: nat) {
    forall i :: 0 <= i < |M| ==> |M[i]| == w
  }

  /** YYC and BT read MB[0], so they need a nonempty matrix; every row has the width of row 0. */
  predicate WellFormed(MB: Matrix) {
    |MB| > 0 && HasWidth(MB, |MB[0]|)
  }

  /** The number of columns of a well-formed matrix. */
  function Cols(MB: Matrix): nat
    requires |MB| > 0
  {
    |MB[0]|
  }

  /** A row with no 1. */
  predicate IsZeroRow(r: Row) {
    forall j :: 0 <= j < |r| ==> r[j] == 0
  }

  /** The row of n zeros. */
  function Zeros(n: nat): (r: Row)
    ensures |r| == n && IsZeroRow(r)
  {
    seq(n, _ => 0)
  }

  lemma RectangularWidth(M: Matrix)
    requires Rectangular(M) && |M| > 0
    ensures HasWidth(M, |M[0]|)
  {
    forall i | 0 <= i < |M| ensures |M[i]| == |M[0]| {
      assert M[i] in M && M[0] in M;
    }
  }

  lemma WidthRectangular(M: Matrix, w: nat)
    requires HasWidth(M, w)
    ensures Rectangular(M)
  {
    forall r, s | r in M && s in M ensures |r| == |s| {
      var i :| 0 <= i < |M| && M[i] == r;
      var j :| 0 <= j < |M| && M[j] == s;
    }
  }
}

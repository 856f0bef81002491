/** The matrix operators phi, theta and gamma, which build larger boolean matrices out of two
    smaller ones. */
module Combinators {
  import opened Matrices

  // ---------------------------------------------------------------------------------------
  // What the operators build
  // ---------------------------------------------------------------------------------------

  /** Row i of A followed by row i of B, for every i. */
  function Juxtapose(A: Matrix, B: Matrix): Matrix
    requires |A| == |B|
  {
    seq(|A|, i requires 0 <= i < |A| => A[i] + B[i])
  }

  /** Row a followed by each row of B, in order. */
  function RowTimes(a: Row, B: Matrix): Matrix {
    seq(|B|, j requires 0 <= j < |B| => a + B[j])
  }

  /** Every row of A followed by every row of B: the rows of A in order, and for each of them the
      rows of B in order. */
  function Product(A: Matrix, B: Matrix): Matrix {
    if A == [] then [] else Product(A[..|A| - 1], B) + RowTimes(A[|A| - 1], B)
  }

  /** Every row of M has at least w entries. */
  predicate AtLeastWide(M: Matrix, w: nat) {
    forall i :: 0 <= i < |M| ==> w <= |M[i]|
  }

  /** Entry (i, j) of the block-diagonal matrix of A (wa columns) and B (wb columns): A in the top
      left corner, B in the bottom right, 0 elsewhere. */
  function DiagonalEntry(A: Matrix, B: Matrix, wa: nat, wb: nat, i: nat, j: nat): Bit
    requires AtLeastWide(A, wa) && AtLeastWide(B, wb)
    requires i < |A| + |B| && j < wa + wb
  {
    if i < |A| then (if j < wa then A[i][j] else 0)
    else if j < wa then 0
    else B[i - |A|][j - wa]
  }

  /** The block-diagonal matrix of A and B, with as many columns as row 0 of each. */
  function Diagonal(A: Matrix, B: Matrix): Matrix
    requires |A| > 0 && |B| > 0
    requires AtLeastWide(A, |A[0]|) && AtLeastWide(B, |B[0]|)
  {
    var wa, wb := |A[0]|, |B[0]|;
    seq(|A| + |B|, i requires 0 <= i < |A| + |B| =>
      seq(wa + wb, j requires 0 <= j < wa + wb => DiagonalEntry(A, B, wa, wb, i, j)))
  }

  /** n rows of w zeros. */
  function ZeroMatrix(n: nat, w: nat): (Z: Matrix)
    ensures |Z| == n && HasWidth(Z, w)
    ensures forall i, j :: 0 <= i < n && 0 <= j < w ==> Z[i][j] == 0
  {
    seq(n, _ => Zeros(w))
  }

  // ---------------------------------------------------------------------------------------
  // The source's loops
  // ---------------------------------------------------------------------------------------

  /** phi: the rows of A and B joined pairwise; no rows at all when A and B differ in height. */
  method Phi(A: Matrix, B: Matrix) returns (resultado: Matrix)
    ensures |A| != |B| ==> resultado == []
    ensures |A| == |B| ==> resultado == Juxtapose(A, B)
  {
    if |A| != |B| {
      return [];
    }
    resultado := [];
    for i := 0 to |A|
      invariant resultado == Juxtapose(A[..i], B[..i])
    {
      var fila := A[i] + B[i];
      resultado := resultado + [fila];
    }
    assert A[..|A|] == A && B[..|B|] == B;
  }

  /** theta: for each row of A, that row joined with each row of B. */
  method Theta(A: Matrix, B: Matrix) returns (resultado: Matrix)
    ensures resultado == Product(A, B)
  {
    resultado := [];
    for a := 0 to |A|
      invariant resultado == Product(A[..a], B)
    {
      assert A[..a + 1][..a] == A[..a];
      for b := 0 to |B|
        invariant resultado == Product(A[..a], B) + RowTimes(A[a], B[..b])
      {
        var fila := A[a] + B[b];
        assert RowTimes(A[a], B[..b + 1]) == RowTimes(A[a], B[..b]) + [fila];
        resultado := resultado + [fila];
      }
      assert B[..|B|] == B;
    }
    assert A[..|A|] == A;
  }

  /** gamma: a zero matrix of |A| + |B| rows and colsA + colsB columns, then A copied into the top
      left corner and B into the bottom right, entry by entry. The source reads A[0] and B[0], so
      both must be nonempty, and every row must be at least as long as row 0. */
  method Gamma(A: Matrix, B: Matrix) returns (resultado: Matrix)
    requires |A| > 0 && |B| > 0
    requires AtLeastWide(A, |A[0]|) && AtLeastWide(B, |B[0]|)
    ensures resultado == Diagonal(A, B)
  {
    var filasA, filasB := |A|, |B|;
    var colsA, colsB := |A[0]|, |B[0]|;
    var filas, cols := filasA + filasB, colsA + colsB;
    resultado := ZeroMatrix(filas, cols);
    for i := 0 to filasA
      invariant |resultado| == filas && HasWidth(resultado, cols)
      invariant forall r, c :: 0 <= r < filas && 0 <= c < cols ==>
        resultado[r][c] == (if r < i && c < colsA then A[r][c] else 0)
    {
      for j := 0 to colsA
        invariant |resultado| == filas && HasWidth(resultado, cols)
        invariant forall r, c :: 0 <= r < filas && 0 <= c < cols ==>
          resultado[r][c] == (if (r < i || (r == i && c < j)) && c < colsA then A[r][c] else 0)
      {
        resultado := resultado[i := resultado[i][j := A[i][j]]];
      }
    }
    for i := 0 to filasB
      invariant |resultado| == filas && HasWidth(resultado, cols)
      invariant forall r, c :: 0 <= r < filas && 0 <= c < cols ==>
        resultado[r][c] == DiagonalPart(A, B, colsA, colsB, i, 0, r, c)
    {
      for j := 0 to colsB
        invariant |resultado| == filas && HasWidth(resultado, cols)
        invariant forall r, c :: 0 <= r < filas && 0 <= c < cols ==>
          resultado[r][c] == DiagonalPart(A, B, colsA, colsB, i, j, r, c)
      {
        resultado := resultado[filasA + i := resultado[filasA + i][colsA + j := B[i][j]]];
      }
    }
    forall r | 0 <= r < filas ensures resultado[r] == Diagonal(A, B)[r] {
      assert forall c :: 0 <= c < cols ==>
        (DiagonalPart(A, B, colsA, colsB, filasB, 0, r, c) == DiagonalEntry(A, B, colsA, colsB, r, c));
    }
  }

  /** Entry (r, c) of gamma's result once all of A, and the rows of B before row i together with
      the first j entries of row i, have been copied. */
  function DiagonalPart(A: Matrix, B: Matrix, wa: nat, wb: nat, i: nat, j: nat, r: nat, c: nat): Bit
    requires AtLeastWide(A, wa) && AtLeastWide(B, wb) && i <= |B|
    requires r < |A| + |B| && c < wa + wb
  {
    if r < |A| then (if c < wa then A[r][c] else 0)
    else if c < wa then 0
    else if r - |A| < i || (r - |A| == i && c - wa < j) then B[r - |A|][c - wa]
    else 0
  }

  // ---------------------------------------------------------------------------------------
  // What the results are
  // ---------------------------------------------------------------------------------------

  /** phi keeps the height, and each row splits back into the row of A and the row of B it was
      made of; on matrices of widths wa and wb it has width wa + wb. */
  lemma JuxtaposeRows(A: Matrix, B: Matrix, wa: nat, wb: nat)
    requires |A| == |B|
    ensures |Juxtapose(A, B)| == |A|
    ensures forall i :: 0 <= i < |A| ==>
      Juxtapose(A, B)[i][..|A[i]|] == A[i] && Juxtapose(A, B)[i][|A[i]|..] == B[i]
    ensures HasWidth(A, wa) && HasWidth(B, wb) ==> HasWidth(Juxtapose(A, B), wa + wb)
  {
    forall i | 0 <= i < |A|
      ensures Juxtapose(A, B)[i][..|A[i]|] == A[i] && Juxtapose(A, B)[i][|A[i]|..] == B[i]
    {
      var row := Juxtapose(A, B)[i];
      assert row == A[i] + B[i];
    }
  }

  /** theta has |A| * |B| rows. */
  lemma {:induction false} ProductLength(A: Matrix, B: Matrix)
    ensures |Product(A, B)| == |A| * |B|
  {
    if A != [] {
      ProductLength(A[..|A| - 1], B);
      MulSucc(|A| - 1, |B|);
    }
  }

  /** Row i * |B| + j of theta is row i of A followed by row j of B. */
  lemma {:induction false} ProductAt(A: Matrix, B: Matrix, i: nat, j: nat)
    requires i < |A| && j < |B|
    ensures i * |B| + j < |Product(A, B)|
    ensures Product(A, B)[i * |B| + j] == A[i] + B[j]
  {
    var init, m := A[..|A| - 1], |B|;
    ProductLength(init, B);
    var P := Product(init, B);
    assert Product(A, B) == P + RowTimes(A[|A| - 1], B);
    if i < |A| - 1 {
      ProductAt(init, B, i, j);
      assert init[i] == A[i];
    } else {
      assert i * m == |P|;
    }
  }

  lemma MulSucc(a: nat, m: nat)
    ensures (a + 1) * m == a * m + m
  {
  }

  /** theta of a single row a and B is phi of |B| copies of a and B. */
  lemma ProductOfOneRow(a: Row, B: Matrix)
    ensures Product([a], B) == Juxtapose(seq(|B|, _ => a), B)
  {
    assert [a][..0] == [];
  }

  /** gamma's rows: a row of A padded with colsB zeros on top, colsA zeros followed by a row of B
      below. */
  lemma DiagonalRows(A: Matrix, B: Matrix)
    requires |A| > 0 && |B| > 0
    requires HasWidth(A, |A[0]|) && HasWidth(B, |B[0]|)
    ensures |Diagonal(A, B)| == |A| + |B| && HasWidth(Diagonal(A, B), |A[0]| + |B[0]|)
    ensures forall i :: 0 <= i < |A| ==> Diagonal(A, B)[i] == A[i] + Zeros(|B[0]|)
    ensures forall i :: 0 <= i < |B| ==> Diagonal(A, B)[|A| + i] == Zeros(|A[0]|) + B[i]
  {
    var wa, wb, D := |A[0]|, |B[0]|, Diagonal(A, B);
    forall i | 0 <= i < |A| ensures D[i] == A[i] + Zeros(wb) {
      assert forall j :: 0 <= j < wa + wb ==> D[i][j] == (A[i] + Zeros(wb))[j];
    }
    forall i | 0 <= i < |B| ensures D[|A| + i] == Zeros(wa) + B[i] {
      assert forall j :: 0 <= j < wa + wb ==> D[|A| + i][j] == (Zeros(wa) + B[i])[j];
    }
  }

  /** gamma is phi of A with a zero block, stacked on phi of a zero block with B. */
  lemma DiagonalAsJuxtapose(A: Matrix, B: Matrix)
    requires |A| > 0 && |B| > 0
    requires HasWidth(A, |A[0]|) && HasWidth(B, |B[0]|)
    ensures Diagonal(A, B) ==
      Juxtapose(A, ZeroMatrix(|A|, |B[0]|)) + Juxtapose(ZeroMatrix(|B|, |A[0]|), B)
  {
    DiagonalRows(A, B);
    var top, bottom := Juxtapose(A, ZeroMatrix(|A|, |B[0]|)), Juxtapose(ZeroMatrix(|B|, |A[0]|), B);
    forall i | 0 <= i < |A| + |B| ensures Diagonal(A, B)[i] == (top + bottom)[i] {
      if i >= |A| {
        assert (top + bottom)[i] == bottom[i - |A|];
      }
    }
  }
}

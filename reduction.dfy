/** The basic-matrix reduction: first-occurrence deduplication of the rows followed by
    removal of every row that lies strictly below another row. */
module Reduction {
  import opened Matrices
  import opened Sequences

  /** r lies strictly below s: r <= s in every column and r differs from s. */
  predicate IsStrictSubrow(r: Row, s: Row)
    requires |r| == |s|
  {
    (forall i :: 0 <= i < |r| ==> r[i] <= s[i]) && r != s
  }

  /** esSubfila: stops with false at the first column where r exceeds s; otherwise reports
      whether some column of r was strictly smaller. */
  method EsSubfila(r: Row, s: Row) returns (b: bool)
    requires |r| == |s|
    ensures b <==> IsStrictSubrow(r, s)
  {
    var strict := false;
    for i := 0 to |r|
      invariant forall k :: 0 <= k < i ==> r[k] <= s[k]
      invariant strict <==> exists k :: 0 <= k < i && r[k] < s[k]
    {
      if r[i] > s[i] {
        return false;
      }
      if r[i] < s[i] {
        strict := true;
      }
    }
    if !strict {
      assert forall k :: 0 <= k < |r| ==> r[k] == s[k];
      assert r == s;
    }
    return strict;
  }

  /** The string key that filasUnicas builds for a row: one digit character per column. */
  function Key(r: Row): string
  {
    seq(|r|, i requires 0 <= i < |r| => ('0' as int + r[i]) as char)
  }

  /** Distinct rows have distinct keys, so deduplicating by key is deduplicating by row. */
  lemma KeyInjective(r: Row, s: Row)
    requires Key(r) == Key(s)
    ensures r == s
  {
    assert |r| == |Key(r)| == |Key(s)| == |s|;
    forall i | 0 <= i < |r| ensures r[i] == s[i] {
      assert Key(r)[i] == Key(s)[i];
    }
  }

  /** The loop that appends one digit per column to `clave`. */
  method RowKey(r: Row) returns (key: string)
    ensures key == Key(r)
  {
    key := "";
    for j := 0 to |r|
      invariant key == Key(r[..j])
    {
      key := key + [('0' as int + r[j]) as char];
    }
    assert r[..|r|] == r;
  }

  /** filasUnicas: a row is appended when its key has not been seen before. */
  method FilasUnicas(M: Matrix) returns (out: Matrix)
    ensures out == Dedup(M)
    ensures forall r :: r in out ==> r in M
    ensures forall r :: r in M ==> r in out
    ensures NoDuplicates(out)
    ensures forall a, b :: 0 <= a < b < |out| ==> FirstIndex(M, out[a]) < FirstIndex(M, out[b])
  {
    var seen: set<string> := {};
    out := [];
    for i := 0 to |M|
      invariant out == Dedup(M[..i])
      invariant forall r :: r in M[..i] ==> Key(r) in seen
      invariant forall r :: Key(r) in seen ==> r in M[..i]
    {
      assert M[..i + 1][..i] == M[..i];
      assert M[..i + 1] == M[..i] + [M[i]];
      var key := RowKey(M[i]);
      if key !in seen {
        seen := seen + {key};
        out := out + [M[i]];
        forall r | Key(r) in seen ensures r in M[..i + 1] {
          if Key(r) == key {
            KeyInjective(r, M[i]);
          }
        }
      } else {
        assert M[i] in M[..i];
      }
    }
    assert M[..|M|] == M;
    DedupElements(M);
    DedupNoDuplicates(M);
    DedupFirstOccurrenceOrder(M);
  }

  /** Some row of U of the same width lies strictly above r. */
  predicate Dominated(r: Row, U: Matrix)
  {
    exists s :: s in U && |s| == |r| && IsStrictSubrow(r, s)
  }

  /** The rows of xs, in order, that no row of U lies strictly above. */
  function Undominated(U: Matrix, xs: Matrix): Matrix
  {
    if xs == [] then []
    else Undominated(U, xs[..|xs| - 1]) + (if Dominated(xs[|xs| - 1], U) then [] else [xs[|xs| - 1]])
  }

  /** The basic matrix of M: its distinct rows, kept when no row of M lies strictly above them. */
  function BasicMatrix(M: Matrix): Matrix
  {
    Undominated(Dedup(M), Dedup(M))
  }

  /** With U rectangular, being dominated by some row of U is being dominated by U[m] for an m
      other than i. */
  lemma DominatedAtIndex(U: Matrix, i: nat)
    requires Rectangular(U) && i < |U|
    ensures Dominated(U[i], U) <==> exists m :: 0 <= m < |U| && m != i && IsStrictSubrow(U[i], U[m])
  {
    RectangularWidth(U);
    if Dominated(U[i], U) {
      var s :| s in U && |s| == |U[i]| && IsStrictSubrow(U[i], s);
      var m :| 0 <= m < |U| && U[m] == s;
      assert m != i;
    }
    if exists m :: 0 <= m < |U| && m != i && IsStrictSubrow(U[i], U[m]) {
      var m :| 0 <= m < |U| && m != i && IsStrictSubrow(U[i], U[m]);
      assert U[m] in U;
    }
  }

  lemma RowsOfDedupRectangular(M: Matrix)
    requires Rectangular(M)
    ensures Rectangular(Dedup(M))
  {
    DedupElements(M);
  }

  /** aMatrizBasica (FINALCODE/finalcode.cpp and finalcode.cpp): keep[i] is cleared for every
      j != i with U[i] strictly below U[j]; the rows still marked are copied out in order. */
  method AMatrizBasica(M: Matrix) returns (BM: Matrix)
    requires Rectangular(M)
    ensures BM == BasicMatrix(M)
  {
    var U := FilasUnicas(M);
    RowsOfDedupRectangular(M);
    var r := |U|;
    var keep := new bool[r](_ => true);
    for i := 0 to r
      invariant forall k :: 0 <= k < i ==> keep[k] == !Dominated(U[k], U)
      invariant forall k :: i <= k < r ==> keep[k]
    {
      MarkRow(U, keep, i);
    }
    BM := CopyKept(U, keep);
  }

  /** The inner loop of aMatrizBasica for one row i: every j != i whose row lies strictly above
      U[i] clears keep[i]. */
  method MarkRow(U: Matrix, keep: array<bool>, i: nat)
    requires Rectangular(U) && keep.Length == |U| && i < |U| && keep[i]
    modifies keep
    ensures keep[i] == !Dominated(U[i], U)
    ensures forall k :: 0 <= k < |U| && k != i ==> keep[k] == old(keep[k])
  {
    RectangularWidth(U);
    for j := 0 to |U|
      invariant forall k :: 0 <= k < |U| && k != i ==> keep[k] == old(keep[k])
      invariant keep[i] <==> forall m :: 0 <= m < j && m != i ==> !IsStrictSubrow(U[i], U[m])
    {
      if i != j {
        var sub := EsSubfila(U[i], U[j]);
        if sub {
          keep[i] := false;
        }
      }
    }
    DominatedAtIndex(U, i);
  }

  /** aMatrizBasica of ejercicio1.cpp: returns an empty input as it is, and leaves the scan
      for row i at the first j that dominates it. */
  method AMatrizBasicaWithBreak(M: Matrix) returns (BM: Matrix)
    requires Rectangular(M)
    ensures |M| == 0 ==> BM == M
    ensures BM == BasicMatrix(M)
  {
    if |M| == 0 {
      return M;
    }
    var U := FilasUnicas(M);
    RowsOfDedupRectangular(M);
    var r := |U|;
    var keep := new bool[r](_ => true);
    for i := 0 to r
      invariant forall k :: 0 <= k < i ==> keep[k] == !Dominated(U[k], U)
      invariant forall k :: i <= k < r ==> keep[k]
    {
      MarkRowWithBreak(U, keep, i);
    }
    BM := CopyKept(U, keep);
  }

  /** The inner loop of ejercicio1.cpp for one row i: skips j == i and stops at the first j
      whose row lies strictly above U[i], after clearing keep[i]. */
  method MarkRowWithBreak(U: Matrix, keep: array<bool>, i: nat)
    requires Rectangular(U) && keep.Length == |U| && i < |U| && keep[i]
    modifies keep
    ensures keep[i] == !Dominated(U[i], U)
    ensures forall k :: 0 <= k < |U| && k != i ==> keep[k] == old(keep[k])
  {
    RectangularWidth(U);
    for j := 0 to |U|
      invariant forall k :: 0 <= k < |U| && k != i ==> keep[k] == old(keep[k])
      invariant keep[i]
      invariant forall m :: 0 <= m < j && m != i ==> !IsStrictSubrow(U[i], U[m])
    {
      if i == j {
        continue;
      }
      var sub := EsSubfila(U[i], U[j]);
      if sub {
        keep[i] := false;
        break;
      }
    }
    DominatedAtIndex(U, i);
  }

  /** The final loop of aMatrizBasica: push_back of every row still marked. */
  method CopyKept(U: Matrix, keep: array<bool>) returns (BM: Matrix)
    requires keep.Length == |U|
    requires forall k :: 0 <= k < |U| ==> keep[k] == !Dominated(U[k], U)
    ensures BM == Undominated(U, U)
  {
    BM := [];
    for i := 0 to |U|
      invariant BM == Undominated(U, U[..i])
    {
      assert U[..i + 1][..i] == U[..i];
      if keep[i] {
        BM := BM + [U[i]];
      }
    }
    assert U[..|U|] == U;
  }

  lemma {:induction false} UndominatedElements(U: Matrix, xs: Matrix)
    ensures forall r :: r in Undominated(U, xs) ==> r in xs && !Dominated(r, U)
    ensures forall r :: r in xs && !Dominated(r, U) ==> r in Undominated(U, xs)
  {
    if xs != [] {
      UndominatedElements(U, xs[..|xs| - 1]);
      assert xs == xs[..|xs| - 1] + [xs[|xs| - 1]];
    }
  }

  lemma {:induction false} UndominatedSubsequence(U: Matrix, xs: Matrix)
    ensures IsSubsequence(Undominated(U, xs), xs)
  {
    if xs != [] {
      var init, x := xs[..|xs| - 1], xs[|xs| - 1];
      UndominatedSubsequence(U, init);
      assert xs == init + [x];
      if Dominated(x, U) {
        assert Undominated(U, xs) == Undominated(U, init);
        SubsequenceExtend(Undominated(U, init), init, x);
      } else {
        var u := Undominated(U, init) + [x];
        assert Undominated(U, xs) == u;
        assert u[..|u| - 1] == Undominated(U, init);
      }
    }
  }

  lemma {:induction false} UndominatedDistinct(U: Matrix, xs: Matrix)
    requires NoDuplicates(xs)
    ensures NoDuplicates(Undominated(U, xs))
  {
    if xs != [] {
      var init := xs[..|xs| - 1];
      UndominatedDistinct(U, init);
      UndominatedElements(U, init);
      assert xs[|xs| - 1] !in init;
    }
  }

  lemma {:induction false} UndominatedAll(U: Matrix, xs: Matrix)
    requires forall r :: r in xs ==> !Dominated(r, U)
    ensures Undominated(U, xs) == xs
  {
    if xs != [] {
      var init := xs[..|xs| - 1];
      assert xs == init + [xs[|xs| - 1]];
      UndominatedAll(U, init);
    }
  }

  /** A row of M is in the basic matrix exactly when no row of M lies strictly above it. */
  lemma BasicMatrixMembership(M: Matrix)
    ensures forall r :: r in BasicMatrix(M) <==> r in M && !Dominated(r, M)
  {
    DedupElements(M);
    UndominatedElements(Dedup(M), Dedup(M));
    forall r ensures Dominated(r, Dedup(M)) <==> Dominated(r, M) {
      if Dominated(r, M) {
        var s :| s in M && |s| == |r| && IsStrictSubrow(r, s);
        assert s in Dedup(M);
      }
    }
  }

  /** The basic matrix keeps the rows of the deduplicated matrix in their order, has no equal
      rows and no row strictly below another. */
  lemma BasicMatrixShape(M: Matrix)
    requires Rectangular(M)
    ensures IsSubsequence(BasicMatrix(M), Dedup(M))
    ensures NoDuplicates(BasicMatrix(M))
    ensures forall a, b :: a in BasicMatrix(M) && b in BasicMatrix(M) ==>
      |a| == |b| && !IsStrictSubrow(a, b)
  {
    UndominatedSubsequence(Dedup(M), Dedup(M));
    DedupNoDuplicates(M);
    UndominatedDistinct(Dedup(M), Dedup(M));
    BasicMatrixMembership(M);
  }

  /** Reducing a basic matrix again changes nothing. */
  lemma BasicMatrixIdempotent(M: Matrix)
    requires Rectangular(M)
    ensures BasicMatrix(BasicMatrix(M)) == BasicMatrix(M)
  {
    var B := BasicMatrix(M);
    BasicMatrixShape(M);
    DedupOfDistinct(B);
    forall r | r in B ensures !Dominated(r, B) {
      forall s | s in B && |s| == |r| ensures !IsStrictSubrow(r, s) {
      }
    }
    UndominatedAll(B, B);
  }

  /** An all-zero row is removed as soon as another row of the matrix holds a 1: that row
      lies strictly above it. */
  lemma ZeroRowRemoved(M: Matrix, z: Row, s: Row)
    requires Rectangular(M) && z in M && IsZeroRow(z) && s in M && !IsZeroRow(s)
    ensures z !in BasicMatrix(M)
  {
    assert |s| == |z|;
    assert IsStrictSubrow(z, s) by {
      var j :| 0 <= j < |s| && s[j] != 0;
      assert z[j] != s[j];
    }
    assert Dominated(z, M);
    BasicMatrixMembership(M);
  }

  /** An all-zero row survives when every row of M is all zero, and only then. */
  lemma ZeroRowSurvival(M: Matrix, z: Row)
    requires Rectangular(M) && z in M && IsZeroRow(z)
    ensures z in BasicMatrix(M) <==> forall s :: s in M ==> IsZeroRow(s)
  {
    if exists s :: s in M && !IsZeroRow(s) {
      var s :| s in M && !IsZeroRow(s);
      ZeroRowRemoved(M, z, s);
    } else {
      BasicMatrixMembership(M);
      forall s | s in M && |s| == |z| ensures !IsStrictSubrow(z, s) {
        assert IsZeroRow(s);
        assert s == z;
      }
    }
  }
}

/** contar_unos and ordenar_filas_por_unos: the rows of a matrix ordered by their number of 1s,
    ascending. The source hands the work to std::sort, whose order among rows with equally many 1s
    is unspecified; the model sorts by insertion, and its contract says only what any such order
    satisfies: the result is a permutation of the input whose counts never decrease. */
module RowSort {
  import opened Matrices

  /** contar_unos: the sum of the entries of a row, accumulated from the left. */
  function CountOnes(r: Row): (c: nat)
    ensures c <= |r|
  {
    if r == [] then 0 else CountOnes(r[..|r| - 1]) + r[|r| - 1]
  }

  /** The sum of a 0/1 row is the number of 1s in it. */
  lemma {:induction false} CountOnesMultiplicity(r: Row)
    ensures CountOnes(r) == multiset(r)[1]
  {
    if r != [] {
      var init := r[..|r| - 1];
      CountOnesMultiplicity(init);
      assert r == init + [r[|r| - 1]];
    }
  }

  /** A row sums to 0 exactly when it has no 1. */
  lemma {:induction false} CountOnesZero(r: Row)
    ensures CountOnes(r) == 0 <==> IsZeroRow(r)
  {
    if r != [] {
      var init := r[..|r| - 1];
      CountOnesZero(init);
      if IsZeroRow(r) {
        assert IsZeroRow(init);
      }
      if CountOnes(r) == 0 {
        forall j | 0 <= j < |r| ensures r[j] == 0 {
          if j < |init| {
            assert r[j] == init[j];
          }
        }
      }
    }
  }

  /** The rows of M have non-decreasing numbers of 1s. */
  predicate SortedByOnes(M: Matrix) {
    forall i, j :: 0 <= i < j < |M| ==> CountOnes(M[i]) <= CountOnes(M[j])
  }

  /** Every row of M has at least c 1s. */
  predicate AllAtLeast(M: Matrix, c: nat) {
    forall i :: 0 <= i < |M| ==> c <= CountOnes(M[i])
  }

  /** r placed in front of the first row of M that has more 1s than r. */
  function InsertByOnes(M: Matrix, r: Row): (out: Matrix)
    ensures multiset(out) == multiset(M) + multiset{r}
  {
    if M == [] then [r]
    else if CountOnes(r) < CountOnes(M[0]) then [r] + M
    else
      assert M == [M[0]] + M[1..];
      [M[0]] + InsertByOnes(M[1..], r)
  }

  /** A lower bound on the counts of M and of r bounds those of the insertion. */
  lemma {:induction false} InsertAtLeast(M: Matrix, r: Row, c: nat)
    requires AllAtLeast(M, c) && c <= CountOnes(r)
    ensures AllAtLeast(InsertByOnes(M, r), c)
  {
    if M == [] {
      assert InsertByOnes(M, r) == [r];
    } else if CountOnes(r) < CountOnes(M[0]) {
      var out := [r] + M;
      assert InsertByOnes(M, r) == out;
      forall i | 0 <= i < |out| ensures c <= CountOnes(out[i]) {
        if i > 0 {
          assert out[i] == M[i - 1];
        }
      }
    } else {
      var t := InsertByOnes(M[1..], r);
      assert AllAtLeast(M[1..], c) by {
        forall i | 0 <= i < |M| - 1 ensures c <= CountOnes(M[1..][i]) {
          assert M[1..][i] == M[i + 1];
        }
      }
      InsertAtLeast(M[1..], r, c);
      var out := [M[0]] + t;
      assert InsertByOnes(M, r) == out;
      forall i | 0 <= i < |out| ensures c <= CountOnes(out[i]) {
        if i > 0 {
          assert out[i] == t[i - 1];
        }
      }
    }
  }

  /** Inserting into a sorted matrix keeps it sorted. */
  lemma {:induction false} InsertSorted(M: Matrix, r: Row)
    requires SortedByOnes(M)
    ensures SortedByOnes(InsertByOnes(M, r))
  {
    if M != [] {
      var h := M[0];
      if CountOnes(r) < CountOnes(h) {
        assert AllAtLeast(M, CountOnes(h));
      } else {
        var t := InsertByOnes(M[1..], r);
        InsertSorted(M[1..], r);
        assert AllAtLeast(M[1..], CountOnes(h));
        InsertAtLeast(M[1..], r, CountOnes(h));
        assert InsertByOnes(M, r) == [h] + t;
      }
    }
  }

  /** ordenar_filas_por_unos: a copy of M sorted by the number of 1s of each row. */
  method OrdenarFilasPorUnos(M: Matrix) returns (ordenada: Matrix)
    ensures multiset(ordenada) == multiset(M)
    ensures SortedByOnes(ordenada)
  {
    ordenada := [];
    for i := 0 to |M|
      invariant multiset(ordenada) == multiset(M[..i])
      invariant SortedByOnes(ordenada)
    {
      assert M[..i + 1] == M[..i] + [M[i]];
      InsertSorted(ordenada, M[i]);
      ordenada := InsertByOnes(ordenada, M[i]);
    }
    assert M[..|M|] == M;
  }

  /** Sorting keeps the rows of M, each as often as it occurs, so it keeps the number of rows. */
  lemma SortedPermutation(M: Matrix, S: Matrix)
    requires multiset(S) == multiset(M)
    ensures |S| == |M|
    ensures forall r :: r in S <==> r in M
  {
    assert |multiset(S)| == |multiset(M)|;
    forall r ensures r in S <==> r in M {
      assert r in S <==> r in multiset(S);
      assert r in M <==> r in multiset(M);
    }
  }
}

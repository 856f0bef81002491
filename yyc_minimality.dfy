/** What YYC's result is. With the compatibility test of the YYC algorithm, the sets left after
    the last row are exactly the typical testors. With the test the source applies
    (cumple_criterios) no typical testor is lost, but a non-minimal cover can survive. */
module YycMinimality {
  import opened Matrices
  import opened ColumnSets
  import opened Yyc
  import Sequences
  import Reduction

  /** C without its k-th column. */
  function Remove(C: seq<nat>, k: nat): (r: seq<nat>)
    requires k < |C|
    ensures |r| == |C| - 1
    ensures forall m :: 0 <= m < k ==> r[m] == C[m]
    ensures forall m :: k <= m < |r| ==> r[m] == C[m + 1]
  {
    C[..k] + C[k + 1..]
  }

  /** C hits every row of MB. */
  predicate Covers(MB: Matrix, C: seq<nat>) {
    forall i :: 0 <= i < |MB| ==> Hits(MB[i], C)
  }

  /** A typical testor, given as a column set: it covers every row and, without any one of its
      columns, it no longer does. */
  predicate TypicalSet(MB: Matrix, C: seq<nat>) {
    Covers(MB, C) && forall k :: 0 <= k < |C| ==> !Covers(MB, Remove(C, k))
  }

  // ---------------------------------------------------------------------------------------
  // Counting the 1s of a row under a column set
  // ---------------------------------------------------------------------------------------

  lemma {:induction false} OnesInConcat(row: Row, a: seq<nat>, b: seq<nat>)
    ensures OnesIn(row, a + b) == OnesIn(row, a) + OnesIn(row, b)
  {
    if b == [] {
      assert a + b == a;
    } else {
      var init := b[..|b| - 1];
      OnesInConcat(row, a, init);
      assert (a + b)[..|a + b| - 1] == a + init;
    }
  }

  /** Dropping column k takes away exactly that column's bit. */
  lemma OnesInRemove(row: Row, C: seq<nat>, k: nat)
    requires k < |C|
    ensures OnesIn(row, C) == OnesIn(row, Remove(C, k)) + At(row, C[k])
  {
    var a, b := C[..k], C[k + 1..];
    assert C == a + [C[k]] + b;
    assert [C[k]][..0] == [];
    OnesInConcat(row, a, [C[k]]);
    OnesInConcat(row, a + [C[k]], b);
    OnesInConcat(row, a, b);
  }

  /** A set hits a row exactly when it has a 1 there. */
  lemma {:induction false} HitsOnesIn(row: Row, C: seq<nat>)
    ensures Hits(row, C) <==> OnesIn(row, C) > 0
  {
    if C != [] {
      var init := C[..|C| - 1];
      HitsOnesIn(row, init);
      if Hits(row, C) {
        var k :| 0 <= k < |C| && C[k] < |row| && row[C[k]] == 1;
        if k < |init| {
          assert init[k] == C[k];
        }
      }
      if Hits(row, init) {
        var k :| 0 <= k < |init| && init[k] < |row| && row[init[k]] == 1;
        assert C[k] == init[k];
      }
      if At(row, C[|C| - 1]) == 1 {
        assert C[|C| - 1] < |row|;
      }
    }
  }

  /** Without column k, C still hits the row exactly when it hit it and the row is not typical
      for C[k]. */
  lemma RemoveHits(row: Row, C: seq<nat>, k: nat)
    requires k < |C|
    ensures Hits(row, Remove(C, k)) <==> Hits(row, C) && !IsTypicalRow(row, C, k)
  {
    OnesInRemove(row, C, k);
    HitsOnesIn(row, C);
    HitsOnesIn(row, Remove(C, k));
  }

  /** In a row typical for C[m], the only column of C holding a 1 is C[m]. */
  lemma TypicalRowOnly(row: Row, C: seq<nat>, m: nat, k: nat)
    requires m < |C| && k < |C| && IsTypicalRow(row, C, m)
    ensures At(row, C[k]) == 1 <==> k == m
  {
    if k != m {
      OnesInRemove(row, C, m);
      var S := Remove(C, m);
      var idx := if k < m then k else k - 1;
      assert S[idx] == C[k];
      HitsOnesIn(row, S);
      if At(row, C[k]) == 1 {
        assert Hits(row, S);
      }
    }
  }

  lemma RemoveColumnSet(C: seq<nat>, k: nat, n: nat)
    requires IsColumnSet(C, n) && k < |C|
    ensures IsColumnSet(Remove(C, k), n)
    ensures C[k] !in Remove(C, k)
    ensures Insert(Remove(C, k), C[k]) == C
  {
    RemoveIncreasing(C, k, n);
    RemoveInsert(C, k);
  }

  /** Removing a column keeps a column set and drops that column. */
  lemma RemoveIncreasing(C: seq<nat>, k: nat, n: nat)
    requires IsColumnSet(C, n) && k < |C|
    ensures IsColumnSet(Remove(C, k), n) && C[k] !in Remove(C, k)
  {
    var S := Remove(C, k);
    forall a, b | 0 <= a < b < |S| ensures S[a] < S[b] {
      var ia := if a < k then a else a + 1;
      var ib := if b < k then b else b + 1;
      assert S[a] == C[ia] && S[b] == C[ib];
    }
    forall j | 0 <= j < |S| ensures S[j] != C[k] && S[j] < n {
      var ij := if j < k then j else j + 1;
      assert S[j] == C[ij];
    }
  }

  /** Putting a removed column back gives the column set again. */
  lemma RemoveInsert(C: seq<nat>, k: nat)
    requires IsIncreasing(C) && k < |C|
    requires IsIncreasing(Remove(C, k))
    ensures Insert(Remove(C, k), C[k]) == C
  {
    var S := Remove(C, k);
    var T := Insert(S, C[k]);
    RemoveElements(C, k);
    assert forall y :: y in T ==> y in C;
    assert forall y :: y in C ==> y in T;
    IncreasingUnique(T, C);
  }

  /** The columns left after removing C[k] are the other columns of C. */
  lemma RemoveElements(C: seq<nat>, k: nat)
    requires k < |C|
    ensures forall y :: y in Remove(C, k) ==> y in C
    ensures forall y :: y in C && y != C[k] ==> y in Remove(C, k)
  {
    var S := Remove(C, k);
    forall y | y in S ensures y in C {
      var j :| 0 <= j < |S| && S[j] == y;
      var ij := if j < k then j else j + 1;
      assert S[j] == C[ij];
    }
    forall y | y in C && y != C[k] ensures y in S {
      var j :| 0 <= j < |C| && C[j] == y;
      var idx := if j < k then j else j - 1;
      assert S[idx] == y;
    }
  }

  // ---------------------------------------------------------------------------------------
  // The compatibility frontier holds exactly the typical testors
  // ---------------------------------------------------------------------------------------

  /** Every set in the compatibility frontier after the last row is a typical testor. */
  lemma FixedSound(MB: Matrix, C: seq<nat>)
    requires WellFormed(MB) && C in Testors(Compatibility, MB)
    ensures Fits(MB, C) && TypicalSet(MB, C)
  {
    TestorsMember(Compatibility, MB, |MB| - 1, C);
    CompatibleTypical(MB, C);
  }

  /** A set covering every row and compatible over all of them is a typical testor. */
  lemma CompatibleTypical(MB: Matrix, C: seq<nat>)
    requires |MB| > 0 && CoversUpTo(MB, C, |MB| - 1) && Compatible(MB, C, |MB| - 1)
    ensures TypicalSet(MB, C)
  {
    var last := |MB| - 1;
    forall k | 0 <= k < |C| ensures !Covers(MB, Remove(C, k)) {
      assert HasTypicalRow(MB, C, k, last);
      var i :| 0 <= i <= last && IsTypicalRow(MB[i], C, k);
      RemoveHits(MB[i], C, k);
    }
  }

  /** A typical testor is compatible over all the rows: each of its columns is necessary for
      some row, where it is then the only one of the set. */
  lemma TypicalCompatible(MB: Matrix, C: seq<nat>)
    requires |MB| > 0 && TypicalSet(MB, C)
    ensures CoversUpTo(MB, C, |MB| - 1) && Compatible(MB, C, |MB| - 1)
  {
    var last := |MB| - 1;
    forall k | 0 <= k < |C| ensures HasTypicalRow(MB, C, k, last) {
      assert !Covers(MB, Remove(C, k));
      var i :| 0 <= i < |MB| && !Hits(MB[i], Remove(C, k));
      RemoveHits(MB[i], C, k);
    }
  }

  /** Over row 0 alone, a compatible cover is a single column holding a 1 there. */
  lemma FirstRowComplete(MB: Matrix, C: seq<nat>)
    requires Fits(MB, C) && CoversUpTo(MB, C, 0) && Compatible(MB, C, 0)
    ensures C in Frontier(Compatibility, MB, 0)
  {
    assert Hits(MB[0], C);
    var last := |C| - 1;
    assert HasTypicalRow(MB, C, 0, 0);
    assert IsTypicalRow(MB[0], C, 0);
    assert HasTypicalRow(MB, C, last, 0);
    assert IsTypicalRow(MB[0], C, last);
    TypicalRowOnly(MB[0], C, 0, last);
    var c := C[0];
    assert C == [c];
    FirstFrontier(Compatibility, MB, c);
  }

  /** The induction step of completeness: when row f is the only typical row of column C[k] up
      to f, the set without C[k] is compatible up to row f - 1 and C is its successor at row f. */
  lemma DropTypicalColumn(MB: Matrix, C: seq<nat>, k: nat, f: nat)
    requires Fits(MB, C) && 0 < f < |MB| && k < |C|
    requires CoversUpTo(MB, C, f) && Compatible(MB, C, f) && !HasTypicalRow(MB, C, k, f - 1)
    ensures Fits(MB, Remove(C, k))
    ensures CoversUpTo(MB, Remove(C, k), f - 1) && Compatible(MB, Remove(C, k), f - 1)
    ensures IsSuccessor(Compatibility, MB, f, Remove(C, k), C)
  {
    var S := Remove(C, k);
    RemoveColumnSet(C, k, Cols(MB));
    assert HasTypicalRow(MB, C, k, f);
    var i0 :| 0 <= i0 <= f && IsTypicalRow(MB[i0], C, k);
    assert i0 == f;
    RemoveHits(MB[f], C, k);
    forall j | 0 <= j <= f - 1 ensures Hits(MB[j], S) {
      RemoveHits(MB[j], C, k);
    }
    var p := f - 1;
    forall m' | 0 <= m' < |S| ensures HasTypicalRow(MB, S, m', p) {
      KeepTypicalRow(MB, C, k, f, m');
    }
    var col := C[k];
    assert |MB[f]| == Cols(MB);
    assert IsSuccessor(Compatibility, MB, f, S, C) by {
      assert !Hits(MB[f], S);
      assert col < |MB[f]| && MB[f][col] == 1 && col !in S && C == Insert(S, col) &&
        Admits(Compatibility, MB, C, f);
    }
  }

  /** Under the hypotheses of DropTypicalColumn, every other column keeps a typical row, and it
      lies before row f. */
  lemma KeepTypicalRow(MB: Matrix, C: seq<nat>, k: nat, f: nat, m': nat)
    requires 0 < f < |MB| && k < |C| && m' + 1 < |C|
    requires Compatible(MB, C, f) && IsTypicalRow(MB[f], C, k)
    ensures HasTypicalRow(MB, Remove(C, k), m', f - 1)
  {
    var S := Remove(C, k);
    var m := if m' < k then m' else m' + 1;
    assert S[m'] == C[m];
    assert HasTypicalRow(MB, C, m, f);
    var i :| 0 <= i <= f && IsTypicalRow(MB[i], C, m);
    TypicalRowOnly(MB[i], C, m, k);
    TypicalRowOnly(MB[f], C, k, m);
    OnesInRemove(MB[i], C, k);
    assert IsTypicalRow(MB[i], S, m');
  }

  /** Every set covering rows 0 .. f and compatible over them is in the compatibility frontier
      after row f. */
  ghost predicate CompleteAt(MB: Matrix, f: nat)
    requires f < |MB|
  {
    forall C :: Fits(MB, C) && CoversUpTo(MB, C, f) && Compatible(MB, C, f) ==>
      C in Frontier(Compatibility, MB, f)
  }

  /** Every compatibility frontier is complete (by induction on f, the hypothesis covering row
      f - 1). */
  lemma {:induction false} FixedComplete(MB: Matrix, f: nat)
    requires WellFormed(MB) && f < |MB|
    ensures CompleteAt(MB, f)
    decreases f
  {
    if f == 0 {
      CompleteFirst(MB);
    } else {
      FixedComplete(MB, f - 1);
      CompleteNext(MB, f);
    }
  }

  /** The base of FixedComplete. */
  lemma CompleteFirst(MB: Matrix)
    requires WellFormed(MB)
    ensures CompleteAt(MB, 0)
  {
    forall C | Fits(MB, C) && CoversUpTo(MB, C, 0) && Compatible(MB, C, 0)
      ensures C in Frontier(Compatibility, MB, 0)
    {
      FirstRowComplete(MB, C);
    }
  }

  /** The step of FixedComplete. */
  lemma CompleteNext(MB: Matrix, f: nat)
    requires WellFormed(MB) && 0 < f < |MB| && CompleteAt(MB, f - 1)
    ensures CompleteAt(MB, f)
  {
    forall C | Fits(MB, C) && CoversUpTo(MB, C, f) && Compatible(MB, C, f)
      ensures C in Frontier(Compatibility, MB, f)
    {
      CompleteStep(MB, C, f);
    }
  }

  /** The induction step of FixedComplete for one set C: either C is compatible already over
      rows 0 .. f - 1 and hits row f, or one of its columns has its only typical row at f and C
      is that column's extension of a smaller compatible set. */
  lemma CompleteStep(MB: Matrix, C: seq<nat>, f: nat)
    requires WellFormed(MB) && 0 < f < |MB| && CompleteAt(MB, f - 1)
    requires Fits(MB, C) && CoversUpTo(MB, C, f) && Compatible(MB, C, f)
    ensures C in Frontier(Compatibility, MB, f)
  {
    if Compatible(MB, C, f - 1) {
      assert CoversUpTo(MB, C, f - 1);
      assert C in Frontier(Compatibility, MB, f - 1);
      assert Hits(MB[f], C);
      assert IsSuccessor(Compatibility, MB, f, C, C);
      FrontierStep(Compatibility, MB, f, C);
    } else {
      var k :| 0 <= k < |C| && !HasTypicalRow(MB, C, k, f - 1);
      DropTypicalColumn(MB, C, k, f);
      assert Remove(C, k) in Frontier(Compatibility, MB, f - 1);
      FrontierStep(Compatibility, MB, f, C);
    }
  }

  /** With the compatibility test, YYC returns exactly the typical testors. */
  lemma FixedExact(MB: Matrix, C: seq<nat>)
    requires WellFormed(MB)
    ensures C in Testors(Compatibility, MB) ==> Fits(MB, C) && TypicalSet(MB, C)
    ensures Fits(MB, C) && TypicalSet(MB, C) ==> C in Testors(Compatibility, MB)
  {
    if C in Testors(Compatibility, MB) {
      FixedSound(MB, C);
    }
    if Fits(MB, C) && TypicalSet(MB, C) {
      TypicalCompatible(MB, C);
      FixedComplete(MB, |MB| - 1);
    }
  }

  // ---------------------------------------------------------------------------------------
  // The source's test admits every compatible set
  // ---------------------------------------------------------------------------------------

  /** Row i is typical for column C[k], for some i < upto. */
  predicate TypicalBefore(MB: Matrix, C: seq<nat>, k: nat, upto: nat)
    requires k < |C| && upto <= |MB|
  {
    exists i :: 0 <= i < upto && IsTypicalRow(MB[i], C, k)
  }

  /** The number of columns among C[0 .. kk-1] that have a typical row before row upto. */
  function TypicalColumns(MB: Matrix, C: seq<nat>, upto: nat, kk: nat): nat
    requires upto <= |MB| && kk <= |C|
  {
    if kk == 0 then 0
    else TypicalColumns(MB, C, upto, kk - 1) + (if TypicalBefore(MB, C, kk - 1, upto) then 1 else 0)
  }

  /** The number of columns among C[0 .. kk-1] for which row is typical. */
  function TypicalInRow(row: Row, C: seq<nat>, kk: nat): nat
    requires kk <= |C|
  {
    if kk == 0 then 0
    else TypicalInRow(row, C, kk - 1) + (if IsTypicalRow(row, C, kk - 1) then 1 else 0)
  }

  lemma {:induction false} TypicalInRowPrefix(row: Row, C: seq<nat>, kk: nat)
    requires kk <= |C|
    ensures TypicalInRow(row, C, kk) == if OnesIn(row, C) == 1 then OnesIn(row, C[..kk]) else 0
  {
    if kk > 0 {
      TypicalInRowPrefix(row, C, kk - 1);
      assert C[..kk][..kk - 1] == C[..kk - 1];
    }
  }

  /** A row is typical for at most one column of C, and for one only when it holds exactly one
      1 under C. */
  lemma TypicalInRowBound(row: Row, C: seq<nat>)
    ensures TypicalInRow(row, C, |C|) == if OnesIn(row, C) == 1 then 1 else 0
  {
    TypicalInRowPrefix(row, C, |C|);
    assert C[..|C|] == C;
  }

  lemma {:induction false} TypicalColumnsStep(MB: Matrix, C: seq<nat>, upto: nat, kk: nat)
    requires upto < |MB| && kk <= |C|
    ensures TypicalColumns(MB, C, upto + 1, kk) <= TypicalColumns(MB, C, upto, kk) + TypicalInRow(MB[upto], C, kk)
  {
    if kk > 0 {
      TypicalColumnsStep(MB, C, upto, kk - 1);
      var k := kk - 1;
      var next := upto + 1;
      if TypicalBefore(MB, C, k, next) {
        var i :| 0 <= i < next && IsTypicalRow(MB[i], C, k);
        if i < upto {
          assert TypicalBefore(MB, C, k, upto);
        }
      }
    }
  }

  lemma {:induction false} TypicalColumnsBound(MB: Matrix, C: seq<nat>, upto: nat)
    requires upto <= |MB|
    ensures TypicalColumns(MB, C, upto, |C|) <= ExactlyOneRows(MB, C, upto)
  {
    if upto == 0 {
      TypicalColumnsNone(MB, C, |C|);
    } else {
      var u := upto - 1;
      TypicalColumnsBound(MB, C, u);
      TypicalColumnsStep(MB, C, u, |C|);
      TypicalInRowBound(MB[u], C);
    }
  }

  lemma {:induction false} TypicalColumnsNone(MB: Matrix, C: seq<nat>, kk: nat)
    requires kk <= |C|
    ensures TypicalColumns(MB, C, 0, kk) == 0
  {
    if kk > 0 {
      TypicalColumnsNone(MB, C, kk - 1);
    }
  }

  lemma {:induction false} TypicalColumnsAll(MB: Matrix, C: seq<nat>, upto: nat, kk: nat)
    requires upto <= |MB| && kk <= |C|
    requires forall k :: 0 <= k < kk ==> TypicalBefore(MB, C, k, upto)
    ensures TypicalColumns(MB, C, upto, kk) == kk
  {
    if kk > 0 {
      TypicalColumnsAll(MB, C, upto, kk - 1);
    }
  }

  lemma {:induction false} TallyPositive(MB: Matrix, c: nat, upto: nat, i: nat)
    requires i < upto <= |MB| && At(MB[i], c) == 1
    ensures ColumnTally(MB, c, upto) >= 1
  {
    if i < upto - 1 {
      TallyPositive(MB, c, upto - 1, i);
    }
  }

  /** A compatible set passes cumple_criterios: its columns' typical rows are |C| distinct rows
      each holding exactly one 1 under C, and each holds a 1 in its own column. */
  lemma CompatibleCriteria(MB: Matrix, C: seq<nat>, f: nat)
    requires f < |MB| && Compatible(MB, C, f)
    ensures Criteria(MB, C, f)
  {
    var upto := f + 1;
    forall k | 0 <= k < |C| ensures TypicalBefore(MB, C, k, upto) && ColumnTally(MB, C[k], upto) >= 1 {
      assert HasTypicalRow(MB, C, k, f);
      var i :| 0 <= i <= f && IsTypicalRow(MB[i], C, k);
      TallyPositive(MB, C[k], upto, i);
    }
    TypicalColumnsAll(MB, C, upto, |C|);
    TypicalColumnsBound(MB, C, upto);
  }

  /** Every set of the compatibility frontier after row f is in the source's frontier. */
  predicate IncludedAt(MB: Matrix, f: nat)
    requires f < |MB|
  {
    forall C :: C in Frontier(Compatibility, MB, f) ==> C in Frontier(AsWritten, MB, f)
  }

  /** The source's frontier includes the compatibility frontier (by induction on f, the
      hypothesis covering row f - 1). */
  lemma {:induction false} FixedWithinAsWritten(MB: Matrix, f: nat)
    requires WellFormed(MB) && f < |MB|
    ensures IncludedAt(MB, f)
    decreases f
  {
    if f > 0 {
      FixedWithinAsWritten(MB, f - 1);
      IncludedStep(MB, f);
    }
  }

  /** The step from row f - 1 to row f keeps the inclusion. */
  lemma IncludedStep(MB: Matrix, f: nat)
    requires WellFormed(MB) && 0 < f < |MB| && IncludedAt(MB, f - 1)
    ensures IncludedAt(MB, f)
  {
    forall X | X in Frontier(Compatibility, MB, f) ensures X in Frontier(AsWritten, MB, f) {
      SuccessorWithinAsWritten(MB, f, X);
    }
  }

  /** The induction step of FixedWithinAsWritten for one set X. */
  lemma SuccessorWithinAsWritten(MB: Matrix, f: nat, X: seq<nat>)
    requires WellFormed(MB) && 0 < f < |MB| && X in Frontier(Compatibility, MB, f)
    requires IncludedAt(MB, f - 1)
    ensures X in Frontier(AsWritten, MB, f)
  {
    FrontierStep(Compatibility, MB, f, X);
    var C :| C in Frontier(Compatibility, MB, f - 1) && IsSuccessor(Compatibility, MB, f, C, X);
    if !Hits(MB[f], C) {
      CompatibleCriteria(MB, X, f);
    }
    assert IsSuccessor(AsWritten, MB, f, C, X);
    FrontierStep(AsWritten, MB, f, X);
  }

  /** As written, YYC returns every typical testor. */
  lemma AsWrittenComplete(MB: Matrix, C: seq<nat>)
    requires WellFormed(MB) && Fits(MB, C) && TypicalSet(MB, C)
    ensures C in Testors(AsWritten, MB)
  {
    FixedExact(MB, C);
    IncludedTestors(MB, |MB| - 1, C);
  }

  /** What YYC returns under the compatibility test it also returns as written. */
  lemma IncludedTestors(MB: Matrix, g: nat, C: seq<nat>)
    requires WellFormed(MB) && g + 1 == |MB| && C in Testors(Compatibility, MB)
    ensures C in Testors(AsWritten, MB)
  {
    FixedWithinAsWritten(MB, g);
  }

  // ---------------------------------------------------------------------------------------
  // ... but also a set that is not minimal
  // ---------------------------------------------------------------------------------------

  /** A 4 x 5 matrix; CounterexampleBasic shows that it is basic. */
  function Counterexample(): (MB: Matrix)
    ensures WellFormed(MB) && Cols(MB) == 5
  {
    [[1, 0, 0, 0, 1],
     [0, 0, 1, 1, 0],
     [0, 1, 0, 0, 1],
     [0, 1, 0, 1, 0]]
  }

  /** The matrix above is its own basic matrix: its rows are distinct and none lies strictly
      below another. */
  lemma CounterexampleBasic()
    ensures Reduction.BasicMatrix(Counterexample()) == Counterexample()
  {
    var MB := Counterexample();
    Sequences.DedupOfDistinct(MB);
    forall i, j | 0 <= i < 4 && 0 <= j < 4 && i != j ensures !Reduction.IsStrictSubrow(MB[i], MB[j]) {
      var r, s := MB[i], MB[j];
      assert r[0] > s[0] || r[1] > s[1] || r[2] > s[2] || r[3] > s[3] || r[4] > s[4];
    }
    forall r | r in MB ensures !Reduction.Dominated(r, MB) {
      var i :| 0 <= i < 4 && MB[i] == r;
      forall s | s in MB && |s| == |r| ensures !Reduction.IsStrictSubrow(r, s) {
        var j :| 0 <= j < 4 && MB[j] == s;
      }
    }
    Reduction.UndominatedAll(MB, MB);
  }

  /** On the matrix above the source's YYC returns {2, 3, 4}, although {3, 4} already covers
      every row: {4} is extended by column 2 at row 1, {2, 4} hits row 2, and at row 3 it is
      extended by column 3; cumple_criterios accepts {2, 3, 4} because three of the four rows
      hold exactly one 1 under it. */
  lemma AsWrittenNotMinimal()
    ensures [2, 3, 4] in Testors(AsWritten, Counterexample())
    ensures !TypicalSet(Counterexample(), [2, 3, 4])
    ensures [2, 3, 4] !in Testors(Compatibility, Counterexample())
  {
    var MB := Counterexample();
    CounterexampleRow1();
    CounterexampleRow2();
    CounterexampleRow3();
    CounterexampleNotTypical();
    FixedExact(MB, [2, 3, 4]);
  }

  /** Row 1: {4} misses it and is extended by column 2. */
  lemma CounterexampleRow1()
    ensures [2, 4] in Frontier(AsWritten, Counterexample(), 1)
  {
    var MB := Counterexample();
    FirstFrontier(AsWritten, MB, 4);
    assert MB[1] == [0, 0, 1, 1, 0];
    assert !Hits(MB[1], [4]);
    assert Insert([4], 2) == [2, 4];
    assert [2, 4][..1] == [2];
    assert OnesIn(MB[0], [2, 4]) == 1 && OnesIn(MB[1], [2, 4]) == 1;
    assert ExactlyOneRows(MB, [2, 4], 2) == 2;
    assert ColumnTally(MB, 2, 2) == 1 && ColumnTally(MB, 4, 2) == 1;
    assert Criteria(MB, [2, 4], 1);
    assert IsSuccessor(AsWritten, MB, 1, [4], [2, 4]);
    FrontierStep(AsWritten, MB, 1, [2, 4]);
  }

  /** Row 2: {2, 4} hits it and is carried forward. */
  lemma CounterexampleRow2()
    ensures [2, 4] in Frontier(AsWritten, Counterexample(), 2)
  {
    var MB := Counterexample();
    CounterexampleRow1();
    assert MB[2][[2, 4][1]] == 1;
    assert IsSuccessor(AsWritten, MB, 2, [2, 4], [2, 4]);
    FrontierStep(AsWritten, MB, 2, [2, 4]);
  }

  /** Row 3: {2, 4} misses it and is extended by column 3, which cumple_criterios accepts. */
  lemma CounterexampleRow3()
    ensures [2, 3, 4] in Testors(AsWritten, Counterexample())
  {
    var MB := Counterexample();
    CounterexampleRow2();
    CounterexampleExtension();
    FrontierStep(AsWritten, MB, 3, [2, 3, 4]);
  }

  /** At row 3, {2, 3, 4} is a successor of {2, 4}. */
  lemma CounterexampleExtension()
    ensures IsSuccessor(AsWritten, Counterexample(), 3, [2, 4], [2, 3, 4])
  {
    var MB := Counterexample();
    CounterexampleCriteria();
    assert MB[3] == [0, 1, 0, 1, 0];
    assert !Hits(MB[3], [2, 4]);
    assert Insert([2, 4], 3) == [2, 3, 4];
  }

  /** cumple_criterios accepts {2, 3, 4} over all four rows: rows 0, 2 and 3 hold exactly one 1
      under it, and each of its columns holds a 1 somewhere. */
  lemma CounterexampleCriteria()
    ensures Criteria(Counterexample(), [2, 3, 4], 3)
  {
    var MB := Counterexample();
    var X := [2, 3, 4];
    OnesInThree(MB[0], 2, 3, 4);
    OnesInThree(MB[1], 2, 3, 4);
    OnesInThree(MB[2], 2, 3, 4);
    OnesInThree(MB[3], 2, 3, 4);
    assert OnesIn(MB[0], X) == 1 && OnesIn(MB[1], X) == 2;
    assert OnesIn(MB[2], X) == 1 && OnesIn(MB[3], X) == 1;
    assert ExactlyOneRows(MB, X, 4) == 3;
    assert ColumnTally(MB, 2, 4) == 1 && ColumnTally(MB, 3, 4) == 2 && ColumnTally(MB, 4, 4) == 2;
  }

  /** The count of 1s of a row under a three-column set. */
  lemma OnesInThree(row: Row, a: nat, b: nat, c: nat)
    ensures OnesIn(row, [a, b, c]) == At(row, a) + At(row, b) + At(row, c)
  {
    assert OnesIn(row, [a]) == At(row, a) by {
      assert [a][..0] == [];
    }
    assert OnesIn(row, [a, b]) == OnesIn(row, [a]) + At(row, b) by {
      assert [a, b][..1] == [a];
    }
    assert OnesIn(row, [a, b, c]) == OnesIn(row, [a, b]) + At(row, c) by {
      assert [a, b, c][..2] == [a, b];
    }
  }

  /** {3, 4}, that is {2, 3, 4} without its first column, still covers every row. */
  lemma CounterexampleNotTypical()
    ensures !TypicalSet(Counterexample(), [2, 3, 4])
  {
    var MB := Counterexample();
    var X := [2, 3, 4];
    var S := Remove(X, 0);
    assert S == [3, 4];
    assert |MB| == 4;
    forall i | 0 <= i < |MB| ensures Hits(MB[i], S) {
      if i == 0 || i == 2 {
        assert MB[i][S[1]] == 1;
      } else {
        assert MB[i][S[0]] == 1;
      }
    }
    assert Covers(MB, Remove(X, 0));
  }
}

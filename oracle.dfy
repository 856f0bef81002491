/** YYC (with the compatibility rule) and BT compute the same typical testors: a column set and
    its 0/1 indicator vector describe the same test, so the sets YYC returns are exactly the
    column sets of the vectors BT returns. */
module Oracle {
  import opened Matrices
  import opened Bits
  import opened ColumnSets
  import Bt
  import Yyc
  import YycMinimality

  /** A column set hits a row exactly when its indicator vector does. */
  lemma HitsIndicator(row: Row, C: seq<nat>, n: nat)
    requires IsColumnSet(C, n) && |row| == n
    ensures Hits(row, C) <==> Bt.RowHit(row, Indicator(C, n))
  {
    var v := Indicator(C, n);
    if Hits(row, C) {
      var k :| 0 <= k < |C| && C[k] < |row| && row[C[k]] == 1;
      assert v[C[k]] == 1;
    }
    if Bt.RowHit(row, v) {
      var j :| 0 <= j < |v| && j < |row| && v[j] == 1 && row[j] == 1;
      assert j in C;
      var k :| 0 <= k < |C| && C[k] == j;
    }
  }

  /** A column set is a testor exactly when its indicator vector is. */
  lemma CoversIndicator(MB: Matrix, C: seq<nat>, n: nat)
    requires IsColumnSet(C, n) && HasWidth(MB, n)
    ensures YycMinimality.Covers(MB, C) <==> Bt.CoversVec(MB, Indicator(C, n))
  {
    forall i | 0 <= i < |MB| ensures Hits(MB[i], C) <==> Bt.RowHit(MB[i], Indicator(C, n)) {
      HitsIndicator(MB[i], C, n);
    }
  }

  /** Removing the column C[k] from the set clears bit C[k] of its indicator vector. */
  lemma IndicatorRemove(C: seq<nat>, k: nat, n: nat)
    requires IsColumnSet(C, n) && k < |C|
    ensures Indicator(YycMinimality.Remove(C, k), n) == Bt.Drop(Indicator(C, n), C[k])
  {
    var R := YycMinimality.Remove(C, k);
    YycMinimality.RemoveElements(C, k);
    forall y | y in R ensures y != C[k] {
      var m :| 0 <= m < |R| && R[m] == y;
      if m < k {
        assert C[m] < C[k];
      } else {
        assert C[k] < C[m + 1];
      }
    }
  }

  /** Without column C[k], the set is a testor exactly when the vector without bit C[k] is. */
  lemma RemoveIndicator(MB: Matrix, C: seq<nat>, k: nat, n: nat)
    requires IsColumnSet(C, n) && HasWidth(MB, n) && k < |C|
    ensures YycMinimality.Covers(MB, YycMinimality.Remove(C, k)) <==>
      Bt.CoversVec(MB, Bt.Drop(Indicator(C, n), C[k]))
  {
    YycMinimality.RemoveColumnSet(C, k, n);
    IndicatorRemove(C, k, n);
    CoversIndicator(MB, YycMinimality.Remove(C, k), n);
  }

  /** The indicator vector of a typical column set is a typical vector. */
  lemma TypicalSetVec(MB: Matrix, C: seq<nat>, n: nat)
    requires IsColumnSet(C, n) && HasWidth(MB, n)
    requires YycMinimality.TypicalSet(MB, C)
    ensures Bt.TypicalVec(MB, Indicator(C, n))
  {
    var v := Indicator(C, n);
    CoversIndicator(MB, C, n);
    forall j | 0 <= j < |v| && v[j] == 1 ensures !Bt.CoversVec(MB, Bt.Drop(v, j)) {
      assert j in C;
      var k :| 0 <= k < |C| && C[k] == j;
      RemoveIndicator(MB, C, k, n);
    }
  }

  /** A column set whose indicator vector is typical is a typical column set. */
  lemma TypicalVecSet(MB: Matrix, C: seq<nat>, n: nat)
    requires IsColumnSet(C, n) && HasWidth(MB, n)
    requires Bt.TypicalVec(MB, Indicator(C, n))
    ensures YycMinimality.TypicalSet(MB, C)
  {
    var v := Indicator(C, n);
    CoversIndicator(MB, C, n);
    forall k | 0 <= k < |C| ensures !YycMinimality.Covers(MB, YycMinimality.Remove(C, k)) {
      assert v[C[k]] == 1;
      RemoveIndicator(MB, C, k, n);
    }
  }

  /** A column set is a typical testor exactly when its indicator vector is. */
  lemma TypicalIndicator(MB: Matrix, C: seq<nat>, n: nat)
    requires IsColumnSet(C, n) && HasWidth(MB, n)
    ensures YycMinimality.TypicalSet(MB, C) <==> Bt.TypicalVec(MB, Indicator(C, n))
  {
    if YycMinimality.TypicalSet(MB, C) {
      TypicalSetVec(MB, C, n);
    }
    if Bt.TypicalVec(MB, Indicator(C, n)) {
      TypicalVecSet(MB, C, n);
    }
  }

  /** A vector is in BT's output exactly when its column set is in the output of YYC with the
      compatibility rule. */
  lemma VectorAgreement(MB: Matrix, x: Row)
    requires WellFormed(MB) && |x| == Cols(MB)
    ensures x in Bt.TypicalBelow(MB, Cols(MB), Pow2(Cols(MB))) <==>
      ColumnsOf(x) in Yyc.Testors(Yyc.Compatibility, MB)
  {
    var n := Cols(MB);
    Bt.BtOutput(MB, n, x);
    ColumnsIndicator(x);
    TypicalIndicator(MB, ColumnsOf(x), n);
    YycMinimality.FixedExact(MB, ColumnsOf(x));
  }

  /** A column set is in the output of YYC with the compatibility rule exactly when it is a column
      set of the matrix whose indicator vector is in BT's output. */
  lemma SetAgreement(MB: Matrix, C: seq<nat>)
    requires WellFormed(MB)
    ensures C in Yyc.Testors(Yyc.Compatibility, MB) <==>
      IsColumnSet(C, Cols(MB)) && Indicator(C, Cols(MB)) in Bt.TypicalBelow(MB, Cols(MB), Pow2(Cols(MB)))
  {
    var n := Cols(MB);
    YycMinimality.FixedExact(MB, C);
    if IsColumnSet(C, n) {
      Bt.BtOutput(MB, n, Indicator(C, n));
      TypicalIndicator(MB, C, n);
    }
  }
}

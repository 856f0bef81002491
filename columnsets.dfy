/** Column sets (the source's `Conjunto`, a std::set<int>) and their use on single rows. A
    column set is held as the strictly increasing sequence of its columns, the order in which
    std::set iterates, so two column sets are equal exactly when they hold the same columns. */
module ColumnSets {
  import opened Matrices

  predicate IsIncreasing(C: seq<nat>) {
    forall i, j :: 0 <= i < j < |C| ==> C[i] < C[j]
  }

  /** A column set over n columns. */
  predicate IsColumnSet(C: seq<nat>, n: nat) {
    IsIncreasing(C) && forall i :: 0 <= i < |C| ==> C[i] < n
  }

  /** std::set::insert. */
  function Insert(C: seq<nat>, x: nat): (r: seq<nat>)
    ensures forall y :: y in r ==> y in C || y == x
    ensures x in r && forall y :: y in C ==> y in r
    ensures IsIncreasing(C) ==> IsIncreasing(r)
    ensures IsIncreasing(C) && x !in C ==> |r| == |C| + 1
  {
    if C == [] then [x]
    else if x < C[0] then
      ConsIncreasing(x, C);
      [x] + C
    else if x == C[0] then C
    else
      var t := Insert(C[1..], x);
      assert C == [C[0]] + C[1..];
      ConsIncreasing(C[0], C[1..]);
      ConsIncreasing(C[0], t);
      [C[0]] + t
  }

  /** h followed by an increasing t is increasing exactly when h is below every element of t. */
  lemma ConsIncreasing(h: nat, t: seq<nat>)
    ensures IsIncreasing(t) && (forall y :: y in t ==> h < y) ==> IsIncreasing([h] + t)
    ensures IsIncreasing([h] + t) ==> IsIncreasing(t) && forall y :: y in t ==> h < y
  {
    var s := [h] + t;
    if IsIncreasing([h] + t) {
      forall y | y in t ensures h < y {
        var i :| 0 <= i < |t| && t[i] == y;
        assert s[0] == h && s[i + 1] == y;
      }
      forall i, j | 0 <= i < j < |t| ensures t[i] < t[j] {
        assert s[i + 1] == t[i] && s[j + 1] == t[j];
      }
    }
    if IsIncreasing(t) && (forall y :: y in t ==> h < y) {
      forall i, j | 0 <= i < j < |s| ensures s[i] < s[j] {
        if i > 0 {
          assert s[i] == t[i - 1] && s[j] == t[j - 1];
        } else {
          assert s[j] == t[j - 1] && t[j - 1] in t;
        }
      }
    }
  }

  /** Two column sets with the same columns are the same sequence. */
  lemma {:induction false} IncreasingUnique(a: seq<nat>, b: seq<nat>)
    requires IsIncreasing(a) && IsIncreasing(b)
    requires forall y :: y in a ==> y in b
    requires forall y :: y in b ==> y in a
    ensures a == b
  {
    if a != [] {
      assert a[0] in b;
    }
    if b != [] {
      assert b[0] in a;
    }
    if a != [] && b != [] {
      assert a[0] == b[0];
      forall y | y in a[1..] ensures y in b[1..] {
        assert y in b && y != b[0];
      }
      forall y | y in b[1..] ensures y in a[1..] {
        assert y in a && y != a[0];
      }
      IncreasingUnique(a[1..], b[1..]);
    }
  }

  /** Some column of C holds a 1 in row. */
  predicate Hits(row: Row, C: seq<nat>) {
    exists k :: 0 <= k < |C| && C[k] < |row| && row[C[k]] == 1
  }

  /** tiene_uno_en_fila: scans C in increasing order and stops at the first column holding a 1. */
  method TieneUnoEnFila(row: Row, C: seq<nat>) returns (b: bool)
    requires forall k :: 0 <= k < |C| ==> C[k] < |row|
    ensures b <==> Hits(row, C)
  {
    for k := 0 to |C|
      invariant forall m :: 0 <= m < k ==> row[C[m]] != 1
    {
      if row[C[k]] == 1 {
        return true;
      }
    }
    return false;
  }

  /** The columns holding a 1 in row, in increasing order. */
  function ColumnsOf(row: Row): (r: seq<nat>)
    ensures IsColumnSet(r, |row|)
    ensures forall j :: j in r ==> j < |row| && row[j] == 1
    ensures forall j :: 0 <= j < |row| && row[j] == 1 ==> j in r
  {
    if row == [] then []
    else
      var init := row[..|row| - 1];
      assert forall j :: 0 <= j < |init| ==> init[j] == row[j];
      ColumnsOf(init) + (if row[|row| - 1] == 1 then [|row| - 1] else [])
  }

  /** The loop in YYC that collects `columnasActivas` of a row. */
  method ActiveColumns(row: Row) returns (cols: seq<nat>)
    ensures cols == ColumnsOf(row)
  {
    cols := [];
    for j := 0 to |row|
      invariant cols == ColumnsOf(row[..j])
    {
      assert row[..j + 1][..j] == row[..j];
      if row[j] == 1 {
        cols := cols + [j];
      }
    }
    assert row[..|row|] == row;
  }

  /** The 0/1 row of length n marking the columns of C. */
  function Indicator(C: seq<nat>, n: nat): (v: Row)
    ensures |v| == n
  {
    seq(n, x => if x in C then 1 else 0)
  }

  /** conjunto_a_vector_binario / conjunto_a_vector: a zero row of length n with v[x] set to 1
      for every x in C. */
  method ConjuntoAVector(C: seq<nat>, n: nat) returns (v: Row)
    requires forall k :: 0 <= k < |C| ==> C[k] < n
    ensures |v| == n
    ensures forall x :: 0 <= x < n ==> (v[x] == 1 <==> x in C)
    ensures v == Indicator(C, n)
  {
    var a := new Bit[n](_ => 0);
    for k := 0 to |C|
      invariant forall x :: 0 <= x < n ==> (a[x] == 1 <==> x in C[..k])
    {
      a[C[k]] := 1;
      assert C[..k + 1] == C[..k] + [C[k]];
    }
    assert C[..|C|] == C;
    v := a[..];
  }

  /** Reading the 1-columns back out of the indicator row of a column set gives the set. */
  lemma IndicatorColumns(C: seq<nat>, n: nat)
    requires IsColumnSet(C, n)
    ensures ColumnsOf(Indicator(C, n)) == C
  {
    var v := Indicator(C, n);
    forall y | y in C ensures y in ColumnsOf(v) {
      assert y < n && v[y] == 1;
    }
    IncreasingUnique(ColumnsOf(v), C);
  }

  /** Writing the indicator row of the 1-columns of a row gives the row back. */
  lemma ColumnsIndicator(row: Row)
    ensures Indicator(ColumnsOf(row), |row|) == row
  {
    var v := Indicator(ColumnsOf(row), |row|);
    forall x | 0 <= x < |row| ensures v[x] == row[x] {
      if row[x] == 1 {
        assert x in ColumnsOf(row);
      } else {
        assert x !in ColumnsOf(row);
      }
    }
  }
}

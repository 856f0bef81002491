/** BT: the walk over the 0/1 vectors of COLS bits in increasing order of their value (position 0
    is the most significant bit) that collects the typical testors of a basic matrix, jumping over
    ranges of vectors that cannot be typical. */
module Bt {
  import opened Matrices
  import opened Bits

  /** Some column marked in b holds a 1 in row. */
  predicate RowHit(row: Row, b: Row) {
    exists j :: 0 <= j < |b| && j < |row| && b[j] == 1 && row[j] == 1
  }

  /** The columns marked in b hit every row of MB: b is a testor. */
  predicate CoversVec(MB: Matrix, b: Row) {
    forall i :: 0 <= i < |MB| ==> RowHit(MB[i], b)
  }

  /** t marks a subset of the columns b marks. */
  predicate SubsetVec(t: Row, b: Row) {
    |t| == |b| && forall j :: 0 <= j < |t| && t[j] == 1 ==> b[j] == 1
  }

  /** b with column j unmarked. */
  function Drop(b: Row, j: int): (r: Row)
    requires 0 <= j < |b|
    ensures |r| == |b| && r[j] == 0 && forall m :: 0 <= m < |b| && m != j ==> r[m] == b[m]
  {
    b[j := 0]
  }

  /** A typical testor: a testor that stops being one when any one of its columns is dropped. */
  predicate TypicalVec(MB: Matrix, b: Row) {
    CoversVec(MB, b) &&
    forall j {:trigger Drop(b, j)} :: 0 <= j < |b| && b[j] == 1 ==> !CoversVec(MB, Drop(b, j))
  }

  /** The vectors of n bits with a value below hi on which P holds, in increasing order of value. */
  function Below(P: Row -> bool, n: nat, hi: nat): seq<Row> {
    if hi == 0 then []
    else
      var x := FromValue(hi - 1, n);
      Below(P, n, hi - 1) + (if P(x) then [x] else [])
  }

  function IsTypical(MB: Matrix): Row -> bool {
    x => TypicalVec(MB, x)
  }

  /** The typical testors of n bits whose value is below hi, in increasing order of value. */
  function TypicalBelow(MB: Matrix, n: nat, hi: nat): seq<Row> {
    Below(IsTypical(MB), n, hi)
  }

  // ---------------------------------------------------------------------------------------------
  // Testors, subsets and values

  /** A superset of a testor is a testor. */
  lemma CoverUpward(MB: Matrix, c: Row, d: Row)
    requires CoversVec(MB, c)
    ensures SubsetVec(c, d) ==> CoversVec(MB, d)
  {
    if SubsetVec(c, d) {
      forall i | 0 <= i < |MB| ensures RowHit(MB[i], d) {
        var j :| 0 <= j < |c| && j < |MB[i]| && c[j] == 1 && MB[i][j] == 1;
        assert d[j] == 1;
      }
    }
  }

  /** A testor inside a typical testor is that typical testor. */
  lemma TypicalMinimal(MB: Matrix, t: Row, c: Row)
    requires CoversVec(MB, c)
    ensures TypicalVec(MB, t) && SubsetVec(c, t) ==> c == t
  {
    if TypicalVec(MB, t) && SubsetVec(c, t) {
      forall j | 0 <= j < |t| ensures c[j] == t[j] {
        if t[j] == 1 {
          CoverUpward(MB, c, Drop(t, j));
        }
      }
    }
  }

  /** Value is monotone on subsets, strictly on strict subsets. */
  lemma {:induction false} SubsetValue(t: Row, b: Row)
    requires SubsetVec(t, b)
    ensures Value(t) <= Value(b)
    ensures t != b ==> Value(t) < Value(b)
  {
    if t != [] {
      var t', b' := t[..|t| - 1], b[..|b| - 1];
      assert SubsetVec(t', b');
      SubsetValue(t', b');
      assert t == t' + [t[|t| - 1]] && b == b' + [b[|b| - 1]];
    }
  }

  /** A testor that is not typical contains a typical testor other than itself. */
  lemma {:induction false} TypicalInside(MB: Matrix, b: Row)
    requires CoversVec(MB, b) && !TypicalVec(MB, b)
    ensures exists t :: TypicalVec(MB, t) && SubsetVec(t, b) && t != b
    decreases Value(b)
  {
    var j :| 0 <= j < |b| && b[j] == 1 && CoversVec(MB, Drop(b, j));
    var c := Drop(b, j);
    assert SubsetVec(c, b) && c[j] != b[j];
    SubsetValue(c, b);
    if !TypicalVec(MB, c) {
      TypicalInside(MB, c);
      var t :| TypicalVec(MB, t) && SubsetVec(t, c) && t != c;
      SubsetValue(t, c);
      assert SubsetVec(t, b);
    }
  }

  // ---------------------------------------------------------------------------------------------
  // The sequence of typical testors below a value

  /** Its elements are exactly the vectors of n bits with a value below hi on which P holds. */
  lemma {:induction false} BelowMembers(P: Row -> bool, n: nat, hi: nat, x: Row)
    requires hi <= Pow2(n)
    ensures x in Below(P, n, hi) <==> |x| == n && Value(x) < hi && P(x)
  {
    if hi > 0 {
      BelowMembers(P, n, hi - 1, x);
      var y := FromValue(hi - 1, n);
      ValueFromValue(hi - 1, n);
      if |x| == n && Value(x) == hi - 1 {
        ValueInjective(x, y);
      }
    }
  }

  predicate IncreasingValues(s: seq<Row>) {
    forall i, j :: 0 <= i < j < |s| ==> Value(s[i]) < Value(s[j])
  }

  /** Its elements come in strictly increasing order of value. */
  lemma {:induction false} BelowIncreasing(P: Row -> bool, n: nat, hi: nat)
    requires hi <= Pow2(n)
    ensures IncreasingValues(Below(P, n, hi))
  {
    if hi > 0 {
      var s := Below(P, n, hi - 1);
      BelowIncreasing(P, n, hi - 1);
      forall i | 0 <= i < |s| ensures Value(s[i]) < hi - 1 {
        BelowMembers(P, n, hi - 1, s[i]);
      }
      ValueFromValue(hi - 1, n);
    }
  }

  /** One more value: the vector of that value joins when P holds on it. */
  lemma BelowNext(P: Row -> bool, b: Row, v: nat)
    requires v == Value(b)
    ensures Below(P, |b|, v + 1) == Below(P, |b|, v) + (if P(b) then [b] else [])
  {
    FromValueValue(b);
  }

  /** A range of values on which P never holds adds nothing. */
  lemma {:induction false} BelowSkip(P: Row -> bool, n: nat, lo: nat, hi: nat)
    requires lo <= hi
    requires forall v :: lo <= v < hi ==> !P(FromValue(v, n))
    ensures Below(P, n, hi) == Below(P, n, lo)
  {
    if lo < hi {
      BelowSkip(P, n, lo, hi - 1);
      assert Below(P, n, hi) == Below(P, n, hi - 1) + [];
    }
  }

  /** The typical testors below hi are the typical vectors of n bits with a value below hi. */
  lemma TypicalBelowMembers(MB: Matrix, n: nat, hi: nat, x: Row)
    requires hi <= Pow2(n)
    ensures x in TypicalBelow(MB, n, hi) <==> |x| == n && Value(x) < hi && TypicalVec(MB, x)
  {
    BelowMembers(IsTypical(MB), n, hi, x);
  }

  /** No element marks a subset of the columns of another. */
  predicate Antichain(s: seq<Row>) {
    forall i, j :: 0 <= i < |s| && 0 <= j < |s| && i != j ==> !SubsetVec(s[i], s[j])
  }

  /** No typical testor below hi marks a subset of the columns of another. */
  lemma TypicalBelowAntichain(MB: Matrix, n: nat, hi: nat)
    requires hi <= Pow2(n)
    ensures Antichain(TypicalBelow(MB, n, hi))
  {
    var s := TypicalBelow(MB, n, hi);
    BelowIncreasing(IsTypical(MB), n, hi);
    forall i, j | 0 <= i < |s| && 0 <= j < |s| && i != j ensures !SubsetVec(s[i], s[j]) {
      TypicalBelowMembers(MB, n, hi, s[i]);
      TypicalBelowMembers(MB, n, hi, s[j]);
      TypicalMinimal(MB, s[j], s[i]);
      assert Value(s[i]) != Value(s[j]);
    }
  }

  /** No vector of n bits valued from lo up to hi is typical. */
  predicate NoTypicalIn(MB: Matrix, n: nat, lo: nat, hi: nat) {
    forall v :: lo <= v < hi ==> !TypicalVec(MB, FromValue(v, n))
  }

  /** A range of values holding no typical testor adds nothing. */
  lemma SkipNone(MB: Matrix, n: nat, lo: nat, hi: nat)
    requires lo <= hi && NoTypicalIn(MB, n, lo, hi)
    ensures TypicalBelow(MB, n, hi) == TypicalBelow(MB, n, lo)
  {
    BelowSkip(IsTypical(MB), n, lo, hi);
  }

  /** When b is a testor of value v, es_subtestor finds an earlier typical testor inside b exactly
      when b is not typical. */
  lemma AcceptIff(MB: Matrix, b: Row, v: nat)
    requires CoversVec(MB, b) && v == Value(b)
    ensures forall i :: 0 <= i < |TypicalBelow(MB, |b|, v)| ==> |TypicalBelow(MB, |b|, v)[i]| == |b|
    ensures (exists i :: 0 <= i < |TypicalBelow(MB, |b|, v)| && SubsetVec(TypicalBelow(MB, |b|, v)[i], b))
      <==> !TypicalVec(MB, b)
  {
    var s := TypicalBelow(MB, |b|, v);
    ValueBound(b);
    forall i | 0 <= i < |s| ensures |s[i]| == |b| && Value(s[i]) < v && TypicalVec(MB, s[i]) {
      TypicalBelowMembers(MB, |b|, v, s[i]);
    }
    if !TypicalVec(MB, b) {
      TypicalInside(MB, b);
      var t :| TypicalVec(MB, t) && SubsetVec(t, b) && t != b;
      SubsetValue(t, b);
      TypicalBelowMembers(MB, |b|, v, t);
      var i :| 0 <= i < |s| && s[i] == t;
    } else {
      forall i | 0 <= i < |s| ensures !SubsetVec(s[i], b) {
        TypicalMinimal(MB, b, s[i]);
      }
    }
  }

  // ---------------------------------------------------------------------------------------------
  // The last 1 of a vector and the jump after a testor

  /** encontrar_ultimo_1: one past the position of the last 1 of b, or 0 when b has none. */
  function LastOne(b: Row): (k: nat)
    ensures k <= |b|
    ensures k > 0 ==> b[k - 1] == 1
    ensures forall j :: k <= j < |b| ==> b[j] == 0
  {
    if b == [] then 0 else if b[|b| - 1] == 1 then |b| else LastOne(b[..|b| - 1])
  }

  /** Those three facts determine LastOne. */
  lemma LastOneUnique(b: Row, k: nat)
    requires k <= |b| && (k > 0 ==> b[k - 1] == 1)
    requires forall j :: k <= j < |b| ==> b[j] == 0
    ensures LastOne(b) == k
  {
  }

  /** The scan of encontrar_ultimo_1, from the last position down. */
  method EncontrarUltimo1(b: Row) returns (k: nat)
    ensures k == LastOne(b)
  {
    var i := |b| - 1;
    while i >= 0
      invariant -1 <= i < |b|
      invariant forall j :: i < j < |b| ==> b[j] == 0
    {
      if b[i] == 1 {
        LastOneUnique(b, i + 1);
        return i + 1;
      }
      i := i - 1;
    }
    LastOneUnique(b, 0);
    return 0;
  }

  /** A vector is its prefix up to its last 1 followed by zeros, so its value is at least
      2^(n - LastOne(b)) below 2^n. */
  lemma LastOneSplit(b: Row, k: nat)
    requires k == LastOne(b)
    ensures b == b[..k] + Zeros(|b| - k)
    ensures Value(b) + Pow2(|b| - k) <= Pow2(|b|)
  {
    ZeroTailShape(b, k, b[..k]);
    ZerosTailBound(b[..k], |b| - k);
  }

  /** A vector x valued from Value(b) up to below Value(b) + 2^(n - LastOne(b)) agrees with b up
      to the last 1 of b. */
  lemma CoverPrefix(b: Row, k: nat, x: Row)
    requires k == LastOne(b) && |x| == |b|
    requires Value(b) <= Value(x) < Value(b) + Pow2(|b| - k)
    ensures x[..k] == b[..k]
  {
    var p := b[..k];
    ZeroTailValue(b, k, p);
    PrefixRange(x, p);
  }

  /** Such a vector, other than b, keeps every column of the testor b and adds some, so it is a
      testor that is not typical. */
  lemma CoverSkip(MB: Matrix, b: Row, k: nat, x: Row)
    requires CoversVec(MB, b) && k == LastOne(b) && |x| == |b|
    requires Value(b) < Value(x) < Value(b) + Pow2(|b| - k)
    ensures !TypicalVec(MB, x)
  {
    CoverPrefix(b, k, x);
    forall j | 0 <= j < |b| && b[j] == 1 ensures x[j] == 1 {
      assert j < k;
      assert x[..k][j] == b[..k][j];
    }
    assert SubsetVec(b, x) && x != b;
    TypicalMinimal(MB, x, b);
  }

  /** The whole jump after a testor of value val: up to hi, only the testor itself can join. */
  lemma CoverJump(MB: Matrix, b: Row, val: nat, k: nat, hi: nat)
    requires CoversVec(MB, b) && val == Value(b) && k == LastOne(b)
    requires val < hi <= val + Pow2(|b| - k)
    ensures TypicalBelow(MB, |b|, hi) == TypicalBelow(MB, |b|, val + 1)
  {
    CoverNoTypical(MB, b, val, k, hi);
    SkipNone(MB, |b|, val + 1, hi);
  }

  lemma CoverNoTypical(MB: Matrix, b: Row, val: nat, k: nat, hi: nat)
    requires CoversVec(MB, b) && val == Value(b) && k == LastOne(b)
    requires val < hi <= val + Pow2(|b| - k)
    ensures NoTypicalIn(MB, |b|, val + 1, hi)
  {
    LastOneSplit(b, k);
    forall v | val + 1 <= v < hi ensures !TypicalVec(MB, FromValue(v, |b|)) {
      ValueFromValue(v, |b|);
      CoverSkip(MB, b, k, FromValue(v, |b|));
    }
  }

  // ---------------------------------------------------------------------------------------------
  // The rows a vector leaves uncovered and the jump after a non-testor

  /** filas_ceros: the rows among the first i of MB that b does not hit, in order. */
  function UncoveredRows(MB: Matrix, b: Row, i: nat): (rows: seq<nat>)
    requires i <= |MB|
    ensures forall k :: 0 <= k < |rows| ==> rows[k] < i
  {
    if i == 0 then []
    else UncoveredRows(MB, b, i - 1) + (if RowHit(MB[i - 1], b) then [] else [i - 1])
  }

  /** The rows listed are exactly the rows among the first i that b misses. */
  lemma {:induction false} UncoveredRowsMembers(MB: Matrix, b: Row, i: nat)
    requires i <= |MB|
    ensures forall k :: 0 <= k < |UncoveredRows(MB, b, i)| ==> !RowHit(MB[UncoveredRows(MB, b, i)[k]], b)
    ensures forall f :: 0 <= f < i && !RowHit(MB[f], b) ==> f in UncoveredRows(MB, b, i)
  {
    if i > 0 {
      UncoveredRowsMembers(MB, b, i - 1);
      var R, U := UncoveredRows(MB, b, i - 1), UncoveredRows(MB, b, i);
      var tail: seq<nat> := if RowHit(MB[i - 1], b) then [] else [i - 1];
      assert U == R + tail;
      forall k | 0 <= k < |U| ensures !RowHit(MB[U[k]], b) {
        if k < |R| {
          assert U[k] == R[k];
        } else {
          assert U[k] == i - 1;
        }
      }
      forall f | 0 <= f < i && !RowHit(MB[f], b) ensures f in U {
        if f < i - 1 {
          assert f in R;
        } else {
          assert U[|R|] == f;
        }
      }
    }
  }

  /** The K of encontrar_K over the rows listed: the least LastOne among those rows that hold a 1,
      or n + 1 when none does. */
  function MinLast(MB: Matrix, rows: seq<nat>, n: nat): (K: nat)
    requires HasWidth(MB, n) && forall k :: 0 <= k < |rows| ==> rows[k] < |MB|
    ensures 1 <= K <= n + 1
  {
    if rows == [] then n + 1
    else
      var K := MinLast(MB, rows[..|rows| - 1], n);
      var u := LastOne(MB[rows[|rows| - 1]]);
      if u != 0 && u < K then u else K
  }

  /** MinLast is at most the LastOne of every listed row holding a 1, and below n + 1 it is the
      LastOne of one of them. */
  lemma {:induction false} MinLastLeast(MB: Matrix, rows: seq<nat>, n: nat)
    requires HasWidth(MB, n) && forall k :: 0 <= k < |rows| ==> rows[k] < |MB|
    ensures forall k :: 0 <= k < |rows| && LastOne(MB[rows[k]]) != 0 ==> MinLast(MB, rows, n) <= LastOne(MB[rows[k]])
    ensures MinLast(MB, rows, n) <= n ==> exists k :: 0 <= k < |rows| && LastOne(MB[rows[k]]) == MinLast(MB, rows, n)
  {
    if rows != [] {
      var init := rows[..|rows| - 1];
      MinLastLeast(MB, init, n);
      var K := MinLast(MB, rows, n);
      if K != MinLast(MB, init, n) {
        assert LastOne(MB[rows[|rows| - 1]]) == K;
      } else if K <= n {
        var k :| 0 <= k < |init| && LastOne(MB[init[k]]) == K;
        assert rows[k] == init[k];
      }
    }
  }

  /** encontrar_K as a value: the least LastOne among the rows b misses that hold a 1, or
      |b| + 1 when there is none (FindKLeast states that). */
  function FindK(MB: Matrix, b: Row): (K: nat)
    requires HasWidth(MB, |b|)
    ensures 1 <= K <= |b| + 1
  {
    MinLast(MB, UncoveredRows(MB, b, |MB|), |b|)
  }

  /** FindK is at most the LastOne of every row b misses that holds a 1, and below |b| + 1 it is
      the LastOne of a row b misses. */
  lemma FindKLeast(MB: Matrix, b: Row)
    requires HasWidth(MB, |b|)
    ensures forall f :: 0 <= f < |MB| && !RowHit(MB[f], b) && LastOne(MB[f]) != 0 ==> FindK(MB, b) <= LastOne(MB[f])
    ensures FindK(MB, b) <= |b| ==> exists f :: 0 <= f < |MB| && !RowHit(MB[f], b) && LastOne(MB[f]) == FindK(MB, b)
  {
    var rows := UncoveredRows(MB, b, |MB|);
    UncoveredRowsMembers(MB, b, |MB|);
    MinLastLeast(MB, rows, |b|);
    forall f | 0 <= f < |MB| && !RowHit(MB[f], b) && LastOne(MB[f]) != 0 ensures FindK(MB, b) <= LastOne(MB[f]) {
      var k :| 0 <= k < |rows| && rows[k] == f;
    }
    if FindK(MB, b) <= |b| {
      var k :| 0 <= k < |rows| && LastOne(MB[rows[k]]) == FindK(MB, b);
      assert !RowHit(MB[rows[k]], b);
    }
  }

  /** The inner scan of es_testor and encontrar_K: some column marked in b holds a 1 in row. */
  method RowHasOne(row: Row, b: Row) returns (hit: bool)
    requires |row| == |b|
    ensures hit <==> RowHit(row, b)
  {
    for j := 0 to |b|
      invariant forall m :: 0 <= m < j ==> !(b[m] == 1 && row[m] == 1)
    {
      if b[j] == 1 && row[j] == 1 {
        return true;
      }
    }
    return false;
  }

  /** es_testor: every row of MB has a 1 in a column marked in b. */
  method EsTestor(MB: Matrix, b: Row) returns (r: bool)
    requires HasWidth(MB, |b|)
    ensures r <==> CoversVec(MB, b)
  {
    for i := 0 to |MB|
      invariant forall m :: 0 <= m < i ==> RowHit(MB[m], b)
    {
      var tieneUno := RowHasOne(MB[i], b);
      if !tieneUno {
        return false;
      }
    }
    return true;
  }

  /** The inner scan of es_subtestor: every column marked in t is marked in cand. */
  method IsSub(t: Row, cand: Row) returns (r: bool)
    requires |t| == |cand|
    ensures r <==> SubsetVec(t, cand)
  {
    for j := 0 to |t|
      invariant forall m :: 0 <= m < j && t[m] == 1 ==> cand[m] == 1
    {
      if t[j] == 1 && cand[j] == 0 {
        return false;
      }
    }
    return true;
  }

  /** es_subtestor: some testor found so far marks a subset of the columns of cand. */
  method EsSubtestor(testores: seq<Row>, cand: Row) returns (r: bool)
    requires forall i :: 0 <= i < |testores| ==> |testores[i]| == |cand|
    ensures r <==> exists i :: 0 <= i < |testores| && SubsetVec(testores[i], cand)
  {
    for i := 0 to |testores|
      invariant forall m :: 0 <= m < i ==> !SubsetVec(testores[m], cand)
    {
      var esSub := IsSub(testores[i], cand);
      if esSub {
        return true;
      }
    }
    return false;
  }

  /** encontrar_K: collect the rows b misses, then take the least LastOne among them. */
  method EncontrarK(MB: Matrix, b: Row) returns (K: nat)
    requires HasWidth(MB, |b|)
    ensures K == FindK(MB, b)
  {
    var filasCeros: seq<nat> := [];
    for i := 0 to |MB|
      invariant filasCeros == UncoveredRows(MB, b, i)
    {
      var hit := RowHasOne(MB[i], b);
      if !hit {
        filasCeros := filasCeros + [i];
      }
    }
    K := |b| + 1;
    for k := 0 to |filasCeros|
      invariant K == MinLast(MB, filasCeros[..k], |b|)
    {
      assert filasCeros[..k + 1][..k] == filasCeros[..k];
      var ultimaPos := EncontrarUltimo1(MB[filasCeros[k]]);
      if ultimaPos != 0 && ultimaPos < K {
        K := ultimaPos;
      }
    }
    assert filasCeros[..|filasCeros|] == filasCeros;
  }

  /** avanzar_desde_K: keep the bits before position K - 1, set bit K - 1 and clear the rest. */
  function Advance(b: Row, K: nat): (a: Row)
    ensures |a| == |b|
  {
    seq(|b|, i requires 0 <= i < |b| => if i < K - 1 then b[i] else if i == K - 1 then 1 else 0)
  }

  method AvanzarDesdeK(b: Row, K: nat) returns (nuevo: Row)
    ensures nuevo == Advance(b, K)
  {
    var a := new Bit[|b|](_ => 0);
    for i := 0 to |b|
      invariant forall m :: 0 <= m < i ==> a[m] == Advance(b, K)[m]
      invariant forall m :: i <= m < |b| ==> a[m] == 0
    {
      if i < K - 1 {
        a[i] := b[i];
      } else if i == K - 1 {
        a[i] := 1;
      } else {
        a[i] := 0;
      }
    }
    nuevo := a[..];
  }

  /** Advance(b, K) keeps the bits before position K - 1, then a 1, then zeros. */
  lemma AdvanceShape(b: Row, K: nat)
    requires 1 <= K <= |b|
    ensures Advance(b, K) == b[..K - 1] + ([1] + Zeros(|b| - K))
  {
  }

  /** When bit K - 1 of b is 0, b lies at or above the vector b[..K - 1] + [0] + zeros. */
  lemma AdvanceLow(b: Row, K: nat)
    requires 1 <= K <= |b| && b[K - 1] == 0
    ensures Value(b) == Value((b[..K - 1] + [0]) + Zeros(|b| - K)) + Value(b[K..])
  {
    var p := b[..K - 1] + [0];
    assert b[..K] == p;
    ValueSplit(b, K, p);
  }

  /** Advance(b, K) lies 2^(n - K) above the vector b[..K - 1] + [0] + zeros. */
  lemma AdvanceHigh(b: Row, K: nat)
    requires 1 <= K <= |b|
    ensures Value(Advance(b, K)) == Value((b[..K - 1] + [0]) + Zeros(|b| - K)) + Pow2(|b| - K)
  {
    var p, L := b[..K - 1], |b| - K;
    AdvanceShape(b, K);
    ValueAppend(p, [1] + Zeros(L));
    ValueLeading(1, Zeros(L));
    ZerosValue(L);
    assert (p + [0]) + Zeros(L) == p + Zeros(L + 1);
  }

  /** When bit K - 1 of b is 0, the value of b lies in the range of the vectors opening with
      b[..K - 1] + [0], and Advance(b, K) is the first vector past that range. */
  lemma AdvanceValues(b: Row, K: nat)
    requires 1 <= K <= |b| && b[K - 1] == 0
    ensures Value((b[..K - 1] + [0]) + Zeros(|b| - K)) <= Value(b)
    ensures Value(b) < Value(Advance(b, K)) < Pow2(|b|)
    ensures Value(Advance(b, K)) == Value((b[..K - 1] + [0]) + Zeros(|b| - K)) + Pow2(|b| - K)
  {
    AdvanceLow(b, K);
    AdvanceHigh(b, K);
    ValueBound(b[K..]);
    ValueBound(Advance(b, K));
  }

  /** A vector x valued strictly between b and Advance(b, K), when bit K - 1 of b is 0, agrees
      with b before position K - 1 and has a 0 there. */
  lemma AdvancePrefix(b: Row, K: nat, x: Row)
    requires 1 <= K <= |b| && b[K - 1] == 0 && |x| == |b|
    requires Value(b) < Value(x) < Value(Advance(b, K))
    ensures x[..K - 1] == b[..K - 1] && x[K - 1] == 0
  {
    AdvanceValues(b, K);
    PrefixRange(x, b[..K - 1] + [0]);
    assert x[..K - 1] == x[..K][..K - 1];
  }

  /** Such a vector misses any row that b misses and whose last 1 is at position K - 1. */
  lemma AdvanceMiss(MB: Matrix, b: Row, K: nat, f: nat, x: Row)
    requires HasWidth(MB, |b|) && 1 <= K <= |b| && f < |MB|
    requires !RowHit(MB[f], b) && LastOne(MB[f]) == K && b[K - 1] == 0
    requires |x| == |b| && Value(b) < Value(x) < Value(Advance(b, K))
    ensures !CoversVec(MB, x)
  {
    var n, c, row := |b|, K - 1, MB[f];
    AdvancePrefix(b, K, x);
    forall j | 0 <= j < n ensures !(x[j] == 1 && row[j] == 1) {
      if j < c {
        assert x[j] == x[..c][j] == b[..c][j] == b[j];
      }
    }
    assert !RowHit(row, x);
  }

  /** When K = FindK(MB, b) is a column position, it is the last 1 of some row b misses, and b
      has a 0 there. */
  lemma MissedRow(MB: Matrix, b: Row, K: nat) returns (f: nat)
    requires HasWidth(MB, |b|) && K == FindK(MB, b) && K <= |b|
    ensures f < |MB| && !RowHit(MB[f], b) && LastOne(MB[f]) == K && b[K - 1] == 0
  {
    FindKLeast(MB, b);
    f :| 0 <= f < |MB| && !RowHit(MB[f], b) && LastOne(MB[f]) == K;
    assert MB[f][K - 1] == 1;
  }

  /** The whole jump after a vector b of value val that misses row f, whose last 1 is at position
      K - 1: the new vector has a larger value, and no typical testor lies on the way. */
  lemma AdvanceJump(MB: Matrix, b: Row, val: nat, K: nat, f: nat, next: nat)
    requires HasWidth(MB, |b|) && 1 <= K <= |b| && f < |MB|
    requires !RowHit(MB[f], b) && LastOne(MB[f]) == K && b[K - 1] == 0
    requires val == Value(b) && next == Value(Advance(b, K))
    ensures val < next < Pow2(|b|)
    ensures TypicalBelow(MB, |b|, next) == TypicalBelow(MB, |b|, val + 1)
  {
    AdvanceNoTypical(MB, b, K, f, val, next);
    SkipNone(MB, |b|, val + 1, next);
  }

  lemma AdvanceNoTypical(MB: Matrix, b: Row, K: nat, f: nat, val: nat, next: nat)
    requires HasWidth(MB, |b|) && 1 <= K <= |b| && f < |MB|
    requires !RowHit(MB[f], b) && LastOne(MB[f]) == K && b[K - 1] == 0
    requires val == Value(b) && next == Value(Advance(b, K))
    ensures val < next < Pow2(|b|) && NoTypicalIn(MB, |b|, val + 1, next)
  {
    AdvanceValues(b, K);
    forall v | val + 1 <= v < next ensures !TypicalVec(MB, FromValue(v, |b|)) {
      ValueFromValue(v, |b|);
      AdvanceMiss(MB, b, K, f, FromValue(v, |b|));
    }
  }

  // ---------------------------------------------------------------------------------------------
  // The walk

  /** The first vector, 0...01, has value 1, and the zero vector below it is no testor of a matrix
      with a row. */
  lemma InitialVector(MB: Matrix, n: nat)
    requires |MB| > 0 && n >= 1
    ensures Value(Zeros(n)[n - 1 := 1]) == 1
    ensures TypicalBelow(MB, n, 1) == []
  {
    var b := Zeros(n)[n - 1 := 1];
    assert b[..n - 1] == Zeros(n - 1);
    ZerosValue(n - 1);
    ZerosValue(n);
    assert FromValue(0, n) == Zeros(n) by {
      FromValueValue(Zeros(n));
    }
    assert !RowHit(MB[0], Zeros(n));
    assert !IsTypical(MB)(FromValue(0, n));
    assert Below(IsTypical(MB), n, 1) == Below(IsTypical(MB), n, 0) + [];
  }

  /** The branch of BT's loop body for a testor b of value val: b joins the testors found so far
      unless one of them lies inside it, and the walk jumps to val + 2^(n - LastOne(b)) - 1 (at
      least val + 1). done says that the jump leaves the range of n-bit values, where BT stops. */
  method TestorStep(MB: Matrix, b: Row, val: nat, testores: seq<Row>) returns (kept: seq<Row>, next: Row, done: bool)
    requires CoversVec(MB, b) && val == Value(b)
    requires testores == TypicalBelow(MB, |b|, val)
    ensures var j := Pow2(|b| - LastOne(b)) - 1; var jump := if j <= 0 then 1 else j;
      (done <==> val + jump >= Pow2(|b|)) && (!done ==> Value(next) == val + jump)
    ensures done ==> kept == TypicalBelow(MB, |b|, Pow2(|b|))
    ensures !done ==> |next| == |b| && val < Value(next) < Pow2(|b|)
    ensures !done ==> kept == TypicalBelow(MB, |b|, Value(next))
  {
    var cols := |b|;
    var total := Pow2(cols);
    AcceptIff(MB, b, val);
    var sub := EsSubtestor(testores, b);
    kept := testores;
    if !sub {
      kept := testores + [b];
    }
    assert kept == TypicalBelow(MB, cols, val + 1) by {
      BelowNext(IsTypical(MB), b, val);
    }
    var k := EncontrarUltimo1(b);
    var salto: int := Pow2(cols - k) - 1;
    if salto <= 0 {
      salto := 1;
    }
    var nuevoVal: nat := val + salto;
    assert val < nuevoVal <= val + Pow2(cols - k);
    if nuevoVal >= total {
      ValueBound(b);
      CoverJump(MB, b, val, k, total);
      return kept, b, true;
    }
    CoverJump(MB, b, val, k, nuevoVal);
    ValueFromValue(nuevoVal, cols);
    next := Unfold(nuevoVal, cols);
    done := false;
  }

  /** The branch of BT's loop body for a vector b of value val that is no testor: the walk moves
      to Advance(b, K) for K = encontrar_K(b), skipping no typical testor; when K is past the last
      column that vector is b itself. */
  method NonTestorStep(MB: Matrix, b: Row, val: nat) returns (next: Row)
    requires HasWidth(MB, |b|) && !CoversVec(MB, b) && val == Value(b)
    ensures next == Advance(b, FindK(MB, b))
    ensures next == b <==> FindK(MB, b) == |b| + 1
    ensures |next| == |b|
    ensures next == b || (val < Value(next) < Pow2(|b|) && TypicalBelow(MB, |b|, Value(next)) == TypicalBelow(MB, |b|, val + 1))
  {
    var k := EncontrarK(MB, b);
    next := AvanzarDesdeK(b, k);
    StallCondition(MB, b);
    if k <= |b| {
      var f := MissedRow(MB, b, k);
      AdvanceJump(MB, b, val, k, f, Value(next));
    } else {
      assert next == b;
    }
  }

  /** encontrar_K returns COLS + 1 exactly when every row b misses is all zeros, and that is the
      only K for which avanzar_desde_K leaves b where it was, so that BT's +1 guard takes over. */
  lemma StallCondition(MB: Matrix, b: Row)
    requires HasWidth(MB, |b|)
    ensures FindK(MB, b) == |b| + 1 <==>
      forall f :: 0 <= f < |MB| && !RowHit(MB[f], b) ==> IsZeroRow(MB[f])
    ensures Advance(b, FindK(MB, b)) == b <==> FindK(MB, b) == |b| + 1
  {
    var K := FindK(MB, b);
    FindKLeast(MB, b);
    if K == |b| + 1 {
      forall f | 0 <= f < |MB| && !RowHit(MB[f], b) ensures IsZeroRow(MB[f]) {
        assert LastOne(MB[f]) == 0;
      }
      assert Advance(b, K) == b;
    } else {
      var f := MissedRow(MB, b, K);
      assert MB[f][K - 1] == 1;
      assert Advance(b, K)[K - 1] != b[K - 1];
    }
  }

  /** BT: walks the vectors from 0...01 upward. A testor is kept when no earlier typical testor
      lies inside it, and then the walk jumps past every vector that extends it after its last 1;
      a non-testor jumps to Advance(b, K); a step that leaves b where it was moves to the next
      value. The result is every typical testor, in increasing order of value. */
  method BT(MB: Matrix) returns (testores: seq<Row>)
    requires WellFormed(MB) && Cols(MB) >= 1
    ensures testores == TypicalBelow(MB, Cols(MB), Pow2(Cols(MB)))
  {
    var cols := Cols(MB);
    var total := Pow2(cols);
    testores := [];
    var b := Zeros(cols)[cols - 1 := 1];
    InitialVector(MB, cols);
    while true
      invariant |b| == cols && Value(b) < total
      invariant testores == TypicalBelow(MB, cols, Value(b))
      decreases total - Value(b)
    {
      var val := ValueOf(b);
      // The source leaves the loop here when val >= total; the invariant rules that out.
      assert val < total;
      var prev := b;
      var testor := EsTestor(MB, b);
      if testor {
        var done;
        testores, b, done := TestorStep(MB, b, val, testores);
        if done {
          break;
        }
      } else {
        assert testores == TypicalBelow(MB, cols, val + 1) by {
          BelowNext(IsTypical(MB), b, val);
        }
        b := NonTestorStep(MB, b, val);
      }
      if b == prev {
        var nuevoVal := val + 1;
        if nuevoVal >= total {
          assert nuevoVal == total;
          break;
        }
        ValueFromValue(nuevoVal, cols);
        b := Unfold(nuevoVal, cols);
      }
    }
  }

  /** What BT returns: exactly the typical testors of COLS bits, in strictly increasing order of
      value. */
  lemma BtOutput(MB: Matrix, n: nat, x: Row)
    ensures x in TypicalBelow(MB, n, Pow2(n)) <==> |x| == n && TypicalVec(MB, x)
    ensures IncreasingValues(TypicalBelow(MB, n, Pow2(n)))
  {
    TypicalBelowMembers(MB, n, Pow2(n), x);
    if |x| == n {
      ValueBound(x);
    }
    BelowIncreasing(IsTypical(MB), n, Pow2(n));
  }
}

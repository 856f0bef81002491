/** YYC, the frontier enumerator: the rows of the basic matrix are visited in order and a
    frontier of candidate column sets is rebuilt after every row. */
module Yyc {
  import opened Matrices
  import opened Sequences
  import opened ColumnSets

  /** C is a column set over the columns of MB. */
  predicate Fits(MB: Matrix, C: seq<nat>) {
    WellFormed(MB) && IsColumnSet(C, Cols(MB))
  }

  predicate AllFit(MB: Matrix, F: seq<seq<nat>>) {
    forall C :: C in F ==> Fits(MB, C)
  }

  lemma InsertColumnSet(C: seq<nat>, x: nat, n: nat)
    requires IsColumnSet(C, n) && x < n
    ensures IsColumnSet(Insert(C, x), n)
  {
    var r := Insert(C, x);
    forall i | 0 <= i < |r| ensures r[i] < n {
      assert r[i] in r;
      if r[i] != x {
        var j :| 0 <= j < |C| && C[j] == r[i];
      }
    }
  }

  // ---------------------------------------------------------------------------------------
  // The pruning test of cumple_criterios
  // ---------------------------------------------------------------------------------------

  /** The entry of row in column c; a column past the end of the row reads as 0 (the model's
      column sets always lie inside the row). */
  function At(row: Row, c: nat): Bit {
    if c < |row| then row[c] else 0
  }

  /** The number of columns of C holding a 1 in row (the `suma` of cumple_criterios). */
  function OnesIn(row: Row, C: seq<nat>): (r: nat)
    ensures r <= |C|
  {
    if C == [] then 0 else OnesIn(row, C[..|C| - 1]) + At(row, C[|C| - 1])
  }

  /** Among rows 0 .. upto-1, the number in which exactly one column of C holds a 1
      (`cuenta_filas`). */
  function ExactlyOneRows(MB: Matrix, C: seq<nat>, upto: nat): (r: nat)
    requires upto <= |MB|
    ensures r <= upto
  {
    if upto == 0 then 0
    else ExactlyOneRows(MB, C, upto - 1) + (if OnesIn(MB[upto - 1], C) == 1 then 1 else 0)
  }

  /** The number of 1s in column c among rows 0 .. upto-1 (an entry of `suma_col`). */
  function ColumnTally(MB: Matrix, c: nat, upto: nat): (r: nat)
    requires upto <= |MB|
    ensures r <= upto
  {
    if upto == 0 then 0 else ColumnTally(MB, c, upto - 1) + At(MB[upto - 1], c)
  }

  /** The test cumple_criterios(MB, C, f) applies over rows 0 .. f: at least |C| of them hold
      exactly one 1 among the columns of C, and every column of C holds a 1 in one of them. */
  predicate Criteria(MB: Matrix, C: seq<nat>, f: nat)
    requires f < |MB|
  {
    ExactlyOneRows(MB, C, f + 1) >= |C| &&
    forall k :: 0 <= k < |C| ==> ColumnTally(MB, C[k], f + 1) >= 1
  }

  /** cumple_criterios: one pass over rows 0 .. hastaFila accumulating `suma` per row,
      `cuenta_filas` and the per-column tallies `suma_col`, then the two checks. */
  method CumpleCriterios(MB: Matrix, C: seq<nat>, hastaFila: nat) returns (ok: bool)
    requires Fits(MB, C) && hastaFila < |MB|
    ensures ok == Criteria(MB, C, hastaFila)
  {
    var columnas := |C|;
    var cuentaFilas := 0;
    var sumaCol := new int[columnas](_ => 0);
    for i := 0 to hastaFila + 1
      invariant cuentaFilas == ExactlyOneRows(MB, C, i)
      invariant forall k :: 0 <= k < columnas ==> sumaCol[k] == ColumnTally(MB, C[k], i)
    {
      var suma := AccumulateRow(MB, C, i, sumaCol);
      if suma == 1 {
        cuentaFilas := cuentaFilas + 1;
      }
    }
    if cuentaFilas < columnas {
      return false;
    }
    for k := 0 to columnas
      invariant forall m :: 0 <= m < k ==> sumaCol[m] >= 1
    {
      if sumaCol[k] < 1 {
        return false;
      }
    }
    return true;
  }

  /** The inner loop of cumple_criterios for row i: `suma` counts the columns of C holding a 1
      in it, and each holding a 1 bumps its tally. */
  method AccumulateRow(MB: Matrix, C: seq<nat>, i: nat, sumaCol: array<int>) returns (suma: nat)
    requires Fits(MB, C) && i < |MB| && sumaCol.Length == |C|
    requires forall k :: 0 <= k < |C| ==> sumaCol[k] == ColumnTally(MB, C[k], i)
    modifies sumaCol
    ensures suma == OnesIn(MB[i], C)
    ensures forall k :: 0 <= k < |C| ==> sumaCol[k] == ColumnTally(MB, C[k], i + 1)
  {
    var row := MB[i];
    assert |row| == Cols(MB);
    suma := 0;
    var j := 0;
    while j < |C|
      invariant 0 <= j <= |C|
      invariant suma == OnesIn(row, C[..j])
      invariant forall k :: 0 <= k < j ==> sumaCol[k] == ColumnTally(MB, C[k], i + 1)
      invariant forall k :: j <= k < |C| ==> sumaCol[k] == ColumnTally(MB, C[k], i)
    {
      assert C[..j + 1][..j] == C[..j];
      suma := suma + row[C[j]];
      sumaCol[j] := sumaCol[j] + row[C[j]];
      j := j + 1;
    }
    assert C[..|C|] == C;
  }

  /** Every test that passes over rows 0 .. f passes over rows 0 .. f+1: both counts can only
      grow. This is why a set carried forward unchanged keeps satisfying the test. */
  lemma CriteriaMonotone(MB: Matrix, C: seq<nat>, f: nat)
    requires f + 1 < |MB| && Criteria(MB, C, f)
    ensures Criteria(MB, C, f + 1)
  {
    forall k | 0 <= k < |C| ensures ColumnTally(MB, C[k], f + 2) >= 1 {
      assert ColumnTally(MB, C[k], f + 2) >= ColumnTally(MB, C[k], f + 1);
    }
  }

  // ---------------------------------------------------------------------------------------
  // The compatibility test of the YYC algorithm in the literature
  // ---------------------------------------------------------------------------------------

  /** In row, C[k] is the only column of C holding a 1. */
  predicate IsTypicalRow(row: Row, C: seq<nat>, k: nat)
    requires k < |C|
  {
    OnesIn(row, C) == 1 && At(row, C[k]) == 1
  }

  /** Column C[k] is the only column of C holding a 1 in one of the rows 0 .. f. */
  predicate HasTypicalRow(MB: Matrix, C: seq<nat>, k: nat, f: nat)
    requires f < |MB| && k < |C|
  {
    exists i :: 0 <= i <= f && IsTypicalRow(MB[i], C, k)
  }

  /** Every column of C is the only column of C holding a 1 in one of the rows 0 .. f. */
  predicate Compatible(MB: Matrix, C: seq<nat>, f: nat)
    requires f < |MB|
  {
    forall k :: 0 <= k < |C| ==> HasTypicalRow(MB, C, k, f)
  }

  /** Which test admits an extended set: the source's, or compatibility. */
  datatype Rule = AsWritten | Compatibility

  predicate Admits(rule: Rule, MB: Matrix, C: seq<nat>, f: nat)
    requires f < |MB|
  {
    match rule
    case AsWritten => Criteria(MB, C, f)
    case Compatibility => Compatible(MB, C, f)
  }

  /** A set the rule admits over rows 0 .. g - 1 it also admits over rows 0 .. g. */
  lemma AdmitsMonotone(rule: Rule, MB: Matrix, C: seq<nat>, g: nat)
    requires 0 < g < |MB| && Admits(rule, MB, C, g - 1)
    ensures Admits(rule, MB, C, g)
  {
    if rule == AsWritten {
      CriteriaMonotone(MB, C, g - 1);
    } else {
      assert Compatible(MB, C, g - 1);
      forall k | 0 <= k < |C| ensures HasTypicalRow(MB, C, k, g) {
        assert HasTypicalRow(MB, C, k, g - 1);
        var i :| 0 <= i <= g - 1 && IsTypicalRow(MB[i], C, k);
      }
    }
  }

  // ---------------------------------------------------------------------------------------
  // The frontier
  // ---------------------------------------------------------------------------------------

  /** C hits every row 0 .. f. */
  predicate CoversUpTo(MB: Matrix, C: seq<nat>, f: nat)
    requires f < |MB|
  {
    forall i :: 0 <= i <= f ==> Hits(MB[i], C)
  }

  /** One singleton {j} per column j of cols, in order. */
  function Singletons(cols: seq<nat>): seq<seq<nat>> {
    seq(|cols|, k requires 0 <= k < |cols| => [cols[k]])
  }

  /** The extensions of C by the columns of cols (in order) that C lacks and whose result the
      rule admits over rows 0 .. f. */
  function Extensions(rule: Rule, MB: Matrix, C: seq<nat>, f: nat, cols: seq<nat>): seq<seq<nat>>
    requires f < |MB|
  {
    if cols == [] then []
    else
      var col := cols[|cols| - 1];
      Extensions(rule, MB, C, f, cols[..|cols| - 1]) +
      (if col in C then []
       else if Admits(rule, MB, Insert(C, col), f) then [Insert(C, col)]
       else [])
  }

  /** What C contributes to the next frontier: itself when it hits row f, otherwise its
      admitted extensions by the 1-columns of row f. */
  function Successors(rule: Rule, MB: Matrix, C: seq<nat>, f: nat): seq<seq<nat>>
    requires f < |MB|
  {
    if Hits(MB[f], C) then [C] else Extensions(rule, MB, C, f, ColumnsOf(MB[f]))
  }

  /** The successors of every set of F, in order (the vector `nuevos`). */
  function Step(rule: Rule, MB: Matrix, F: seq<seq<nat>>, f: nat): seq<seq<nat>>
    requires f < |MB|
  {
    if F == [] then []
    else Step(rule, MB, F[..|F| - 1], f) + Successors(rule, MB, F[|F| - 1], f)
  }

  /** The frontier after row f: the singletons of the 1-columns of row 0, then for each further
      row the deduplicated step. */
  function Frontier(rule: Rule, MB: Matrix, f: nat): seq<seq<nat>>
    requires f < |MB|
  {
    if f == 0 then Singletons(ColumnsOf(MB[0]))
    else Dedup(Step(rule, MB, Frontier(rule, MB, f - 1), f))
  }

  /** What YYC returns under the rule: the frontier after the last row. */
  function Testors(rule: Rule, MB: Matrix): seq<seq<nat>>
    requires |MB| > 0
  {
    Frontier(rule, MB, |MB| - 1)
  }

  // ---------------------------------------------------------------------------------------
  // The source's loops
  // ---------------------------------------------------------------------------------------

  /** The body of the row loop: a set that hits row f is pushed unchanged; any other set is
      extended by each 1-column of row f it lacks, and the extension is pushed when
      cumple_criterios accepts it. */
  method ExtendFrontier(MB: Matrix, activos: seq<seq<nat>>, f: nat) returns (nuevos: seq<seq<nat>>)
    requires WellFormed(MB) && AllFit(MB, activos) && f < |MB|
    ensures nuevos == Step(AsWritten, MB, activos, f)
  {
    var fila := MB[f];
    assert |fila| == Cols(MB);
    var columnasActivas := ActiveColumns(fila);
    nuevos := [];
    for a := 0 to |activos|
      invariant nuevos == Step(AsWritten, MB, activos[..a], f)
    {
      assert activos[..a + 1][..a] == activos[..a];
      var C := activos[a];
      assert C in activos;
      var hit := TieneUnoEnFila(fila, C);
      if hit {
        nuevos := nuevos + [C];
      } else {
        var ext := ExtendSet(MB, C, f, columnasActivas);
        nuevos := nuevos + ext;
      }
    }
    assert activos[..|activos|] == activos;
  }

  /** The inner loop of the row loop for a set C that misses row f. */
  method ExtendSet(MB: Matrix, C: seq<nat>, f: nat, columnasActivas: seq<nat>) returns (ext: seq<seq<nat>>)
    requires Fits(MB, C) && f < |MB| && columnasActivas == ColumnsOf(MB[f])
    ensures ext == Extensions(AsWritten, MB, C, f, columnasActivas)
  {
    assert |MB[f]| == Cols(MB);
    ext := [];
    for t := 0 to |columnasActivas|
      invariant ext == Extensions(AsWritten, MB, C, f, columnasActivas[..t])
    {
      assert columnasActivas[..t + 1][..t] == columnasActivas[..t];
      var col := columnasActivas[t];
      if col in C {
        continue;
      }
      var candidato := Insert(C, col);
      InsertColumnSet(C, col, Cols(MB));
      var ok := CumpleCriterios(MB, candidato, f);
      if ok {
        ext := ext + [candidato];
      }
    }
    assert columnasActivas[..|columnasActivas|] == columnasActivas;
  }

  /** The first loop of YYC: one singleton {j} per column j holding a 1 in row 0. */
  method InitialFrontier(row: Row) returns (activos: seq<seq<nat>>)
    ensures activos == Singletons(ColumnsOf(row))
  {
    activos := [];
    for j := 0 to |row|
      invariant activos == Singletons(ColumnsOf(row[..j]))
    {
      assert row[..j + 1][..j] == row[..j];
      if row[j] == 1 {
        activos := activos + [[j]];
      }
    }
    assert row[..|row|] == row;
  }

  /** YYC (FINALCODE/finalcode.cpp, finalcode.cpp): the singletons of row 0, then one step per
      further row, deduplicated through the set `vistos`. */
  method YYC(MB: Matrix) returns (activos: seq<seq<nat>>)
    requires WellFormed(MB)
    ensures activos == Testors(AsWritten, MB)
    ensures forall C :: C in activos ==>
      IsColumnSet(C, Cols(MB)) && CoversUpTo(MB, C, |MB| - 1) && Criteria(MB, C, |MB| - 1)
    ensures NoDuplicates(activos)
  {
    activos := InitialFrontier(MB[0]);
    var f := 0;
    FrontierInvariant(AsWritten, MB, f);
    while f + 1 < |MB|
      invariant f < |MB| && activos == Frontier(AsWritten, MB, f) && AllFit(MB, activos)
    {
      var fila := f + 1;
      var nuevos := ExtendFrontier(MB, activos, fila);
      activos := DedupWithSeenSet(nuevos);
      FrontierInvariant(AsWritten, MB, fila);
      f := fila;
    }
    FrontierFacts(MB, activos, f);
  }

  /** The YYC loop written inline in the main program of ejercicio2.cpp, deduplicated with a
      linear `find`. */
  method YYCLinearDedup(MB: Matrix) returns (activos: seq<seq<nat>>)
    requires WellFormed(MB)
    ensures activos == Testors(AsWritten, MB)
    ensures forall C :: C in activos ==>
      IsColumnSet(C, Cols(MB)) && CoversUpTo(MB, C, |MB| - 1) && Criteria(MB, C, |MB| - 1)
    ensures NoDuplicates(activos)
  {
    activos := InitialFrontier(MB[0]);
    var f := 0;
    FrontierInvariant(AsWritten, MB, f);
    while f + 1 < |MB|
      invariant f < |MB| && activos == Frontier(AsWritten, MB, f) && AllFit(MB, activos)
    {
      var fila := f + 1;
      var nuevos := ExtendFrontier(MB, activos, fila);
      activos := DedupWithLinearFind(nuevos);
      FrontierInvariant(AsWritten, MB, fila);
      f := fila;
    }
    FrontierFacts(MB, activos, f);
  }

  /** The final frontier's facts, at the last row g. */
  lemma FrontierFacts(MB: Matrix, F: seq<seq<nat>>, g: nat)
    requires WellFormed(MB) && g < |MB| && F == Frontier(AsWritten, MB, g)
    ensures forall C :: C in F ==> IsColumnSet(C, Cols(MB)) && CoversUpTo(MB, C, g) && Criteria(MB, C, g)
    ensures NoDuplicates(F)
  {
    FrontierInvariant(AsWritten, MB, g);
    SoundFacts(MB, F, g);
  }

  /** A set YYC returns under either rule is a column set that hits every row and that the rule
      admits. */
  lemma TestorsMember(rule: Rule, MB: Matrix, g: nat, C: seq<nat>)
    requires WellFormed(MB) && g + 1 == |MB| && C in Testors(rule, MB)
    ensures Fits(MB, C) && CoversUpTo(MB, C, g) && Admits(rule, MB, C, g)
  {
    FrontierInvariant(rule, MB, g);
    SoundMember(rule, MB, Frontier(rule, MB, g), g, C);
  }

  /** A set of a sound frontier is a column set that hits rows 0 .. g and that the rule admits. */
  lemma SoundMember(rule: Rule, MB: Matrix, F: seq<seq<nat>>, g: nat, C: seq<nat>)
    requires g < |MB| && FrontierSound(rule, MB, F, g) && C in F
    ensures Fits(MB, C) && CoversUpTo(MB, C, g) && Admits(rule, MB, C, g)
  {
  }

  /** What a sound frontier under the source's test says about each of its sets. */
  lemma SoundFacts(MB: Matrix, F: seq<seq<nat>>, g: nat)
    requires g < |MB| && FrontierSound(AsWritten, MB, F, g)
    ensures forall C :: C in F ==> IsColumnSet(C, Cols(MB)) && CoversUpTo(MB, C, g) && Criteria(MB, C, g)
    ensures NoDuplicates(F)
  {
    forall C | C in F ensures IsColumnSet(C, Cols(MB)) && CoversUpTo(MB, C, g) && Criteria(MB, C, g) {
      assert Fits(MB, C) && Admits(AsWritten, MB, C, g);
    }
  }

  // ---------------------------------------------------------------------------------------
  // What every frontier satisfies
  // ---------------------------------------------------------------------------------------

  /** X is what the rule lets C become at row f. */
  predicate IsSuccessor(rule: Rule, MB: Matrix, f: nat, C: seq<nat>, X: seq<nat>)
    requires f < |MB|
  {
    if Hits(MB[f], C) then X == C
    else exists col: nat :: (col < |MB[f]| && MB[f][col] == 1 && col !in C && X == Insert(C, col) &&
      Admits(rule, MB, X, f))
  }

  lemma {:induction false} ExtensionsSound(rule: Rule, MB: Matrix, C: seq<nat>, f: nat, cols: seq<nat>, X: seq<nat>)
    requires f < |MB|
    requires forall t :: 0 <= t < |cols| ==> cols[t] < |MB[f]| && MB[f][cols[t]] == 1
    requires X in Extensions(rule, MB, C, f, cols)
    ensures exists col: nat :: (col < |MB[f]| && MB[f][col] == 1 && col !in C && X == Insert(C, col) &&
      Admits(rule, MB, X, f))
  {
    var init := cols[..|cols| - 1];
    var col := cols[|cols| - 1];
    if X !in Extensions(rule, MB, C, f, init) {
      assert X == Insert(C, col);
    } else {
      ExtensionsSound(rule, MB, C, f, init, X);
    }
  }

  lemma {:induction false} ExtensionsComplete(rule: Rule, MB: Matrix, C: seq<nat>, f: nat, cols: seq<nat>, col: nat)
    requires f < |MB|
    requires col in cols && col !in C && Admits(rule, MB, Insert(C, col), f)
    ensures Insert(C, col) in Extensions(rule, MB, C, f, cols)
  {
    var init := cols[..|cols| - 1];
    if col != cols[|cols| - 1] {
      assert cols == init + [cols[|cols| - 1]];
      ExtensionsComplete(rule, MB, C, f, init, col);
    }
  }

  lemma SuccessorsSound(rule: Rule, MB: Matrix, C: seq<nat>, f: nat, X: seq<nat>)
    requires f < |MB| && X in Successors(rule, MB, C, f)
    ensures IsSuccessor(rule, MB, f, C, X)
  {
    if !Hits(MB[f], C) {
      ExtensionsSound(rule, MB, C, f, ColumnsOf(MB[f]), X);
    }
  }

  lemma SuccessorsComplete(rule: Rule, MB: Matrix, C: seq<nat>, f: nat, X: seq<nat>)
    requires f < |MB| && IsSuccessor(rule, MB, f, C, X)
    ensures X in Successors(rule, MB, C, f)
  {
    if !Hits(MB[f], C) {
      var col: nat :| col < |MB[f]| && MB[f][col] == 1 && col !in C && X == Insert(C, col) &&
        Admits(rule, MB, X, f);
      ExtensionsComplete(rule, MB, C, f, ColumnsOf(MB[f]), col);
    }
  }

  /** Every set of the step comes from a set of F. */
  lemma {:induction false} StepSound(rule: Rule, MB: Matrix, F: seq<seq<nat>>, f: nat, X: seq<nat>)
    requires f < |MB| && X in Step(rule, MB, F, f)
    ensures exists C :: C in F && IsSuccessor(rule, MB, f, C, X)
  {
    var init, last := F[..|F| - 1], F[|F| - 1];
    assert F == init + [last];
    if X in Step(rule, MB, init, f) {
      StepSound(rule, MB, init, f, X);
      var C :| C in init && IsSuccessor(rule, MB, f, C, X);
      assert C in F;
    } else {
      SuccessorsSound(rule, MB, last, f, X);
    }
  }

  /** Every successor of a set of F is in the step. */
  lemma {:induction false} StepComplete(rule: Rule, MB: Matrix, F: seq<seq<nat>>, f: nat, C: seq<nat>, X: seq<nat>)
    requires f < |MB| && C in F && IsSuccessor(rule, MB, f, C, X)
    ensures X in Step(rule, MB, F, f)
  {
    var init, last := F[..|F| - 1], F[|F| - 1];
    assert F == init + [last];
    if C == last {
      SuccessorsComplete(rule, MB, last, f, X);
    } else {
      assert C in init;
      StepComplete(rule, MB, init, f, C, X);
    }
  }

  /** One unfolding of the frontier after a row f > 0. */
  lemma FrontierUnfold(rule: Rule, MB: Matrix, f: nat)
    requires 0 < f < |MB|
    ensures Frontier(rule, MB, f) == Dedup(Step(rule, MB, Frontier(rule, MB, f - 1), f))
  {
  }

  /** The per-row step as a whole: after row f > 0, a set is in the frontier exactly when it is
      a successor of a set of the frontier after row f - 1. */
  lemma FrontierStep(rule: Rule, MB: Matrix, f: nat, X: seq<nat>)
    requires 0 < f < |MB|
    ensures X in Frontier(rule, MB, f) ==>
      exists C :: C in Frontier(rule, MB, f - 1) && IsSuccessor(rule, MB, f, C, X)
    ensures (exists C :: C in Frontier(rule, MB, f - 1) && IsSuccessor(rule, MB, f, C, X)) ==>
      X in Frontier(rule, MB, f)
  {
    var s := Step(rule, MB, Frontier(rule, MB, f - 1), f);
    FrontierUnfold(rule, MB, f);
    DedupElements(s);
    if X in Frontier(rule, MB, f) {
      StepSound(rule, MB, Frontier(rule, MB, f - 1), f, X);
    }
    if exists C :: C in Frontier(rule, MB, f - 1) && IsSuccessor(rule, MB, f, C, X) {
      var C :| C in Frontier(rule, MB, f - 1) && IsSuccessor(rule, MB, f, C, X);
      StepComplete(rule, MB, Frontier(rule, MB, f - 1), f, C, X);
    }
  }

  /** Every set of F is a column set, hits rows 0 .. f and passes the rule's test over them,
      and no set of F appears twice. */
  predicate FrontierSound(rule: Rule, MB: Matrix, F: seq<seq<nat>>, f: nat)
    requires f < |MB|
  {
    (forall C :: C in F ==> Fits(MB, C) && CoversUpTo(MB, C, f) && Admits(rule, MB, C, f)) &&
    NoDuplicates(F)
  }

  /** Every frontier is sound (by induction on f, the hypothesis covering row f - 1). */
  lemma FrontierInvariant(rule: Rule, MB: Matrix, f: nat)
    requires WellFormed(MB) && f < |MB|
    ensures FrontierSound(rule, MB, Frontier(rule, MB, f), f)
  {
    if f == 0 {
      FrontierSoundFirst(rule, MB);
    } else {
      FrontierSoundStep(rule, MB, f);
    }
  }

  /** The frontier after row 0 is sound. */
  lemma FrontierSoundFirst(rule: Rule, MB: Matrix)
    requires WellFormed(MB)
    ensures FrontierSound(rule, MB, Frontier(rule, MB, 0), 0)
  {
    var cols := ColumnsOf(MB[0]);
    forall C | C in Frontier(rule, MB, 0)
      ensures Fits(MB, C) && CoversUpTo(MB, C, 0) && Admits(rule, MB, C, 0)
    {
      var k :| 0 <= k < |cols| && C == Singletons(cols)[k];
      SingletonAdmitted(rule, MB, cols[k]);
    }
    SingletonsDistinct(cols);
  }

  /** The step from row f - 1 to row f keeps the frontier sound. */
  lemma FrontierSoundStep(rule: Rule, MB: Matrix, f: nat)
    requires WellFormed(MB) && 0 < f < |MB|
    requires FrontierSound(rule, MB, Frontier(rule, MB, f - 1), f - 1)
    ensures FrontierSound(rule, MB, Frontier(rule, MB, f), f)
  {
    forall X | X in Frontier(rule, MB, f)
      ensures Fits(MB, X) && CoversUpTo(MB, X, f) && Admits(rule, MB, X, f)
    {
      FrontierStep(rule, MB, f, X);
      var C :| C in Frontier(rule, MB, f - 1) && IsSuccessor(rule, MB, f, C, X);
      SuccessorInvariant(rule, MB, f, C, X);
    }
    FrontierUnfold(rule, MB, f);
    DedupNoDuplicates(Step(rule, MB, Frontier(rule, MB, f - 1), f));
  }

  lemma SingletonsDistinct(cols: seq<nat>)
    requires IsIncreasing(cols)
    ensures NoDuplicates(Singletons(cols))
  {
    var r := Singletons(cols);
    forall i, j | 0 <= i < j < |r| ensures r[i] != r[j] {
      assert r[i][0] == cols[i] && r[j][0] == cols[j];
    }
  }

  /** A successor at row f of a set that covers rows 0 .. f - 1 and passes the test over them covers
      rows 0 .. f and passes the test over them. */
  lemma SuccessorInvariant(rule: Rule, MB: Matrix, f: nat, C: seq<nat>, X: seq<nat>)
    requires Fits(MB, C) && 0 < f < |MB|
    requires CoversUpTo(MB, C, f - 1) && Admits(rule, MB, C, f - 1) && IsSuccessor(rule, MB, f, C, X)
    ensures Fits(MB, X) && CoversUpTo(MB, X, f) && Admits(rule, MB, X, f)
  {
    if Hits(MB[f], C) {
      AdmitsMonotone(rule, MB, C, f);
    } else {
      var col: nat :| col < |MB[f]| && MB[f][col] == 1 && col !in C && X == Insert(C, col) &&
        Admits(rule, MB, X, f);
      assert |MB[f]| == Cols(MB);
      InsertColumnSet(C, col, Cols(MB));
      InsertHits(MB, C, col, f);
    }
  }

  /** Adding a column keeps every row C hit, and hits row f when the column holds a 1 there. */
  lemma InsertHits(MB: Matrix, C: seq<nat>, col: nat, f: nat)
    requires 0 < f < |MB| && col < |MB[f]| && MB[f][col] == 1
    requires CoversUpTo(MB, C, f - 1)
    ensures CoversUpTo(MB, Insert(C, col), f)
  {
    var X := Insert(C, col);
    forall i | 0 <= i <= f ensures Hits(MB[i], X) {
      if i < f {
        var k :| 0 <= k < |C| && C[k] < |MB[i]| && MB[i][C[k]] == 1;
        assert C[k] in X;
        var m :| 0 <= m < |X| && X[m] == C[k];
      } else {
        assert col in X;
        var m :| 0 <= m < |X| && X[m] == col;
      }
    }
  }

  /** Every singleton of a 1-column of row 0 passes either test over row 0. */
  lemma SingletonAdmitted(rule: Rule, MB: Matrix, j: nat)
    requires WellFormed(MB) && j < Cols(MB) && MB[0][j] == 1
    ensures Fits(MB, [j]) && CoversUpTo(MB, [j], 0) && Admits(rule, MB, [j], 0)
  {
    var C := [j];
    assert C[..0] == [];
    assert OnesIn(MB[0], C) == 1;
    assert IsTypicalRow(MB[0], C, 0);
    assert ColumnTally(MB, j, 1) == 1;
  }

  /** Every 1-column j of row 0 starts a set {j} of the first frontier. */
  lemma FirstFrontier(rule: Rule, MB: Matrix, j: nat)
    requires WellFormed(MB) && j < Cols(MB) && MB[0][j] == 1
    ensures [j] in Frontier(rule, MB, 0)
  {
    var cols := ColumnsOf(MB[0]);
    assert j in cols;
    var t :| 0 <= t < |cols| && cols[t] == j;
    assert Frontier(rule, MB, 0)[t] == [j];
  }
}

# Typical testors of 0/1 matrices — a verified Dafny model

The repository computes the **typical testors** of a boolean matrix. A testor is a set of columns
that hits every row: some column of the set holds a 1 in that row. A typical testor is a testor
from which no column can be removed. The code first reduces the matrix to its **basic matrix**. It
drops duplicate rows, then drops every row that lies strictly below another row. It then
enumerates the typical testors in two ways:

- **YYC** grows a frontier of candidate column sets row by row.
- **BT** walks the 0/1 vectors of `COLS` bits in increasing numeric order and jumps over ranges
  that cannot hold a typical testor.

`FINALCODE/finalcode.cpp` also has three matrix operators (`phi`, `theta`, `gamma`) and a sort of
rows by their number of 1s.

The model has one module per concern:

| module | file | models |
|---|---|---|
| `Matrices` | matrices.dfy | rows, matrices, widths, zero rows |
| `Sequences` | sequences.dfy | first-occurrence deduplication, with a `std::set` guard or a linear `find` |
| `Reduction` | reduction.dfy | `esSubfila`, `filasUnicas`, `aMatrizBasica` (with and without the early `break`) |
| `RowSort` | rowsort.dfy | `contar_unos`, `ordenar_filas_por_unos` |
| `Combinators` | combinators.dfy | `phi`, `theta`, `gamma` |
| `ColumnSets` | columnsets.dfy | `Conjunto`, `tiene_uno_en_fila`, the active columns of a row, `conjunto_a_vector(_binario)` |
| `Yyc` | yyc.dfy | `cumple_criterios` and YYC, in both the `std::set` dedup and the linear-`find` dedup form |
| `YycMinimality` | yyc_minimality.dfy | what YYC returns: as written, and with the compatibility test of the published algorithm |
| `Bits` | bits.dfy | BT's MSB-first vector/integer fold and unfold |
| `Bt` | bt.dfy | BT and its lambdas `es_testor`, `es_subtestor`, `encontrar_ultimo_1`, `encontrar_K`, `avanzar_desde_K` |
| `Oracle` | oracle.dfy | column sets vs. indicator vectors: corrected YYC and BT return the same testors |

How the model represents the source:

- A `Conjunto` (`std::set<int>`) is a strictly increasing `seq<nat>`, which is the order in which a
  `std::set` iterates. Two sets are equal exactly when their sequences are equal (`IncreasingUnique`).
- A matrix is a `seq<seq<Bit>>`, where `Bit` is the integers 0 and 1.
- Each imperative function of the source becomes a `method` with the source's loops. Each method
  is proved equal to a specification function or predicate, and the properties are lemmas about
  those functions:
  - `Reduction.BasicMatrix` and `Sequences.Dedup` for the reduction;
  - `Yyc.Frontier` / `Yyc.Testors` for YYC;
  - `Bt.TypicalBelow` for BT.
- The two `finalcode.cpp` files share the reduction, sort, YYC and BT code. The top-level copy
  sits lower in the file: `esSubfila` 61-68, `filasUnicas` 71-85, `aMatrizBasica` 88-104, the sort
  107-117, `tiene_uno_en_fila` 123-128, `cumple_criterios` 130-152, YYC 154-212, BT 219-358.
  Each member below cites one of the two copies. The same member models both
  copies.
- `ejercicio2.cpp` runs YYC inline in `main`. The model lifts it into `Yyc.YYCLinearDedup`, which
  differs from `Yyc.YYC` only in its deduplication (linear `find` instead of `set<Conjunto>`).

What is proved, briefly:

- **Reduction.**
  - `esSubfila` is strict pointwise dominance.
  - `filasUnicas` keeps every distinct row once, at its first occurrence, in input order.
  - `aMatrizBasica` keeps exactly the unique rows no other row lies strictly above. Its result is
    an order-preserving subsequence of the unique rows with no strict subrow, and it is
    idempotent.
  - The variant with the early `break` computes the same matrix.
- **YYC.**
  - Each frontier holds column sets that hit rows 0..f and pass `cumple_criterios` through f,
    each set once.
  - The criteria are monotone in f.
  - Every typical testor is in YYC's result.
  - YYC's result can also hold sets that are not minimal: see Findings.
  - With the compatibility test in place of `cumple_criterios`, the result is exactly the set of
    typical testors.
- **BT.**
  - BT returns exactly the typical testors of `COLS` columns, in strictly increasing value order.
  - Each step strictly increases the value and so terminates.
  - Every accepted vector is a testor that contains no earlier accepted testor.
  - Both jumps skip no typical testor.
  - `encontrar_K` returns `COLS + 1` exactly when every missed row is all zeros, which is the only
    case where the +1 guard fires after a non-testor.
- **Agreement.** For every matrix, the column sets of BT's vectors are exactly the sets returned by
  YYC with the compatibility test.
- **Operators.**
  - `phi` juxtaposes rows, or returns no rows when the heights differ.
  - `theta` has `|A|·|B|` rows, and row `i·|B| + j` is `A[i] ++ B[j]`.
  - `gamma` is block diagonal.
  - The sort returns a permutation whose row counts never decrease.

Where the repository's written description and its code disagree, the model follows the code:

- An all-zero row lies strictly below every row holding a 1. So `aMatrizBasica` removes it
  whenever another unique row holds a 1 (`Reduction.ZeroRowRemoved`, `Reduction.ZeroRowSurvival`).
- `phi` on matrices of different heights prints an error to `cerr` and returns an empty matrix.

## Model

| member | source | states |
|---|---|---|
| `Reduction.EsSubfila` | FINALCODE/finalcode.cpp:65-72 | returns true exactly when r <= s in every column and r differs from s |
| `Reduction.KeyInjective` | finalcode.cpp:76-77 | two rows with the same digit-string key are the same row, so dedup by key is dedup by row |
| `Reduction.RowKey` | FINALCODE/finalcode.cpp:80-81 | builds the key of a row, one digit character per column |
| `Reduction.FilasUnicas` | FINALCODE/finalcode.cpp:75-89 | the result holds every input row and only input rows, each once, in the order of their first occurrences |
| `Reduction.DominatedAtIndex` | FINALCODE/finalcode.cpp:98-101 | in a rectangular matrix, a row is dominated exactly when U[i] is a strict subrow of some U[m] with m != i, the pair the nested loops test |
| `Reduction.MarkRow` | FINALCODE/finalcode.cpp:99-101 | after the scan over j, keep[i] is cleared exactly when another unique row lies strictly above U[i]; no other flag changes |
| `Reduction.MarkRowWithBreak` | ejercicio1.cpp:59-65 | the same with the early break: the flag is the same, and no other flag changes |
| `Reduction.CopyKept` | FINALCODE/finalcode.cpp:103-105 | copying the rows whose flag is set gives the undominated rows in order |
| `Reduction.AMatrizBasica` | FINALCODE/finalcode.cpp:92-108 | returns the basic matrix: the unique rows, in first-occurrence order, that no unique row lies strictly above |
| `Reduction.AMatrizBasicaWithBreak` | ejercicio1.cpp:52-72 | an empty input comes back unchanged, and the early `break` does not change the result: it is the basic matrix too |
| `Reduction.UndominatedElements` | FINALCODE/finalcode.cpp:96-105 | a row is kept exactly when it is a candidate and no unique row lies strictly above it |
| `Reduction.UndominatedSubsequence` | FINALCODE/finalcode.cpp:104-105 | the kept rows are an order-preserving subsequence of the candidates |
| `Reduction.UndominatedDistinct` | FINALCODE/finalcode.cpp:103-105 | filtering duplicate-free rows leaves them duplicate-free |
| `Reduction.UndominatedAll` | FINALCODE/finalcode.cpp:98-105 | when no candidate is dominated, all of them are kept, unchanged |
| `Reduction.BasicMatrixMembership` | FINALCODE/finalcode.cpp:93-105 | a row is in the basic matrix exactly when it is a row of M that no row of M lies strictly above |
| `Reduction.BasicMatrixShape` | finalcode.cpp:88-104 | the basic matrix is an order-preserving subsequence of the unique rows, has no duplicates, and no row of it is a strict subrow of another |
| `Reduction.BasicMatrixIdempotent` | FINALCODE/finalcode.cpp:92-108 | reducing a basic matrix again returns it unchanged |
| `Reduction.ZeroRowRemoved` | ejercicio1.cpp:58-66 | an all-zero row is removed when some other row holds a 1 |
| `Reduction.ZeroRowSurvival` | FINALCODE/finalcode.cpp:98-101 | an all-zero row survives exactly when every row of M is all zeros |
| `Sequences.DedupElements` | FINALCODE/finalcode.cpp:79-88 | first-occurrence dedup keeps exactly the elements of its input |
| `Sequences.DedupNoDuplicates` | FINALCODE/finalcode.cpp:83-86 | its result holds no element twice |
| `Sequences.DedupSubsequence` | FINALCODE/finalcode.cpp:249-254 | its result is an order-preserving subsequence of its input |
| `Sequences.DedupFirstOccurrenceOrder` | ejercicio1.cpp:39-47 | the elements of its result come in the order of their first occurrences in the input |
| `Sequences.DedupOfDistinct` | FINALCODE/finalcode.cpp:93 | a duplicate-free sequence is its own dedup, so the unique rows of a basic matrix are the matrix |
| `Sequences.DedupWithSeenSet` | FINALCODE/finalcode.cpp:246-254 | the loop guarded by a set of seen elements computes the first-occurrence dedup |
| `Sequences.DedupWithLinearFind` | ejercicio2.cpp:120-125 | the loop guarded by a linear `find` in the output computes the same dedup |
| `RowSort.CountOnes` | finalcode.cpp:107-109 | the sum of a row is at most its length |
| `RowSort.CountOnesMultiplicity` | FINALCODE/finalcode.cpp:110-112 | the sum of a 0/1 row is the number of 1s in it |
| `RowSort.CountOnesZero` | FINALCODE/finalcode.cpp:111 | a row sums to 0 exactly when it is all zeros |
| `RowSort.InsertByOnes` | FINALCODE/finalcode.cpp:116-118 | inserting a row adds exactly that row to the multiset of rows |
| `RowSort.InsertAtLeast` | FINALCODE/finalcode.cpp:117 | a lower bound on the counts of the rows and the new row bounds the counts after insertion |
| `RowSort.InsertSorted` | FINALCODE/finalcode.cpp:116-118 | inserting into rows sorted by count keeps them sorted |
| `RowSort.OrdenarFilasPorUnos` | finalcode.cpp:111-117 | the result is a permutation of the input whose row counts never decrease |
| `RowSort.SortedPermutation` | FINALCODE/finalcode.cpp:114-120 | the sorted matrix has the same number of rows and the same rows as the input |
| `Combinators.ZeroMatrix` | FINALCODE/finalcode.cpp:159 | `filas` rows, each of width `cols`, and every entry is 0 |
| `Combinators.Phi` | FINALCODE/finalcode.cpp:126-139 | no rows when the heights differ; otherwise row i is A[i] followed by B[i] |
| `Combinators.JuxtaposeRows` | FINALCODE/finalcode.cpp:133-137 | phi keeps the height; each row splits back into its A part and its B part; widths add |
| `Combinators.Theta` | FINALCODE/finalcode.cpp:141-151 | returns every row of A followed by every row of B, A-major |
| `Combinators.ProductLength` | FINALCODE/finalcode.cpp:143-149 | theta has as many rows as A times B |
| `Combinators.ProductAt` | FINALCODE/finalcode.cpp:144-147 | row i·m + j of theta, for m the height of B, is A[i] followed by B[j] |
| `Combinators.ProductOfOneRow` | FINALCODE/finalcode.cpp:141-151 | theta of one row a and B is phi of one copy of a per row of B, with B |
| `Combinators.Gamma` | FINALCODE/finalcode.cpp:153-172 | returns the block-diagonal matrix: A top left, B bottom right, 0 elsewhere |
| `Combinators.DiagonalRows` | FINALCODE/finalcode.cpp:159-169 | gamma has filasA + filasB rows of colsA + colsB columns: A's rows padded with zeros, then zeros followed by B's rows |
| `Combinators.DiagonalAsJuxtapose` | FINALCODE/finalcode.cpp:153-172 | gamma is phi of A with a zero block, stacked on phi of a zero block with B |
| `ColumnSets.Insert` | FINALCODE/finalcode.cpp:237-238 | `std::set::insert`: the result holds x and the old elements and nothing else, stays increasing, and grows by one when x is new |
| `ColumnSets.IncreasingUnique` | FINALCODE/finalcode.cpp:247-251 | two column sets with the same elements are the same set, as `set<Conjunto>` compares them |
| `ColumnSets.TieneUnoEnFila` | FINALCODE/finalcode.cpp:179-184 | returns true exactly when some column of the set holds a 1 in the row |
| `ColumnSets.ColumnsOf` | finalcode.cpp:170-173 | the columns holding a 1 in a row: exactly those, as a set |
| `ColumnSets.ActiveColumns` | FINALCODE/finalcode.cpp:224-227 | the loop that builds `columnasActivas` returns the 1-columns of the row in increasing order |
| `ColumnSets.ConjuntoAVector` | ejercicio2.cpp:65-70 | the vector has length n and v[x] = 1 exactly when x is in the set |
| `ColumnSets.IndicatorColumns` | FINALCODE/finalcode.cpp:21-25 | reading the 1-columns back out of the vector of a column set gives the set |
| `ColumnSets.ColumnsIndicator` | finalcode.cpp:21-25 | the vector of the 1-columns of a row is the row |
| `Yyc.InsertColumnSet` | ejercicio2.cpp:110-111 | extending a column set by a column in range gives a column set |
| `Yyc.OnesIn` | FINALCODE/finalcode.cpp:194-197 | `suma` for one row is at most the size of C |
| `Yyc.ExactlyOneRows` | FINALCODE/finalcode.cpp:191-199 | `cuenta_filas` over rows 0..upto-1 is at most upto |
| `Yyc.ColumnTally` | ejercicio2.cpp:46-54 | `suma_col` of a column over rows 0..upto-1 is at most upto |
| `Yyc.AccumulateRow` | FINALCODE/finalcode.cpp:192-198 | one row of the pass: `suma` is the number of C-columns holding 1, and each tally grows by that row's entry |
| `Yyc.CumpleCriterios` | FINALCODE/finalcode.cpp:186-206 | true exactly when rows 0..hastaFila hold at least as many exactly-one rows as C has columns and every column of C has a 1 in them |
| `Yyc.CriteriaMonotone` | finalcode.cpp:175-178 | a set that passes the criteria through row f passes them through f + 1, so a carried set still passes them |
| `Yyc.AdmitsMonotone` | FINALCODE/finalcode.cpp:231-232 | the same for either test an extension must pass |
| `Yyc.ExtendSet` | FINALCODE/finalcode.cpp:234-242 | the extensions of C, in column order, by each 1-column of row f that C lacks and whose extension passes the criteria |
| `Yyc.ExtendFrontier` | FINALCODE/finalcode.cpp:229-244 | `nuevos`: each set hitting row f carried unchanged, the others replaced by their admitted extensions, in order |
| `Yyc.InitialFrontier` | ejercicio2.cpp:88-93 | the singletons {j} of the 1-columns of row 0, in increasing j |
| `Yyc.YYC` | FINALCODE/finalcode.cpp:208-265 | returns the frontier after the last row; its sets are column sets hitting every row, passing the criteria through the last row, each once |
| `Yyc.YYCLinearDedup` | ejercicio2.cpp:83-128 | the inline loop of `main` computes the same frontier with the same properties |
| `Yyc.FrontierFacts` | finalcode.cpp:154-212 | after row f, every active set is a column set that hits rows 0..f and passes the criteria through f, and no set repeats |
| `Yyc.TestorsMember` | FINALCODE/finalcode.cpp:256-265 | every returned set fits the matrix, hits every row and passes the test of its rule |
| `Yyc.ExtensionsSound` | FINALCODE/finalcode.cpp:234-241 | every extension adds a 1-column of row f not in C and passes the rule's test |
| `Yyc.ExtensionsComplete` | FINALCODE/finalcode.cpp:235-241 | every such admitted extension is produced |
| `Yyc.SuccessorsSound` | FINALCODE/finalcode.cpp:231-243 | what one set contributes is a successor of it: itself when it hits row f, otherwise an admitted extension |
| `Yyc.SuccessorsComplete` | FINALCODE/finalcode.cpp:231-242 | every successor of a set is contributed |
| `Yyc.StepSound` | FINALCODE/finalcode.cpp:229-244 | every set of `nuevos` is a successor of an active set |
| `Yyc.StepComplete` | FINALCODE/finalcode.cpp:229-243 | every successor of every active set is in `nuevos` |
| `Yyc.FrontierUnfold` | FINALCODE/finalcode.cpp:246-256 | the frontier after row f is the dedup of the step from the frontier after row f - 1 |
| `Yyc.FrontierStep` | FINALCODE/finalcode.cpp:220-256 | a set is in the frontier after row f exactly when it is a successor of a set in the frontier after row f - 1 |
| `Yyc.FrontierInvariant` | ejercicio2.cpp:96-128 | after every row f, the frontier's sets fit, hit rows 0..f, pass the test through f, and do not repeat |
| `Yyc.FrontierSoundFirst` | FINALCODE/finalcode.cpp:216-218 | the invariant holds for the initial frontier |
| `Yyc.FrontierSoundStep` | FINALCODE/finalcode.cpp:220-256 | one row step keeps the invariant |
| `Yyc.SingletonsDistinct` | FINALCODE/finalcode.cpp:216-218 | the initial singletons are distinct |
| `Yyc.SuccessorInvariant` | FINALCODE/finalcode.cpp:229-242 | a successor of a set that hits rows 0..f-1 and passes the test fits, hits rows 0..f and passes the test through f |
| `Yyc.InsertHits` | FINALCODE/finalcode.cpp:234-238 | adding a 1-column of row f to a set that hits rows 0..f-1 makes it hit rows 0..f |
| `Yyc.SingletonAdmitted` | FINALCODE/finalcode.cpp:217-218 | {j} for a 1-column j of row 0 fits, hits row 0 and passes either test |
| `Yyc.FirstFrontier` | ejercicio2.cpp:89-91 | every 1-column j of row 0 gives {j} in the initial frontier |
| `YycMinimality.HitsOnesIn` | FINALCODE/finalcode.cpp:179-184 | a set hits a row exactly when `suma` for that row is positive |
| `YycMinimality.FixedSound` | FINALCODE/finalcode.cpp:240-241 | with the compatibility test in place of `cumple_criterios`, every returned set is a typical testor |
| `YycMinimality.CompatibleTypical` | FINALCODE/finalcode.cpp:186-206 | a set hitting every row in which each column is the only one of the set in some row is a typical testor |
| `YycMinimality.TypicalCompatible` | FINALCODE/finalcode.cpp:186-206 | conversely, each column of a typical testor is the only one of it in some row |
| `YycMinimality.FirstRowComplete` | FINALCODE/finalcode.cpp:216-218 | a compatible set hitting row 0 is in the initial frontier |
| `YycMinimality.DropTypicalColumn` | FINALCODE/finalcode.cpp:231-241 | a compatible set whose column C[k] has its only typical row at f comes from the set without C[k] extended by C[k] at row f |
| `YycMinimality.KeepTypicalRow` | FINALCODE/finalcode.cpp:237-240 | removing a column whose typical row is f keeps the other columns' typical rows before f |
| `YycMinimality.FixedComplete` | FINALCODE/finalcode.cpp:220-256 | with the compatibility test, after every row f, every compatible set hitting rows 0..f is in the frontier |
| `YycMinimality.CompleteFirst` | FINALCODE/finalcode.cpp:216-218 | the same for row 0 |
| `YycMinimality.CompleteNext` | FINALCODE/finalcode.cpp:229-256 | it passes from row f - 1 to row f |
| `YycMinimality.CompleteStep` | FINALCODE/finalcode.cpp:229-244 | a compatible set hitting rows 0..f is a successor of a frontier set of row f - 1 |
| `YycMinimality.FixedExact` | FINALCODE/finalcode.cpp:208-265 | with the compatibility test, YYC returns exactly the typical testors (both directions) |
| `YycMinimality.CompatibleCriteria` | FINALCODE/finalcode.cpp:198-205 | a compatible set passes `cumple_criterios`, so the source's test is necessary for compatibility |
| `YycMinimality.FixedWithinAsWritten` | FINALCODE/finalcode.cpp:229-256 | after every row, each set of the corrected frontier is in the frontier as written |
| `YycMinimality.AsWrittenComplete` | FINALCODE/finalcode.cpp:208-265 | every typical testor is in YYC's result as written |
| `YycMinimality.CounterexampleBasic` | FINALCODE/finalcode.cpp:92-108 | the 4x5 matrix of the finding is its own basic matrix, so it is a valid input of YYC |
| `YycMinimality.AsWrittenNotMinimal` | FINALCODE/finalcode.cpp:240-241 | on a 4x5 basic matrix YYC as written returns {2, 3, 4}, which is no typical testor; the corrected test rejects it |
| `Bits.ValueBound` | FINALCODE/finalcode.cpp:278 | every vector of COLS bits has a value below `total` = 2^COLS |
| `Bits.ValueOf` | FINALCODE/finalcode.cpp:360-362 | the shift-or loop computes the MSB-first value of b |
| `Bits.Unfold` | FINALCODE/finalcode.cpp:381-385 | the `& 1` / `>>= 1` loop writes the n-bit vector of a value |
| `Bits.ValueFromValue` | finalcode.cpp:325-333 | unfolding a value below 2^n and folding it back gives the value |
| `Bits.FromValueValue` | finalcode.cpp:307-309 | folding a vector and unfolding its value gives the vector |
| `Bits.ValueInjective` | FINALCODE/finalcode.cpp:393 | two vectors of the same length with the same value are equal, so `b == prev` is a test on values |
| `Bt.CoverUpward` | FINALCODE/finalcode.cpp:282-294 | a vector containing a testor is a testor |
| `Bt.TypicalMinimal` | FINALCODE/finalcode.cpp:296-308 | a testor inside a typical testor is that typical testor |
| `Bt.TypicalInside` | FINALCODE/finalcode.cpp:370-371 | a testor that is not typical contains a different typical testor |
| `Bt.TypicalBelowMembers` | FINALCODE/finalcode.cpp:371 | the typical testors below hi are exactly the typical vectors of n bits valued below hi |
| `Bt.BelowIncreasing` | FINALCODE/finalcode.cpp:358-402 | the testors below hi come in strictly increasing order of value |
| `Bt.TypicalBelowAntichain` | finalcode.cpp:243-255 | no collected testor marks a subset of the columns of another |
| `Bt.AcceptIff` | FINALCODE/finalcode.cpp:368-371 | for a testor b, `es_subtestor` finds an earlier typical testor inside b exactly when b is not typical |
| `Bt.LastOne` | finalcode.cpp:257-261 | the position after the last 1, 0 for no 1; everything after it is 0 |
| `Bt.EncontrarUltimo1` | FINALCODE/finalcode.cpp:310-314 | the backward scan returns that position |
| `Bt.CoverSkip` | FINALCODE/finalcode.cpp:373-376 | no vector strictly between a testor b and b + 2^(COLS-k) is typical |
| `Bt.CoverJump` | FINALCODE/finalcode.cpp:373-386 | the cover jump skips no typical testor |
| `Bt.CoverNoTypical` | FINALCODE/finalcode.cpp:374-378 | no vector valued val + 1 .. the jump target is typical |
| `Bt.UncoveredRows` | FINALCODE/finalcode.cpp:317-327 | every index in `filas_ceros` is a row index |
| `Bt.UncoveredRowsMembers` | finalcode.cpp:264-274 | `filas_ceros` holds exactly the rows b misses |
| `Bt.MinLast` | FINALCODE/finalcode.cpp:329-340 | K lies between 1 and COLS + 1 |
| `Bt.MinLastLeast` | finalcode.cpp:276-287 | K is at most the last-1 position of every missed row with a 1, and when K <= COLS some missed row attains it |
| `Bt.FindK` | finalcode.cpp:263-290 | `encontrar_K` lies between 1 and COLS + 1 |
| `Bt.FindKLeast` | FINALCODE/finalcode.cpp:316-343 | K is the least last-1 position over the missed rows with a 1, attained when K <= COLS |
| `Bt.RowHasOne` | FINALCODE/finalcode.cpp:284-290 | the inner scan finds a marked column holding a 1 exactly when there is one |
| `Bt.EsTestor` | FINALCODE/finalcode.cpp:282-294 | `es_testor` holds exactly when b hits every row |
| `Bt.IsSub` | FINALCODE/finalcode.cpp:298-304 | the inner scan reports that t marks a subset of cand |
| `Bt.EsSubtestor` | FINALCODE/finalcode.cpp:296-308 | `es_subtestor` holds exactly when some collected testor marks a subset of cand |
| `Bt.EncontrarK` | FINALCODE/finalcode.cpp:316-343 | the two loops compute K |
| `Bt.AvanzarDesdeK` | FINALCODE/finalcode.cpp:345-353 | the loop builds the advanced vector: b's bits before K - 1, then 1, then zeros |
| `Bt.AdvanceShape` | finalcode.cpp:292-300 | the advanced vector is b[..K-1] ++ [1] ++ zeros |
| `Bt.AdvanceValues` | FINALCODE/finalcode.cpp:389-390 | when b[K-1] = 0, the advanced vector's value is larger than b's and below 2^COLS |
| `Bt.AdvancePrefix` | FINALCODE/finalcode.cpp:346-351 | every vector strictly between b and the advanced vector keeps b's first K - 1 bits and has 0 at K - 1 |
| `Bt.AdvanceMiss` | FINALCODE/finalcode.cpp:389-390 | every such vector misses the row that attains K, so it is no testor |
| `Bt.MissedRow` | FINALCODE/finalcode.cpp:329-340 | when K <= COLS, some row b misses has its last 1 at K, and b[K-1] = 0 |
| `Bt.AdvanceJump` | finalcode.cpp:335-338 | the non-cover jump strictly increases the value, stays below 2^COLS, and skips no typical testor |
| `Bt.AdvanceNoTypical` | FINALCODE/finalcode.cpp:388-391 | no vector between val + 1 and the advanced value is typical |
| `Bt.StallCondition` | finalcode.cpp:335-348 | K = COLS + 1 exactly when every missed row is all zeros, and only then does `avanzar_desde_K` leave b unchanged for the +1 guard |
| `Bt.InitialVector` | FINALCODE/finalcode.cpp:355-356 | the start vector 0...01 has value 1, and nothing below it is typical |
| `Bt.TestorStep` | FINALCODE/finalcode.cpp:368-387 | after a testor, the jump is 2^(COLS-k)-1 for k the last 1, raised to 1 when not positive; the walk stops exactly when val plus the jump reaches 2^COLS, otherwise the next value is val plus the jump; the collected list then holds every typical testor below the next value, or all of them when BT stops |
| `Bt.NonTestorStep` | FINALCODE/finalcode.cpp:388-391 | after a non-testor, the next vector is Advance(b, K) for K = FindK(b); it equals b exactly when K is COLS+1, and otherwise its value strictly increases and no typical testor is skipped |
| `Bt.BT` | FINALCODE/finalcode.cpp:272-411 | returns every typical testor of COLS columns, in increasing value order; the loop terminates |
| `Bt.BtOutput` | FINALCODE/finalcode.cpp:277 | a vector is in the result exactly when it has COLS bits and is a typical testor; the values strictly increase |
| `Oracle.HitsIndicator` | FINALCODE/finalcode.cpp:21-25 | a column set hits a row exactly when its 0/1 vector does |
| `Oracle.CoversIndicator` | FINALCODE/finalcode.cpp:282-294 | a column set is a testor exactly when its vector is |
| `Oracle.IndicatorRemove` | FINALCODE/finalcode.cpp:22-23 | removing column C[k] from the set clears bit C[k] of its vector |
| `Oracle.TypicalIndicator` | FINALCODE/finalcode.cpp:296-308 | a column set is a typical testor exactly when its vector is |
| `Oracle.VectorAgreement` | FINALCODE/finalcode.cpp:272-411 | a vector is in BT's result exactly when its column set is in corrected YYC's result |
| `Oracle.SetAgreement` | FINALCODE/finalcode.cpp:208-265 | a column set is in corrected YYC's result exactly when its vector is in BT's result |

## Left out

- Console and file I/O are not modelled: menus, `cin`/`getline`/`stoi` parsing, the demo matrices in
  `main`, `imprimir_matriz`, `guardarResultadoEnArchivo` and the printing loops.
- Random matrix generation is not modelled. It is nondeterministic and backed by a library.
- The `chrono` timing and the `cout` calls inside YYC and BT are left out. They only observe.
- Combinators.Phi: the `cerr` message on a height mismatch is not modelled; only the empty result is.
- `densidad` is left out, because it is floating-point division.
- Bt.BT: `1LL << COLS` and the `long long` value arithmetic overflow for COLS >= 63. The model uses
  unbounded `nat`, so it describes the source only for COLS <= 62.
- Bt.BT: the loop-top `if (val >= total) break` is never taken, because the invariant keeps the value
  below `total`. It is an assertion in the model. The loop body is split into the methods
  `TestorStep` and `NonTestorStep`.
- Bt.EncontrarK: the source marks a row with no 1 by `ultima_pos = -1`. The model uses 0, the value
  `encontrar_ultimo_1` returns for that case. The test `ultima_pos != -1` becomes `ultimaPos != 0`,
  with the same effect.
- RowSort.OrdenarFilasPorUnos: the source calls `std::sort`, whose order among rows with equally
  many 1s is unspecified. The model sorts by insertion. Its contract states only what every such
  order satisfies: a permutation with non-decreasing counts. The tie order is not claimed.
- The internals of `std::set` and `std::string` are not modelled. A `Conjunto` is its increasing
  sequence, `set<Conjunto>` lookup is sequence equality, and the `visto` key set is captured by
  `Reduction.KeyInjective`.
- Preconditions the source leaves to the caller are explicit requires rather than crashes:
  - YYC and BT need a nonempty matrix whose rows all have the width of `MB[0]`;
  - BT needs COLS >= 1;
  - `gamma` needs both matrices nonempty, with every row at least as wide as row 0;
  - the reduction needs rows of one width, because `esSubfila` reads `s[i]` for every i of `r`.

## Findings

| source | as written | input that shows it | evidently intended | confidence | as-written member | corrected member |
|---|---|---|---|---|---|---|
| FINALCODE/finalcode.cpp:240-241 | an extension is kept when `cumple_criterios` holds: at least as many exactly-one rows as C has columns and a 1 in every column of C, counted over rows 0..f. A set can pass both counts while some column is never the only one of C in a row, so YYC returns non-minimal testors | rows 10001, 00110, 01001, 01010: the frontier ends with {2, 3, 4}, yet {3, 4} already hits every row | YYC returns exactly the typical testors: keep an extension only when each of its columns is the only one of the set in some row 0..f (the compatibility test of the published YYC algorithm) | not executed | `YycMinimality.AsWrittenNotMinimal` | `YycMinimality.FixedExact` |

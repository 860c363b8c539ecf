# Representation-ring engine of product-bundle.py, in Dafny

product-bundle.py computes with virtual representations of a finite group in
exact integer arithmetic. A representation is stored as its multiplicity vector,
one entry per irreducible. Its parts are:

- the **character table** (`CharacterTable`): the weighted inner product of class
  functions, the decomposition of a class function into irreducibles, the fusion
  (multiplication) table built by nested loops, and the bilinear ring product;
- **bigraded modules**: maps from a grade (degree, weight) to a multiplicity
  vector, with the convolution product `multiply` (pieces whose multiplicities sum
  to zero are pruned) and `power`;
- **series extraction**: the fibre `fiber_1` and its powers, `alternating_sum`
  (collapses the degree axis with sign (-1)^degree and drops zero totals) and
  `polynomial` (re-indexes weight w to exponent 2n - w).

The model consists of four modules:

- `Sums` (sums.dfy): finite sums and row/column sums of matrices.
- `CharacterTables` (character_table.dfy): the table as a datatype value passed
  to every operation, instead of the global `E6`.
- `GradedModules` (graded_modules.dfy): bigraded modules.
- `Series` (series.dfy): the fibre, the alternating sum and the polynomial.

The Python dictionaries are iterated in insertion order. The model picks keys in
an unspecified order, and each loop is proved against an order-free
specification: a sum over a finite set, which any element can be taken out of
last (`VecSumRemove`, `IntSumRemove`).

Three hypotheses hold for the genuine table the program reads, and are stated as
predicates that only the lemmas needing them assume:

- `Prepared`: the fusion table has been filled.
- `Orthonormal`: the rows are orthonormal for the class-size-weighted inner
  product.
- `TrivialFirst`: row 0 is the trivial character.

## Model

| member | source | states |
|---|---|---|
| CharacterTables.InnerProduct | product-bundle.py:21-30 | the result is the floor of Σ chi[i]·sigma[i]·classSizes[i] divided by the group order; it is exact when the sum is a multiple of the order |
| CharacterTables.InnerProductSymmetric | product-bundle.py:21-30 | the inner product is symmetric in its two arguments |
| CharacterTables.InnerProductOfMultiple | product-bundle.py:27-30 | when the weighted sum is m times the order, the inner product is m |
| CharacterTables.Orthogonality | product-bundle.py:21-30 | for an orthonormal table, the inner products of irreducible characters are 1 on the diagonal and 0 elsewhere |
| CharacterTables.Decompose | product-bundle.py:32-36 | entry i is the inner product with row i of the table; there is one entry per class |
| CharacterTables.DecomposeIrreducible | product-bundle.py:32-36 | for an orthonormal table, decomposing irreducible i gives unit vector i |
| CharacterTables.Pointwise | product-bundle.py:43 | the character of the tensor product is the classwise product |
| CharacterTables.FusionEntrySymmetric | product-bundle.py:41-44 | the decomposition of the product of rows i and j equals that of rows j and i |
| CharacterTables.StoreTwiceCube | product-bundle.py:45-46 | the two assignments keep the table's shape |
| CharacterTables.StoreTwice | product-bundle.py:45-46 | after the two assignments, entries (i, j) and (j, i) hold the decomposition and every other entry is unchanged |
| CharacterTables.ZeroTable | product-bundle.py:15-18 | the constructor's table is classes × classes zero vectors of length classes |
| CharacterTables.Store | product-bundle.py:45-46 | assigning one entry changes that entry only and keeps the shape |
| CharacterTables.FillStep | product-bundle.py:40-46 | one inner-loop step keeps every visited entry (both orders of the pair) equal to its fusion entry |
| CharacterTables.FillRow | product-bundle.py:39-40 | a finished row i is the starting state of row i + 1 |
| CharacterTables.FillDone | product-bundle.py:39-46 | once all rows are finished, every entry holds its fusion entry |
| CharacterTables.PrepareMultiplicationTable | product-bundle.py:38-46 | the nested loops leave every entry (i, j) equal to the decomposition of the product of rows i and j; the table is symmetric; nothing else in the table value changes |
| CharacterTables.PreparedIsSymmetric | product-bundle.py:45-46 | a prepared table is symmetric |
| CharacterTables.Multiply | product-bundle.py:48-56 | coefficient k of the ring product is Σ_i Σ_j mt[i][j][k]·rho[i]·sigma[j], with one coefficient per class |
| CharacterTables.RingCoefficientCommutes | product-bundle.py:50-54 | with a symmetric table, exchanging the factors keeps every coefficient (the double sum taken column by column) |
| CharacterTables.RingTermsTransposed | product-bundle.py:51-53 | the terms of the exchanged product are the transposed terms |
| CharacterTables.MultiplyCommutes | product-bundle.py:48-56 | with a symmetric table, the ring product is commutative |
| CharacterTables.RingCoefficientAddLeft | product-bundle.py:50-54 | each coefficient is additive in the first factor |
| CharacterTables.MultiplyDistributesLeft | product-bundle.py:48-56 | the ring product distributes over direct sum in its first argument |
| CharacterTables.RingCoefficientAddRight | product-bundle.py:50-54 | each coefficient is additive in the second factor |
| CharacterTables.MultiplyDistributesRight | product-bundle.py:48-56 | the ring product distributes over direct sum in its second argument |
| CharacterTables.MultiplyTrivial | product-bundle.py:48-56 | for a prepared genuine table, multiplying by the trivial representation on either side gives the vector back |
| CharacterTables.RingCoefficientTrivial | product-bundle.py:50-54 | one coefficient of the product with the trivial representation is the factor's own coefficient |
| CharacterTables.RingRowTrivial | product-bundle.py:50-54 | row i of that double sum is v[i] when i = k and 0 otherwise |
| CharacterTables.FusionWithTrivial | product-bundle.py:41-46 | for a prepared genuine table, entry (i, 0) is unit vector i |
| CharacterTables.UnitVector | product-bundle.py:58-61 | the result has length classes, a 1 at the index (a negative index counts from the end, as in Python) and 0 elsewhere |
| CharacterTables.Trivial | product-bundle.py:66-67 | the result is unit vector 0 |
| CharacterTables.Add | product-bundle.py:63-64 | the direct sum is componentwise and has length classes |
| CharacterTables.AddCommutes | product-bundle.py:63-64 | the direct sum is commutative |
| CharacterTables.AddAssociates | product-bundle.py:63-64 | the direct sum is associative |
| CharacterTables.AddZero | product-bundle.py:63-64 | the zero vector is neutral for the direct sum on vectors of length classes |
| CharacterTables.Invariant | product-bundle.py:69-72 | the grades are kept and each maps to component 0 of its vector |
| CharacterTables.ToCharacter | product-bundle.py:74-81 | value j is Σ_i multiplicities[i]·characters[i][j] |
| CharacterTables.DecomposeToCharacter | product-bundle.py:74-81 | for an orthonormal table, decompose inverts to_character |
| GradedModules.AddTuplesCommutes | product-bundle.py:87-88 | adding grades is commutative |
| GradedModules.AddTuplesOrigin | product-bundle.py:87-88 | grade (0, 0) is neutral on either side |
| GradedModules.VecSumRemove | product-bundle.py:99-102 | a sum of vectors over a finite set has the same value whichever element is added last |
| GradedModules.GradesMember | product-bundle.py:95-97 | a grade is reached exactly when some pair of visited keys adds up to it |
| GradedModules.GradesAdd | product-bundle.py:97 | visiting one more pair adds its grade and no other |
| GradedModules.Accumulated | product-bundle.py:94-102 | after the pairs in D are visited, each reached grade holds the sum of the ring products of the pairs landing on it |
| GradedModules.AccumulateHere | product-bundle.py:99-102 | the grade of the new pair gains its product, or is started with it |
| GradedModules.AccumulateElsewhere | product-bundle.py:99-102 | the other grades keep their sums |
| GradedModules.AccumulateStep | product-bundle.py:97-102 | one inner-loop step is the if/else update of `ret` |
| GradedModules.Prune | product-bundle.py:103-107 | a grade is kept exactly when its multiplicities do not sum to 0, with its value unchanged |
| GradedModules.Product | product-bundle.py:91-107 | each output grade is the sum of a key of p and a key of q; each value is the sum of the ring products of all pairs landing there; no output piece sums to 0; an empty factor gives an empty result |
| GradedModules.Multiply | product-bundle.py:91-107 | the nested loops compute Product, whatever order they visit the keys in |
| GradedModules.One | product-bundle.py:118 | the unit module holds the trivial representation at grade (0, 0) only |
| GradedModules.ConvolutionWithOne | product-bundle.py:91-102 | for a prepared genuine table, convolving with the unit module on the right gives p back |
| GradedModules.ConvolutionOneWith | product-bundle.py:91-102 | the same on the left |
| GradedModules.ProductWithOne | product-bundle.py:91-107 | for a prepared genuine table, multiplying by the unit module on either side gives p without its pieces that sum to 0 |
| GradedModules.ConvolutionCommutes | product-bundle.py:91-102 | with a symmetric table, the convolution is commutative |
| GradedModules.ProductCommutes | product-bundle.py:91-107 | with a symmetric table, the graded product is commutative |
| GradedModules.VecSumSwapped | product-bundle.py:95-102 | exchanging every pair together with its summand keeps the sum |
| GradedModules.PowerOf | product-bundle.py:110-122 | an empty module gives {} for every n ≥ 0, including 0; a non-empty module gives {(0,0): unit_vector(0)} for n = 0 and p for n = 1; for n ≥ 2 no piece sums to 0 |
| GradedModules.Power | product-bundle.py:110-122 | a negative exponent is rejected (the ValueError); otherwise the loop computes PowerOf |
| GradedModules.PowerIsIteratedProduct | product-bundle.py:117-121 | for a prepared genuine table and a pruned p, each power is the previous power times p, the step from 0 to 1 included |
| GradedModules.ProductWithPower | product-bundle.py:110-122 | for a prepared genuine table and a pruned p, p times the n-th power is the (n+1)-th power (the power law with one exponent 1) |
| Series.Sign | product-bundle.py:149 | the sign is ±1, and +1 exactly for even degrees |
| Series.IntSumRemove | product-bundle.py:148-153 | an integer sum over a finite set has the same value whichever element is added last |
| Series.Totals | product-bundle.py:147-153 | after the grades in D are visited, each weight reached holds the sum of the signed multiplicities of that weight |
| Series.TotalsStep | product-bundle.py:150-153 | one loop step is the if/else update of `ret` |
| Series.TotalsUpdate | product-bundle.py:148-153 | the method's in-place update of `ret` keeps the running totals |
| Series.PruneZeros | product-bundle.py:154-156 | a weight is kept exactly when its total is not 0 |
| Series.AlternatingSumOf | product-bundle.py:146-156 | each output weight occurs in the input; its value is Σ coefficient·(-1)^degree over the entries of that weight; a weight of the input is present exactly when that sum is not 0; no value is 0 |
| Series.AlternatingSum | product-bundle.py:146-156 | the loop computes AlternatingSumOf, whatever order it visits the keys in |
| Series.AlternatingSumEvenDegrees | product-bundle.py:146-156 | when every degree is even, the result is the unsigned per-weight total with zero totals dropped |
| Series.Reindex | product-bundle.py:160-161 | exponent e is present exactly when weight 2n - e is, with that weight's coefficient |
| Series.ReindexTwiceAt | product-bundle.py:160-161 | re-indexing one coefficient twice by the same n gives it back |
| Series.ReindexInvolution | product-bundle.py:160-161 | re-indexing twice by the same n gives the polynomial back |
| Series.FiberOne | product-bundle.py:138-142 | the fibre holds the trivial representation at (0,0) and (4,2), and trivial plus irreducible 1 at (2,1) |
| Series.Fiber | product-bundle.py:137-143 | the result is the n-th power of the fibre, and a negative n is rejected |
| Series.ModuliSpace | product-bundle.py:126-132 | five pieces of length 25 at (0,0) … (4,4), each in a grade whose degree equals its weight; the first three are unit vectors 0, 7 and 6, and the pieces at (3,3) and (4,4) contain irreducible 2 |
| Series.SeriesExponents | product-bundle.py:159-165 | every exponent of the series is 2n - w for a weight w of the module, and its coefficient is the signed total of that weight's invariants |
| Series.SeriesSupport | product-bundle.py:159-165 | every exponent of the series is 2n − w for a weight w of the module |
| Series.PolynomialWithFiber | product-bundle.py:159-165 | the pipeline fibre power e → multiply → invariant → alternating_sum → re-index by n computes PolynomialOf for fibre power e re-indexed by n, and a negative e is rejected; Polynomial and PolynomialAsWritten both use it |
| Series.Polynomial | product-bundle.py:159-165 | polynomial(n) uses the n-th fibre power and re-indexes by n; a negative n is rejected |
| Series.PolynomialAsWritten | product-bundle.py:163 | as written: the fibre power uses the loop variable i, and the re-indexing uses n |
| Series.PolynomialWithTrivialFiber | product-bundle.py:163 | with fibre power 0 and the unit module as base, index 1 has no term in exponent 1 |
| Series.PolynomialWithFiber1 | product-bundle.py:163 | with fibre power 1 and the unit module as base, index 1 has a term in exponent 1 |
| Series.PolynomialAsWrittenDiffers | product-bundle.py:163 | the two differ, so the result of polynomial(1) depends on the value of i |

## Left out

- Inputs for which the source raises IndexError are excluded by preconditions.
  These are `UnitVector`'s index outside -classes .. classes-1
  (product-bundle.py:60), vectors shorter than `classes` (`IsVector`; lines 23,
  51, 64, 77) and empty vectors in `Invariant` (line 72). Every call in the
  source meets these conditions.
- Reading the table file in the constructor (product-bundle.py:6-14). This is
  I/O. The table is a given `CharacterTable` value whose shape `WellFormed`
  states.
- `centralizer_sizes` (product-bundle.py:9-11): it is parsed but never used.
- The diagnostic `print` for a non-integral inner product (product-bundle.py:26).
  It does not change the returned value. The condition it tests is the
  predicate `Integral`.
- The output loops at product-bundle.py:168-183, which print characters and
  series coefficients.
- The global table `E6` (product-bundle.py:84). Every operation takes the table
  as a parameter.
- `base` (product-bundle.py:134) is a parameter of `Polynomial`. `ModuliSpace`
  gives the source's value, for a table with 25 classes.
- The concrete coefficients the program prints. They depend on the E6 table, and
  the table's data file is not part of this model.
- PrepareMultiplicationTable: the nested lists are modelled as a sequence value
  that each assignment replaces (`Store`). The source stores the same list
  object at (i, j) and (j, i). Nothing mutates either entry afterwards, so the
  sharing is not modelled.
- UnitVector: the write into a fresh list (product-bundle.py:59-60) is a
  sequence update.
- Dictionary insertion order, and so the order of keys in the results, is not
  modelled. Maps are compared as maps.
- Vectors longer than `classes`: the source reads only the first `classes`
  entries, and `IsVector` allows longer vectors. The graded unit-law lemmas
  (`ConvolutionWithOne`, `ProductWithOne`, `PowerIsIteratedProduct`) assume
  exact length `classes` (`Exact`), because `add` and `multiply` return
  vectors of exactly that length.
- GradedModules.PowerOf: the general power law, power(p, m) times power(p, n)
  equals power(p, m + n), is not stated. Only the case m = 1 is proved
  (`ProductWithPower`, `PowerIsIteratedProduct`). As written, the law fails for
  virtual modules whose pieces have negative multiplicities. `multiply` drops a
  grade when its multiplicities sum to 0 (product-bundle.py:106), not when its
  vector is zero. A grade dropped from power(p, 2) can still contribute to
  power(p, 4), so the product is not associative. The counterexample is not
  formalised here.
- GradedModules.PowerOf: for n = 1, `power` returns a copy of p without pruning
  (product-bundle.py:119). An output of `power` can therefore hold a piece
  whose multiplicities sum to 0, and the contract promises no pruning for
  n = 1.
- GradedModules.PowerOf: follows the code, not the usual convention. An empty
  module to the power 0 is `{}`, not the unit module (product-bundle.py:115-116
  run before the n = 0 test).

## Findings

| source | as written | input that shows it | evidently intended | confidence | as-written member | corrected member |
|---|---|---|---|---|---|---|
| product-bundle.py:163 | `polynomial(n)` takes the fibre power `fiber(i)` of the module-level loop variable `i` (product-bundle.py:174), not of its argument `n` | polynomial(1) evaluated while i is 0, over a genuine character table with at least two classes and the unit module as base: as written there is no q^1 term, while polynomial(1) with fiber(1) has the term 1·q^1. The loop at product-bundle.py:174-175 always calls it with i equal to n, so the printed output is unaffected | `fiber(n)` | not executed; the dependence on `i` is certain, its effect is limited to calls where i differs from n | Series.PolynomialAsWritten, Series.PolynomialAsWrittenDiffers | Series.Polynomial |

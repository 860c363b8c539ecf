/** The character table of a finite group and the arithmetic of its
    representation ring on multiplicity vectors (class `CharacterTable` of
    product-bundle.py). The table is a value handed to every operation. */
module CharacterTables {
  import opened Sums

  /** `characters[i]` is the character of the i-th irreducible representation,
      one value per conjugacy class; `multiplicationTable[i][j]` is the
      multiplicity vector of the tensor product of irreducibles i and j. */
  datatype CharacterTable = CharacterTable(
    classes: nat,
    size: int,
    classSizes: seq<int>,
    characters: seq<seq<int>>,
    multiplicationTable: seq<seq<seq<int>>>)

  /** The shape every table has once it has been read: at least one class
      (the identity's), a positive group order, one class size per class, a
      square table of characters and a cube-shaped multiplication table. */
  ghost predicate WellFormed(t: CharacterTable)
  {
    && t.classes > 0
    && t.size > 0
    && |t.classSizes| == t.classes
    && |t.characters| == t.classes
    && (forall i :: 0 <= i < t.classes ==> |t.characters[i]| == t.classes)
    && |t.multiplicationTable| == t.classes
    && (forall i :: 0 <= i < t.classes ==> |t.multiplicationTable[i]| == t.classes)
    && (forall i, j :: 0 <= i < t.classes && 0 <= j < t.classes ==>
          |t.multiplicationTable[i][j]| == t.classes)
  }

  /** A vector the operations can index at every class (the source reads
      entries 0 .. classes-1 and ignores any further ones). */
  predicate IsVector(t: CharacterTable, v: seq<int>)
  {
    |v| >= t.classes
  }

  /** The terms  chi[i]·sigma[i]·classSizes[i]  of the inner product. */
  function WeightedTerms(t: CharacterTable, chi: seq<int>, sigma: seq<int>): (r: seq<int>)
    requires WellFormed(t) && IsVector(t, chi) && IsVector(t, sigma)
    ensures |r| == t.classes
    ensures forall i :: 0 <= i < t.classes ==> r[i] == chi[i] * sigma[i] * t.classSizes[i]
  {
    seq(t.classes, i requires 0 <= i < t.classes => chi[i] * sigma[i] * t.classSizes[i])
  }

  /** The weighted sum  Σ_i chi[i]·sigma[i]·classSizes[i]. */
  function WeightedSum(t: CharacterTable, chi: seq<int>, sigma: seq<int>): (r: int)
    requires WellFormed(t) && IsVector(t, chi) && IsVector(t, sigma)
  {
    Sum(WeightedTerms(t, chi, sigma))
  }

  /** The inner product is integral: the weighted sum is a multiple of the
      group order. When it is not, the source prints a diagnostic. */
  ghost predicate Integral(t: CharacterTable, chi: seq<int>, sigma: seq<int>)
    requires WellFormed(t) && IsVector(t, chi) && IsVector(t, sigma)
  {
    WeightedSum(t, chi, sigma) % t.size == 0
  }

  /** The inner product of two class functions: the weighted sum divided by the
      group order, rounded down (Python's `//` with a positive divisor). */
  function InnerProduct(t: CharacterTable, chi: seq<int>, sigma: seq<int>): (r: int)
    requires WellFormed(t) && IsVector(t, chi) && IsVector(t, sigma)
    ensures r * t.size <= WeightedSum(t, chi, sigma) < r * t.size + t.size
    ensures Integral(t, chi, sigma) ==> r * t.size == WeightedSum(t, chi, sigma)
  {
    WeightedSum(t, chi, sigma) / t.size
  }

  /** The inner product does not depend on the order of its arguments. */
  lemma InnerProductSymmetric(t: CharacterTable, chi: seq<int>, sigma: seq<int>)
    requires WellFormed(t) && IsVector(t, chi) && IsVector(t, sigma)
    ensures InnerProduct(t, chi, sigma) == InnerProduct(t, sigma, chi)
  {
    assert WeightedTerms(t, chi, sigma) == WeightedTerms(t, sigma, chi);
  }

  /** The multiplicity of every irreducible in the class function `chi`. */
  function Decompose(t: CharacterTable, chi: seq<int>): (r: seq<int>)
    requires WellFormed(t) && IsVector(t, chi)
    ensures |r| == t.classes
    ensures forall i :: 0 <= i < t.classes ==> r[i] == InnerProduct(t, chi, t.characters[i])
  {
    seq(t.classes, i requires 0 <= i < t.classes => InnerProduct(t, chi, t.characters[i]))
  }

  /** The pointwise product of two characters, the character of their tensor product. */
  function Pointwise(t: CharacterTable, rho: seq<int>, sigma: seq<int>): (r: seq<int>)
    requires IsVector(t, rho) && IsVector(t, sigma)
    ensures |r| == t.classes
    ensures forall k :: 0 <= k < t.classes ==> r[k] == rho[k] * sigma[k]
  {
    seq(t.classes, k requires 0 <= k < t.classes => rho[k] * sigma[k])
  }

  /** What the multiplication table holds at (i, j): the decomposition of the
      product of the characters of irreducibles i and j. */
  function FusionEntry(t: CharacterTable, i: nat, j: nat): (r: seq<int>)
    requires WellFormed(t) && i < t.classes && j < t.classes
    ensures |r| == t.classes
  {
    Decompose(t, Pointwise(t, t.characters[i], t.characters[j]))
  }

  /** The fusion entry of (i, j) is that of (j, i). */
  lemma FusionEntrySymmetric(t: CharacterTable, i: nat, j: nat)
    requires WellFormed(t) && i < t.classes && j < t.classes
    ensures FusionEntry(t, i, j) == FusionEntry(t, j, i)
  {
    assert Pointwise(t, t.characters[i], t.characters[j])
        == Pointwise(t, t.characters[j], t.characters[i]);
  }

  /** The multiplication table has been filled from the characters. */
  ghost predicate Prepared(t: CharacterTable)
  {
    && WellFormed(t)
    && forall i, j :: 0 <= i < t.classes && 0 <= j < t.classes ==>
         t.multiplicationTable[i][j] == FusionEntry(t, i, j)
  }

  /** The multiplication table is symmetric. */
  ghost predicate Symmetric(t: CharacterTable)
    requires WellFormed(t)
  {
    forall i, j :: 0 <= i < t.classes && 0 <= j < t.classes ==>
      t.multiplicationTable[i][j] == t.multiplicationTable[j][i]
  }

  /** A prepared multiplication table is symmetric. */
  lemma PreparedIsSymmetric(t: CharacterTable)
    requires Prepared(t)
    ensures Symmetric(t)
  {
    forall i, j | 0 <= i < t.classes && 0 <= j < t.classes
      ensures t.multiplicationTable[i][j] == t.multiplicationTable[j][i]
    {
      FusionEntrySymmetric(t, i, j);
    }
  }

  /** A table of `classes` x `classes` zero vectors of length `classes`, as the
      constructor allocates before the table is prepared. */
  function ZeroTable(classes: nat): (r: seq<seq<seq<int>>>)
    ensures |r| == classes
    ensures forall i :: 0 <= i < classes ==> |r[i]| == classes
    ensures forall i, j :: 0 <= i < classes && 0 <= j < classes ==> r[i][j] == seq(classes, _ => 0)
  {
    seq(classes, _ => seq(classes, _ => seq(classes, _ => 0)))
  }

  /** The multiplication-table entries already filled after the outer loop
      reached row `i` and the inner loop column `j` (pairs with x <= y are
      visited as (x, y), and each visit also writes (y, x)). */
  ghost predicate Filled(i: nat, j: nat, x: nat, y: nat)
  {
    var lo := if x <= y then x else y;
    var hi := if x <= y then y else x;
    lo < i || (lo == i && hi < j)
  }

  /** `mt` has the shape of a multiplication table for `classes` classes. */
  ghost predicate Cube(mt: seq<seq<seq<int>>>, classes: nat)
  {
    && |mt| == classes
    && (forall x :: 0 <= x < classes ==> |mt[x]| == classes)
    && (forall x, y :: 0 <= x < classes && 0 <= y < classes ==> |mt[x][y]| == classes)
  }

  /** Every filled entry of `mt` holds its fusion entry. */
  ghost predicate FilledCorrectly(t: CharacterTable, mt: seq<seq<seq<int>>>, i: nat, j: nat)
    requires WellFormed(t) && Cube(mt, t.classes)
  {
    forall x, y :: 0 <= x < t.classes && 0 <= y < t.classes && Filled(i, j, x, y) ==>
      mt[x][y] == FusionEntry(t, x, y)
  }

  /** `mt` with entry (x, y) replaced by `v` (the assignment `mt[x][y] = v`). */
  function Store(mt: seq<seq<seq<int>>>, x: nat, y: nat, v: seq<int>): (r: seq<seq<seq<int>>>)
    requires x < |mt| && y < |mt[x]|
    ensures |r| == |mt|
    ensures forall a :: 0 <= a < |mt| ==> |r[a]| == |mt[a]|
    ensures forall a, b :: 0 <= a < |mt| && 0 <= b < |mt[a]| ==>
      r[a][b] == if a == x && b == y then v else mt[a][b]
  {
    mt[x := mt[x][y := v]]
  }

  // One step of the inner loop keeps the filled entries correct.
  lemma FillStep(t: CharacterTable, mt: seq<seq<seq<int>>>, i: nat, j: nat)
    requires WellFormed(t) && Cube(mt, t.classes) && i <= j < t.classes
    requires FilledCorrectly(t, mt, i, j)
    ensures var d := FusionEntry(t, i, j);
            var mt' := Store(Store(mt, i, j, d), j, i, d);
            Cube(mt', t.classes) && FilledCorrectly(t, mt', i, j + 1)
  {
    var d := FusionEntry(t, i, j);
    var mt' := Store(Store(mt, i, j, d), j, i, d);
    FusionEntrySymmetric(t, i, j);
    StoreTwiceCube(mt, t.classes, i, j, d);
    forall x, y | 0 <= x < t.classes && 0 <= y < t.classes && Filled(i, j + 1, x, y)
      ensures mt'[x][y] == FusionEntry(t, x, y)
    {
      if !((x == i && y == j) || (x == j && y == i)) {
        assert Filled(i, j, x, y);
      }
      StoreTwice(mt, i, j, d, x, y);
    }
  }

  // Storing an entry of the right length at (i, j) and (j, i) keeps the shape.
  lemma StoreTwiceCube(mt: seq<seq<seq<int>>>, c: nat, i: nat, j: nat, d: seq<int>)
    requires Cube(mt, c) && i < c && j < c && |d| == c
    ensures Cube(Store(Store(mt, i, j, d), j, i, d), c)
  {
  }

  // Entry (x, y) after storing `d` at (i, j) and at (j, i).
  lemma StoreTwice(mt: seq<seq<seq<int>>>, i: nat, j: nat, d: seq<int>, x: nat, y: nat)
    requires i < |mt| && j < |mt| && x < |mt| && y < |mt|
    requires forall a :: 0 <= a < |mt| ==> |mt[a]| == |mt|
    ensures Store(Store(mt, i, j, d), j, i, d)[x][y]
         == if (x == i && y == j) || (x == j && y == i) then d else mt[x][y]
  {
  }

  // Finishing row `i` is the same as starting row `i + 1`.
  lemma FillRow(t: CharacterTable, mt: seq<seq<seq<int>>>, i: nat)
    requires WellFormed(t) && Cube(mt, t.classes) && i < t.classes
    requires FilledCorrectly(t, mt, i, t.classes)
    ensures FilledCorrectly(t, mt, i + 1, i + 1)
  {
  }

  // Once every row is finished the whole table holds the fusion entries.
  lemma FillDone(t: CharacterTable, mt: seq<seq<seq<int>>>)
    requires WellFormed(t) && Cube(mt, t.classes)
    requires FilledCorrectly(t, mt, t.classes, t.classes)
    ensures Prepared(t.(multiplicationTable := mt))
  {
    var r := t.(multiplicationTable := mt);
    forall i, j | 0 <= i < t.classes && 0 <= j < t.classes
      ensures r.multiplicationTable[i][j] == FusionEntry(r, i, j)
    {
      assert Filled(t.classes, t.classes, i, j);
    }
  }

  /** Fills the multiplication table: for every pair i <= j the decomposition of
      the product of characters i and j is stored at (i, j) and at (j, i).
      Every entry is written, so the zero table the constructor allocates is
      overwritten completely. */
  method PrepareMultiplicationTable(t: CharacterTable) returns (r: CharacterTable)
    requires WellFormed(t)
    ensures r.classes == t.classes && r.size == t.size
    ensures r.classSizes == t.classSizes && r.characters == t.characters
    ensures Prepared(r)
    ensures Symmetric(r)
  {
    var c := t.classes;
    var mt := ZeroTable(c);
    var i := 0;
    while i < c
      invariant 0 <= i <= c
      invariant Cube(mt, c)
      invariant FilledCorrectly(t, mt, i, i)
    {
      var j := i;
      while j < c
        invariant i <= j <= c
        invariant Cube(mt, c)
        invariant FilledCorrectly(t, mt, i, j)
      {
        var rho := t.characters[i];
        var sigma := t.characters[j];
        var chi := Pointwise(t, rho, sigma);
        var decomposition := Decompose(t, chi);
        FillStep(t, mt, i, j);
        mt := Store(mt, i, j, decomposition);
        mt := Store(mt, j, i, decomposition);
        j := j + 1;
      }
      FillRow(t, mt, i);
      i := i + 1;
    }
    FillDone(t, mt);
    r := t.(multiplicationTable := mt);
    PreparedIsSymmetric(r);
  }

  /** Unit vector: all zeros except a 1 at `index`, which may be negative and
      then counts from the end, as a Python list index does. */
  function UnitVector(t: CharacterTable, index: int): (r: seq<int>)
    requires -(t.classes as int) <= index < t.classes
    ensures |r| == t.classes
    ensures var k := if index < 0 then index + t.classes else index;
            r[k] == 1 && forall i :: 0 <= i < t.classes && i != k ==> r[i] == 0
  {
    var k := if index < 0 then index + t.classes else index;
    seq(t.classes, _ => 0)[k := 1]
  }

  /** The multiplicity vector of the trivial representation. */
  function Trivial(t: CharacterTable): (r: seq<int>)
    requires WellFormed(t)
    ensures r == UnitVector(t, 0)
    ensures |r| == t.classes && r[0] == 1
    ensures forall i :: 0 < i < t.classes ==> r[i] == 0
  {
    UnitVector(t, 0)
  }

  /** Componentwise sum: the direct sum of two (virtual) representations. */
  function Add(t: CharacterTable, rho: seq<int>, sigma: seq<int>): (r: seq<int>)
    requires IsVector(t, rho) && IsVector(t, sigma)
    ensures |r| == t.classes
    ensures forall i :: 0 <= i < t.classes ==> r[i] == rho[i] + sigma[i]
  {
    seq(t.classes, i requires 0 <= i < t.classes => rho[i] + sigma[i])
  }

  /** Direct sum is commutative. */
  lemma AddCommutes(t: CharacterTable, rho: seq<int>, sigma: seq<int>)
    requires IsVector(t, rho) && IsVector(t, sigma)
    ensures Add(t, rho, sigma) == Add(t, sigma, rho)
  {
  }

  /** Direct sum is associative. */
  lemma AddAssociates(t: CharacterTable, a: seq<int>, b: seq<int>, c: seq<int>)
    requires IsVector(t, a) && IsVector(t, b) && IsVector(t, c)
    ensures Add(t, Add(t, a, b), c) == Add(t, a, Add(t, b, c))
  {
  }

  /** The zero vector is neutral for direct sum on vectors of length `classes`. */
  lemma AddZero(t: CharacterTable, a: seq<int>)
    requires |a| == t.classes
    ensures Add(t, seq(t.classes, _ => 0), a) == a
  {
  }

  /** The terms  mt[i][j][k]·rho[i]·sigma[j]  (one per j) of the multiplicity
      of irreducible k in the product of rho and sigma. */
  function RingTerms(t: CharacterTable, rho: seq<int>, sigma: seq<int>, k: nat, i: nat): (r: seq<int>)
    requires WellFormed(t) && IsVector(t, rho) && IsVector(t, sigma)
    requires k < t.classes && i < t.classes
    ensures |r| == t.classes
    ensures forall j :: 0 <= j < t.classes ==> r[j] == t.multiplicationTable[i][j][k] * rho[i] * sigma[j]
  {
    seq(t.classes, j requires 0 <= j < t.classes => t.multiplicationTable[i][j][k] * rho[i] * sigma[j])
  }

  /** All terms of the multiplicity of irreducible k, row i holding those of rho[i]. */
  function RingMatrix(t: CharacterTable, rho: seq<int>, sigma: seq<int>, k: nat): (r: seq<seq<int>>)
    requires WellFormed(t) && IsVector(t, rho) && IsVector(t, sigma) && k < t.classes
    ensures |r| == t.classes && Rectangular(r, t.classes)
    ensures forall i :: 0 <= i < t.classes ==> r[i] == RingTerms(t, rho, sigma, k, i)
  {
    seq(t.classes, i requires 0 <= i < t.classes => RingTerms(t, rho, sigma, k, i))
  }

  /** The multiplicity of irreducible k in the product of rho and sigma:
      Σ_i Σ_j mt[i][j][k]·rho[i]·sigma[j]. */
  function RingCoefficient(t: CharacterTable, rho: seq<int>, sigma: seq<int>, k: nat): (r: int)
    requires WellFormed(t) && IsVector(t, rho) && IsVector(t, sigma) && k < t.classes
  {
    Sum(RowSums(RingMatrix(t, rho, sigma, k)))
  }

  /** The product in the representation ring, extended bilinearly from the
      multiplication table to all integer vectors. */
  function Multiply(t: CharacterTable, rho: seq<int>, sigma: seq<int>): (r: seq<int>)
    requires WellFormed(t) && IsVector(t, rho) && IsVector(t, sigma)
    ensures |r| == t.classes
    ensures forall k :: 0 <= k < t.classes ==> r[k] == RingCoefficient(t, rho, sigma, k)
  {
    seq(t.classes, k requires 0 <= k < t.classes => RingCoefficient(t, rho, sigma, k))
  }

  // One coefficient of the commuted product.
  lemma {:induction false} RingCoefficientCommutes(t: CharacterTable, rho: seq<int>, sigma: seq<int>, k: nat)
    requires WellFormed(t) && Symmetric(t) && IsVector(t, rho) && IsVector(t, sigma) && k < t.classes
    ensures RingCoefficient(t, rho, sigma, k) == RingCoefficient(t, sigma, rho, k)
  {
    var c := t.classes;
    var m := RingMatrix(t, rho, sigma, k);
    var n := RingMatrix(t, sigma, rho, k);
    SumOfRowSums(m, c);
    forall j | 0 <= j < c
      ensures RowSums(n)[j] == ColumnSums(m, c)[j]
    {
      RingTermsTransposed(t, rho, sigma, k, j);
    }
    assert RowSums(n) == ColumnSums(m, c);
  }

  // Row j of the commuted terms is column j of the original ones.
  lemma RingTermsTransposed(t: CharacterTable, rho: seq<int>, sigma: seq<int>, k: nat, j: nat)
    requires WellFormed(t) && Symmetric(t) && IsVector(t, rho) && IsVector(t, sigma)
    requires k < t.classes && j < t.classes
    ensures RingTerms(t, sigma, rho, k, j) == Column(RingMatrix(t, rho, sigma, k), t.classes, j)
  {
    var m := RingMatrix(t, rho, sigma, k);
    var n := RingTerms(t, sigma, rho, k, j);
    forall i | 0 <= i < t.classes
      ensures n[i] == m[i][j]
    {
      assert t.multiplicationTable[j][i] == t.multiplicationTable[i][j];
      var e := t.multiplicationTable[i][j][k];
      assert e * sigma[j] * rho[i] == e * rho[i] * sigma[j];
    }
  }

  /** With a symmetric multiplication table the ring product is commutative. */
  lemma MultiplyCommutes(t: CharacterTable, rho: seq<int>, sigma: seq<int>)
    requires WellFormed(t) && Symmetric(t) && IsVector(t, rho) && IsVector(t, sigma)
    ensures Multiply(t, rho, sigma) == Multiply(t, sigma, rho)
  {
    forall k | 0 <= k < t.classes
      ensures Multiply(t, rho, sigma)[k] == Multiply(t, sigma, rho)[k]
    {
      RingCoefficientCommutes(t, rho, sigma, k);
    }
  }

  // One coefficient of a product whose first factor is a sum.
  lemma RingCoefficientAddLeft(t: CharacterTable, a: seq<int>, b: seq<int>, sigma: seq<int>, k: nat)
    requires WellFormed(t) && IsVector(t, a) && IsVector(t, b) && IsVector(t, sigma) && k < t.classes
    ensures RingCoefficient(t, Add(t, a, b), sigma, k) == RingCoefficient(t, a, sigma, k) + RingCoefficient(t, b, sigma, k)
  {
    var c := t.classes;
    var ra := RingMatrix(t, a, sigma, k);
    var rb := RingMatrix(t, b, sigma, k);
    var rab := RingMatrix(t, Add(t, a, b), sigma, k);
    forall i | 0 <= i < c
      ensures Sum(rab[i]) == Sum(ra[i]) + Sum(rb[i])
    {
      forall j | 0 <= j < c
        ensures rab[i][j] == ra[i][j] + rb[i][j]
      {
        var e := t.multiplicationTable[i][j][k];
        assert e * (a[i] + b[i]) * sigma[j] == e * a[i] * sigma[j] + e * b[i] * sigma[j];
      }
      SumOfPointwiseAdd(ra[i], rb[i], rab[i]);
    }
    SumOfPointwiseAdd(RowSums(ra), RowSums(rb), RowSums(rab));
  }

  /** The ring product is additive in its first argument. */
  lemma MultiplyDistributesLeft(t: CharacterTable, a: seq<int>, b: seq<int>, sigma: seq<int>)
    requires WellFormed(t) && IsVector(t, a) && IsVector(t, b) && IsVector(t, sigma)
    ensures Multiply(t, Add(t, a, b), sigma) == Add(t, Multiply(t, a, sigma), Multiply(t, b, sigma))
  {
    forall k | 0 <= k < t.classes
      ensures Multiply(t, Add(t, a, b), sigma)[k] == Multiply(t, a, sigma)[k] + Multiply(t, b, sigma)[k]
    {
      RingCoefficientAddLeft(t, a, b, sigma, k);
    }
  }

  // One coefficient of a product whose second factor is a sum.
  lemma RingCoefficientAddRight(t: CharacterTable, rho: seq<int>, a: seq<int>, b: seq<int>, k: nat)
    requires WellFormed(t) && IsVector(t, rho) && IsVector(t, a) && IsVector(t, b) && k < t.classes
    ensures RingCoefficient(t, rho, Add(t, a, b), k) == RingCoefficient(t, rho, a, k) + RingCoefficient(t, rho, b, k)
  {
    var c := t.classes;
    var ra := RingMatrix(t, rho, a, k);
    var rb := RingMatrix(t, rho, b, k);
    var rab := RingMatrix(t, rho, Add(t, a, b), k);
    forall i | 0 <= i < c
      ensures Sum(rab[i]) == Sum(ra[i]) + Sum(rb[i])
    {
      forall j | 0 <= j < c
        ensures rab[i][j] == ra[i][j] + rb[i][j]
      {
        var e := t.multiplicationTable[i][j][k];
        assert e * rho[i] * (a[j] + b[j]) == e * rho[i] * a[j] + e * rho[i] * b[j];
      }
      SumOfPointwiseAdd(ra[i], rb[i], rab[i]);
    }
    SumOfPointwiseAdd(RowSums(ra), RowSums(rb), RowSums(rab));
  }

  /** The ring product is additive in its second argument. */
  lemma MultiplyDistributesRight(t: CharacterTable, rho: seq<int>, a: seq<int>, b: seq<int>)
    requires WellFormed(t) && IsVector(t, rho) && IsVector(t, a) && IsVector(t, b)
    ensures Multiply(t, rho, Add(t, a, b)) == Add(t, Multiply(t, rho, a), Multiply(t, rho, b))
  {
    forall k | 0 <= k < t.classes
      ensures Multiply(t, rho, Add(t, a, b))[k] == Multiply(t, rho, a)[k] + Multiply(t, rho, b)[k]
    {
      RingCoefficientAddRight(t, rho, a, b, k);
    }
  }

  /** The terms  multiplicities[i]·characters[i][j]  (one per i) of the value
      of a character at class j. */
  function CharacterTerms(t: CharacterTable, multiplicities: seq<int>, j: nat): (r: seq<int>)
    requires WellFormed(t) && IsVector(t, multiplicities) && j < t.classes
    ensures |r| == t.classes
    ensures forall i :: 0 <= i < t.classes ==> r[i] == multiplicities[i] * t.characters[i][j]
  {
    seq(t.classes, i requires 0 <= i < t.classes => multiplicities[i] * t.characters[i][j])
  }

  /** The character of a virtual representation: the combination of the rows
      of the character table with the given multiplicities. */
  function ToCharacter(t: CharacterTable, multiplicities: seq<int>): (r: seq<int>)
    requires WellFormed(t) && IsVector(t, multiplicities)
    ensures |r| == t.classes
    ensures forall j :: 0 <= j < t.classes ==> r[j] == Sum(CharacterTerms(t, multiplicities, j))
  {
    seq(t.classes, j requires 0 <= j < t.classes => Sum(CharacterTerms(t, multiplicities, j)))
  }

  /** The rows of a genuine character table are orthonormal for the inner
      product weighted by the class sizes. */
  ghost predicate Orthonormal(t: CharacterTable)
    requires WellFormed(t)
  {
    forall i, j :: 0 <= i < t.classes && 0 <= j < t.classes ==>
      WeightedSum(t, t.characters[i], t.characters[j]) == if i == j then t.size else 0
  }

  /** Row 0 of the table is the trivial character, 1 on every class. */
  ghost predicate TrivialFirst(t: CharacterTable)
    requires WellFormed(t)
  {
    forall k :: 0 <= k < t.classes ==> t.characters[0][k] == 1
  }

  // Rounding down a multiple of a positive number.
  lemma FloorOfMultiple(r: int, m: int, n: int)
    requires n > 0 && r * n <= m * n < r * n + n
    ensures r == m
  {
    var d := m - r;
    assert d * n == m * n - r * n;
    if d > 0 {
      MultiplyAtLeast(d, n);
    } else if d < 0 {
      MultiplyAtLeast(-d, n);
    }
  }

  lemma MultiplyAtLeast(d: int, n: int)
    requires d >= 1 && n > 0
    ensures d * n >= n
  {
  }

  /** When the weighted sum is `m` times the group order, the inner product is `m`. */
  lemma InnerProductOfMultiple(t: CharacterTable, chi: seq<int>, sigma: seq<int>, m: int)
    requires WellFormed(t) && IsVector(t, chi) && IsVector(t, sigma)
    requires WeightedSum(t, chi, sigma) == m * t.size
    ensures InnerProduct(t, chi, sigma) == m
  {
    FloorOfMultiple(InnerProduct(t, chi, sigma), m, t.size);
  }

  /** For an orthonormal table the inner products of irreducible characters
      are 1 on the diagonal and 0 elsewhere. */
  lemma Orthogonality(t: CharacterTable, i: nat, j: nat)
    requires WellFormed(t) && Orthonormal(t) && i < t.classes && j < t.classes
    ensures InnerProduct(t, t.characters[i], t.characters[j]) == if i == j then 1 else 0
  {
    InnerProductOfMultiple(t, t.characters[i], t.characters[j], if i == j then 1 else 0);
  }

  /** The terms of  ⟨ToCharacter(m), characters[k]⟩ · size  spread over
      classes j (rows) and irreducibles i (columns). */
  function RoundTripMatrix(t: CharacterTable, m: seq<int>, k: nat): (r: seq<seq<int>>)
    requires WellFormed(t) && IsVector(t, m) && k < t.classes
    ensures |r| == t.classes && Rectangular(r, t.classes)
    ensures forall j, i :: 0 <= j < t.classes && 0 <= i < t.classes ==>
      r[j][i] == m[i] * WeightedTerms(t, t.characters[i], t.characters[k])[j]
  {
    seq(t.classes, j requires 0 <= j < t.classes =>
      seq(t.classes, i requires 0 <= i < t.classes =>
        m[i] * WeightedTerms(t, t.characters[i], t.characters[k])[j]))
  }

  // Row j of the round-trip matrix sums to the j-th weighted term.
  lemma RoundTripRow(t: CharacterTable, m: seq<int>, k: nat, j: nat)
    requires WellFormed(t) && |m| == t.classes && k < t.classes && j < t.classes
    ensures WeightedTerms(t, ToCharacter(t, m), t.characters[k])[j] == Sum(RoundTripMatrix(t, m, k)[j])
  {
    var c := t.classes;
    var row := t.characters[k];
    var terms := RoundTripMatrix(t, m, k)[j];
    var f := row[j] * t.classSizes[j];
    forall i | 0 <= i < c
      ensures terms[i] == f * CharacterTerms(t, m, j)[i]
    {
      var x := t.characters[i][j];
      assert terms[i] == m[i] * (x * row[j] * t.classSizes[j]);
      assert m[i] * (x * row[j] * t.classSizes[j]) == f * (m[i] * x);
    }
    SumOfScaled(CharacterTerms(t, m, j), terms, f);
    Rearrange(ToCharacter(t, m)[j], row[j], t.classSizes[j]);
  }

  lemma Rearrange(a: int, b: int, c: int)
    ensures a * b * c == (b * c) * a
  {
  }

  // The weighted sum of the character of `m` against irreducible k, as a
  // matrix sum.
  lemma RoundTripRows(t: CharacterTable, m: seq<int>, k: nat)
    requires WellFormed(t) && |m| == t.classes && k < t.classes
    ensures WeightedSum(t, ToCharacter(t, m), t.characters[k]) == Sum(RowSums(RoundTripMatrix(t, m, k)))
  {
    forall j | 0 <= j < t.classes
      ensures WeightedTerms(t, ToCharacter(t, m), t.characters[k])[j] == RowSums(RoundTripMatrix(t, m, k))[j]
    {
      RoundTripRow(t, m, k, j);
    }
    assert WeightedTerms(t, ToCharacter(t, m), t.characters[k]) == RowSums(RoundTripMatrix(t, m, k));
  }

  // The same matrix sum taken column by column, for an orthonormal table.
  lemma {:induction false} RoundTripColumns(t: CharacterTable, m: seq<int>, k: nat)
    requires WellFormed(t) && Orthonormal(t) && |m| == t.classes && k < t.classes
    ensures Sum(ColumnSums(RoundTripMatrix(t, m, k), t.classes)) == m[k] * t.size
  {
    var c := t.classes;
    var terms := RoundTripMatrix(t, m, k);
    var cols := ColumnSums(terms, c);
    forall i | 0 <= i < c
      ensures cols[i] == if i == k then m[k] * t.size else 0
    {
      SumOfScaled(WeightedTerms(t, t.characters[i], t.characters[k]), Column(terms, c, i), m[i]);
    }
    SumOfDelta(cols, k);
  }

  /** For an orthonormal table, decomposing the character of a virtual
      representation recovers its multiplicities. */
  lemma DecomposeToCharacter(t: CharacterTable, m: seq<int>)
    requires WellFormed(t) && Orthonormal(t) && |m| == t.classes
    ensures Decompose(t, ToCharacter(t, m)) == m
  {
    forall k | 0 <= k < t.classes
      ensures InnerProduct(t, ToCharacter(t, m), t.characters[k]) == m[k]
    {
      RoundTripRows(t, m, k);
      SumOfRowSums(RoundTripMatrix(t, m, k), t.classes);
      RoundTripColumns(t, m, k);
      InnerProductOfMultiple(t, ToCharacter(t, m), t.characters[k], m[k]);
    }
  }

  /** For an orthonormal table, the decomposition of an irreducible character
      is the unit vector of that irreducible. */
  lemma DecomposeIrreducible(t: CharacterTable, i: nat)
    requires WellFormed(t) && Orthonormal(t) && i < t.classes
    ensures Decompose(t, t.characters[i]) == UnitVector(t, i)
  {
    forall k | 0 <= k < t.classes
      ensures InnerProduct(t, t.characters[i], t.characters[k]) == UnitVector(t, i)[k]
    {
      Orthogonality(t, i, k);
    }
  }

  /** For a prepared orthonormal table whose first row is the trivial
      character, the table's column 0 holds the unit vectors. */
  lemma FusionWithTrivial(t: CharacterTable, i: nat)
    requires Prepared(t) && Orthonormal(t) && TrivialFirst(t) && i < t.classes
    ensures t.multiplicationTable[i][0] == UnitVector(t, i)
  {
    assert Pointwise(t, t.characters[i], t.characters[0]) == t.characters[i];
    DecomposeIrreducible(t, i);
  }

  // Row i of the product with the trivial representation keeps only v[i]·δ(i, k).
  lemma RingRowTrivial(t: CharacterTable, v: seq<int>, k: nat, i: nat)
    requires WellFormed(t) && |v| == t.classes && k < t.classes && i < t.classes
    requires t.multiplicationTable[i][0] == UnitVector(t, i)
    ensures Sum(RingTerms(t, v, Trivial(t), k, i)) == if i == k then v[k] else 0
  {
    var u := Trivial(t);
    var terms := RingTerms(t, v, u, k, i);
    forall j | 0 <= j < t.classes && j != 0
      ensures terms[j] == 0
    {
      assert u[j] == 0;
      var e := t.multiplicationTable[i][j][k];
      assert terms[j] == e * v[i] * 0;
    }
    var e := t.multiplicationTable[i][0][k];
    assert e == if i == k then 1 else 0;
    assert terms[0] == e * v[i] * 1;
    SumOfDelta(terms, 0);
  }

  // One coefficient of the product with the trivial representation.
  lemma RingCoefficientTrivial(t: CharacterTable, v: seq<int>, k: nat)
    requires Prepared(t) && Orthonormal(t) && TrivialFirst(t) && |v| == t.classes && k < t.classes
    ensures RingCoefficient(t, v, Trivial(t), k) == v[k]
  {
    var rows := RowSums(RingMatrix(t, v, Trivial(t), k));
    forall i | 0 <= i < t.classes
      ensures rows[i] == if i == k then v[k] else 0
    {
      FusionWithTrivial(t, i);
      RingRowTrivial(t, v, k, i);
    }
    SumOfDelta(rows, k);
  }

  /** For a prepared genuine character table (orthonormal rows, trivial
      character first), the trivial representation is a unit of the ring:
      every vector of length `classes` is its own product with it. */
  lemma MultiplyTrivial(t: CharacterTable, v: seq<int>)
    requires Prepared(t) && Orthonormal(t) && TrivialFirst(t) && |v| == t.classes
    ensures Multiply(t, v, Trivial(t)) == v
    ensures Multiply(t, Trivial(t), v) == v
  {
    forall k | 0 <= k < t.classes
      ensures Multiply(t, v, Trivial(t))[k] == v[k]
    {
      RingCoefficientTrivial(t, v, k);
    }
    PreparedIsSymmetric(t);
    MultiplyCommutes(t, v, Trivial(t));
  }

  /** Projects every graded piece onto its trivial-representation
      multiplicity (component 0), keeping the set of grades. */
  function Invariant<G>(cohomology: map<G, seq<int>>): (r: map<G, int>)
    requires forall g :: g in cohomology ==> |cohomology[g]| > 0
    ensures r.Keys == cohomology.Keys
    ensures forall g :: g in r ==> r[g] == cohomology[g][0]
  {
    map g | g in cohomology :: cohomology[g][0]
  }
}

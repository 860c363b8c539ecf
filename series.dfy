/** The series extracted from the bigraded modules: the fibre module and its
    powers, the alternating sum over the degree axis and the re-indexed
    polynomial (module functions `fiber`, `alternating_sum` and `polynomial`
    of product-bundle.py, and the constant `moduli_space`). */
module Series {
  import opened Sums
  import CT = CharacterTables
  import GM = GradedModules

  type Grade = GM.Grade

  /** Integer multiplicities at each grade (degree, weight). */
  type Cohomology = map<Grade, int>

  /** A Laurent polynomial in one variable: exponent to coefficient. */
  type Laurent = map<int, int>

  /** The sum of the integers `v[x]` over the finite set `D`, in no
      particular order. */
  ghost function IntSum<K>(v: map<K, int>, D: set<K>): (r: int)
    requires D <= v.Keys
    decreases D
  {
    if D == {} then 0 else var x :| x in D; IntSum(v, D - {x}) + v[x]
  }

  /** Any element of the set can be taken out of the sum last: the sum does
      not depend on the order in which the elements are added. */
  lemma {:induction false} IntSumRemove<K>(v: map<K, int>, D: set<K>, x: K)
    requires D <= v.Keys && x in D
    ensures IntSum(v, D) == IntSum(v, D - {x}) + v[x]
    decreases D
  {
    var y :| y in D && IntSum(v, D) == IntSum(v, D - {y}) + v[y];
    if y != x {
      assert D - {y} - {x} == D - {x} - {y};
      IntSumRemove(v, D - {y}, x);
      IntSumRemove(v, D - {x}, y);
    }
  }

  /** The sign (-1)^degree, with the parity of Python's `%`, which for
      a divisor of 2 agrees with Dafny's. */
  function Sign(degree: int): (r: int)
    ensures r == 1 || r == -1
    ensures r == 1 <==> degree % 2 == 0
  {
    if degree % 2 != 0 then -1 else 1
  }

  /** Every multiplicity multiplied by the sign of its degree. */
  ghost function Signed(m: Cohomology): (r: Cohomology)
    ensures r.Keys == m.Keys
    ensures forall g :: g in r ==> r[g] == m[g] * Sign(g.0)
  {
    map g | g in m :: m[g] * Sign(g.0)
  }

  /** The weights occurring among the grades of `D`. */
  ghost function Weights(D: set<Grade>): (r: set<int>)
    ensures forall w :: w in r <==> exists g :: g in D && g.1 == w
  {
    set g | g in D :: g.1
  }

  /** The grades of `D` of weight `w`. */
  ghost function AtWeight(D: set<Grade>, w: int): (r: set<Grade>)
    ensures r <= D
    ensures forall g :: g in r <==> g in D && g.1 == w
  {
    set g | g in D && g.1 == w
  }

  /** The signed totals per weight once the grades in `D` are processed, of
      the multiplicities `v` (already signed or not). */
  ghost function Totals(v: Cohomology, D: set<Grade>): (r: Laurent)
    requires D <= v.Keys
    ensures r.Keys == Weights(D)
    ensures forall w :: w in r ==> r[w] == IntSum(v, AtWeight(D, w))
  {
    map w | w in Weights(D) :: IntSum(v, AtWeight(D, w))
  }

  /** `s` without its zero coefficients. */
  function PruneZeros(s: Laurent): (r: Laurent)
    ensures r.Keys <= s.Keys
    ensures forall w :: w in s ==> (w in r <==> s[w] != 0)
    ensures forall w :: w in r ==> r[w] == s[w]
  {
    map w | w in s && s[w] != 0 :: s[w]
  }

  /** What `alternating_sum` computes: for every weight occurring in `m`, the
      total of the multiplicities of that weight with sign (-1)^degree, every
      zero total dropped. */
  ghost function AlternatingSumOf(m: Cohomology): (r: Laurent)
    ensures forall w :: w in r ==> exists g :: g in m && g.1 == w
    ensures forall w :: w in r ==> r[w] == IntSum(Signed(m), AtWeight(m.Keys, w))
    ensures forall g :: g in m ==>
      (g.1 in r <==> IntSum(Signed(m), AtWeight(m.Keys, g.1)) != 0)
    ensures forall w :: w in r ==> r[w] != 0
  {
    PruneZeros(Totals(Signed(m), m.Keys))
  }

  // Weights other than that of the new grade keep their totals.
  lemma TotalsElsewhere(v: Cohomology, D: set<Grade>, g: Grade, w: int)
    requires D <= v.Keys && g in v && w in Weights(D) && w != g.1
    ensures Totals(v, D + {g})[w] == Totals(v, D)[w]
  {
    assert AtWeight(D + {g}, w) == AtWeight(D, w);
  }

  // The weight of the new grade gains its multiplicity.
  lemma TotalsHere(v: Cohomology, D: set<Grade>, g: Grade)
    requires D <= v.Keys && g in v && g !in D
    ensures var tot := Totals(v, D);
            Totals(v, D + {g})[g.1] == if g.1 in tot then tot[g.1] + v[g] else v[g]
  {
    var D' := D + {g};
    assert g.1 in Weights(D');
    assert AtWeight(D', g.1) - {g} == AtWeight(D, g.1);
    IntSumRemove(v, AtWeight(D', g.1), g);
    if g.1 !in Weights(D) {
      assert AtWeight(D, g.1) == {};
    }
  }

  /** `tot` with `c` added to the coefficient of `w`, or `w` started with `c`. */
  function Accumulate(tot: Laurent, w: int, c: int): (r: Laurent)
    ensures r.Keys == tot.Keys + {w}
    ensures forall u :: u in tot && u != w ==> r[u] == tot[u]
    ensures r[w] == if w in tot then tot[w] + c else c
  {
    if w in tot then tot[w := tot[w] + c] else tot[w := c]
  }

  /** Processing one more grade adds its multiplicity into the total of its
      weight, or starts that total with it. */
  lemma TotalsStep(v: Cohomology, D: set<Grade>, g: Grade)
    requires D <= v.Keys && g in v && g !in D
    ensures Totals(v, D + {g}) == Accumulate(Totals(v, D), g.1, v[g])
  {
    var tot' := Totals(v, D + {g});
    var expected := Accumulate(Totals(v, D), g.1, v[g]);
    assert Weights(D + {g}) == Weights(D) + {g.1};
    forall w | w in tot'
      ensures tot'[w] == expected[w]
    {
      if w == g.1 {
        TotalsHere(v, D, g);
      } else {
        TotalsElsewhere(v, D, g, w);
      }
    }
    assert tot'.Keys == expected.Keys;
  }

  // The update AlternatingSum performs on its running totals.
  lemma TotalsUpdate(v: Cohomology, D: set<Grade>, g: Grade, before: Laurent, after: Laurent)
    requires D <= v.Keys && g in v && g !in D
    requires before == Totals(v, D)
    requires g.1 in before ==> after == before[g.1 := before[g.1] + v[g]]
    requires g.1 !in before ==> after == before[g.1 := v[g]]
    ensures after == Totals(v, D + {g})
  {
    TotalsStep(v, D, g);
  }

  // Bookkeeping of the grades visited by AlternatingSum.
  lemma NextDone(K: set<Grade>, todo: set<Grade>, g: Grade)
    requires g in todo && todo <= K
    ensures g !in K - todo
    ensures (K - todo) + {g} == K - (todo - {g})
  {
  }

  /** Collapses the degree axis (`alternating_sum` in the source): each
      multiplicity is added, with sign (-1)^degree, into the total of its
      weight; zero totals are then dropped. The map is visited in no
      particular order. */
  method AlternatingSum(m: Cohomology) returns (r: Laurent)
    ensures r == AlternatingSumOf(m)
  {
    var ret: Laurent := map[];
    ghost var done: set<Grade> := {};
    var todo := m.Keys;
    while todo != {}
      invariant todo <= m.Keys
      invariant done == m.Keys - todo
      invariant ret == Totals(Signed(m), done)
      decreases todo
    {
      var g :| g in todo;
      var signed := m[g] * Sign(g.0);
      assert signed == Signed(m)[g];
      NextDone(m.Keys, todo, g);
      ghost var before := ret;
      if g.1 in ret {
        ret := ret[g.1 := ret[g.1] + signed];
      } else {
        ret := ret[g.1 := signed];
      }
      TotalsUpdate(Signed(m), done, g, before, ret);
      done := done + {g};
      todo := todo - {g};
    }
    assert done == m.Keys;
    r := PruneZeros(ret);
  }

  /** When every degree is even the alternating sum is the plain total per
      weight, with zero totals dropped. */
  lemma AlternatingSumEvenDegrees(m: Cohomology)
    requires forall g :: g in m ==> g.0 % 2 == 0
    ensures AlternatingSumOf(m) == PruneZeros(Totals(m, m.Keys))
  {
    assert Signed(m) == m;
  }

  /** The exponent 2n - w that weight w is re-indexed to. */
  function Mirror(n: int, w: int): (r: int)
  {
    2 * n - w
  }

  /** Re-indexes weight w to exponent 2n - w. */
  function Reindex(s: Laurent, n: int): (r: Laurent)
    ensures forall e :: e in r <==> Mirror(n, e) in s
    ensures forall e :: e in r ==> r[e] == s[Mirror(n, e)]
  {
    var exponents := set w | w in s :: Mirror(n, w);
    assert forall e :: e in exponents <==> Mirror(n, e) in s by {
      forall e | Mirror(n, e) in s ensures e in exponents {
        assert Mirror(n, Mirror(n, e)) == e;
      }
    }
    map e | e in exponents :: s[Mirror(n, e)]
  }

  /** Re-indexing twice with the same n gives back the polynomial. */
  lemma ReindexInvolution(s: Laurent, n: int)
    ensures Reindex(Reindex(s, n), n) == s
  {
    ReindexTwice(s, n);
    SameLaurent(Reindex(Reindex(s, n), n), s);
  }

  // Every coefficient of the twice re-indexed polynomial.
  lemma ReindexTwice(s: Laurent, n: int)
    ensures forall w :: w in Reindex(Reindex(s, n), n) <==> w in s
    ensures forall w :: w in Reindex(Reindex(s, n), n) ==> Reindex(Reindex(s, n), n)[w] == s[w]
  {
    forall w
      ensures w in Reindex(Reindex(s, n), n) <==> w in s
      ensures w in s ==> Reindex(Reindex(s, n), n)[w] == s[w]
    {
      ReindexTwiceAt(s, n, w);
    }
  }

  // One coefficient of the twice re-indexed polynomial.
  lemma ReindexTwiceAt(s: Laurent, n: int, w: int)
    ensures w in Reindex(Reindex(s, n), n) <==> w in s
    ensures w in s ==> Reindex(Reindex(s, n), n)[w] == s[w]
  {
    assert Mirror(n, Mirror(n, w)) == w;
  }

  // Extensionality of polynomials.
  lemma SameLaurent(a: Laurent, b: Laurent)
    requires forall w :: w in a <==> w in b
    requires forall w :: w in a ==> a[w] == b[w]
    ensures a == b
  {
    assert forall w :: w in a ==> w in b && a[w] == b[w];
    assert forall w :: w in b ==> w in a;
  }

  /** The bigraded fibre `fiber_1`: trivial in grades (0, 0) and (4, 2), and
      trivial plus irreducible 1 in grade (2, 1). */
  function FiberOne(t: CT.CharacterTable): (r: GM.Module)
    requires CT.WellFormed(t) && t.classes >= 2
    ensures r.Keys == {(0, 0), (2, 1), (4, 2)}
    ensures r[(0, 0)] == CT.UnitVector(t, 0) && r[(4, 2)] == CT.UnitVector(t, 0)
    ensures r[(2, 1)] == CT.Add(t, CT.UnitVector(t, 0), CT.UnitVector(t, 1))
    ensures GM.Exact(t, r)
  {
    map[(0, 0) := CT.Trivial(t),
        (2, 1) := CT.Add(t, CT.Trivial(t), CT.UnitVector(t, 1)),
        (4, 2) := CT.Trivial(t)]
  }

  /** The n-th power of the fibre (`fiber` in the source). */
  method Fiber(t: CT.CharacterTable, n: int) returns (r: GM.Outcome<GM.Module>)
    requires CT.WellFormed(t) && t.classes >= 2
    ensures n < 0 <==> r == GM.InvalidExponent
    ensures n >= 0 ==> r == GM.Ok(GM.PowerOf(t, FiberOne(t), n))
  {
    r := GM.Power(t, FiberOne(t), n);
  }

  /** The module `moduli_space` (the source's `base`), for a table with the
      25 classes of the source's group: every piece sits in a grade whose
      degree equals its weight. */
  function ModuliSpace(t: CT.CharacterTable): (r: GM.Module)
    requires CT.WellFormed(t) && t.classes == 25
    ensures r.Keys == {(0, 0), (1, 1), (2, 2), (3, 3), (4, 4)}
    ensures forall g :: g in r ==> g.0 == g.1 && |r[g]| == 25
    ensures r[(0, 0)] == CT.UnitVector(t, 0)
    ensures r[(1, 1)] == CT.UnitVector(t, 7) && r[(2, 2)] == CT.UnitVector(t, 6)
    ensures r[(3, 3)][2] == 1 && r[(4, 4)][2] == 1
  {
    map[(0, 0) := CT.Trivial(t),
        (1, 1) := CT.UnitVector(t, 7),
        (2, 2) := CT.UnitVector(t, 6),
        (3, 3) := [0, 0, 1, 0, 0, 0, 0, 0, 0, 0, 0, 0, 0, 0, 0, 0, 0, 0, 0, 0, 1, 1, 0, 1, 0],
        (4, 4) := [0, 0, 1, 0, 0, 0, 0, 1, 0, 0, 0, 0, 1, 0, 0, 0, 0, 1, 0, 0, 1, 0, 0, 1, 1]]
  }

  /** The polynomial built from the `fiberExponent`-th power of the fibre
      times `base`: its invariants, alternating sum and re-indexing by n. */
  ghost function PolynomialOf(t: CT.CharacterTable, base: GM.Module, fiberExponent: nat, n: int): (r: Laurent)
    requires CT.WellFormed(t) && t.classes >= 2 && GM.IsModule(t, base)
  {
    var product := GM.Product(t, GM.PowerOf(t, FiberOne(t), fiberExponent), base);
    Reindex(AlternatingSumOf(CT.Invariant(product)), n)
  }

  /** Every exponent of the series of a bigraded module `m` re-indexed by n
      is 2n - w for the weight w of a grade of `m`, and its coefficient is
      the signed total of the invariants of that weight. */
  lemma SeriesExponents(m: GM.Module, n: int, e: int)
    requires forall g :: g in m ==> |m[g]| > 0
    requires e in Reindex(AlternatingSumOf(CT.Invariant(m)), n)
    ensures Mirror(n, e) in Weights(m.Keys)
    ensures var inv := CT.Invariant(m);
            Reindex(AlternatingSumOf(inv), n)[e] == IntSum(Signed(inv), AtWeight(inv.Keys, Mirror(n, e)))
  {
    var inv := CT.Invariant(m);
    var g :| g in inv && g.1 == Mirror(n, e);
  }

  /** The polynomial of index n (`polynomial` as intended): the n-th power of
      the fibre times `base`, its invariants, their alternating sum over the
      degree axis, and weight w re-indexed to exponent 2n - w. A negative n
      is rejected by `power`. */
  method Polynomial(t: CT.CharacterTable, base: GM.Module, n: int) returns (r: GM.Outcome<Laurent>)
    requires CT.WellFormed(t) && t.classes >= 2 && GM.IsModule(t, base)
    ensures n < 0 <==> r == GM.InvalidExponent
    ensures n >= 0 ==> r == GM.Ok(PolynomialOf(t, base, n, n))
  {
    r := PolynomialWithFiber(t, base, n, n);
  }

  /** `polynomial` as written: the fibre power is taken with the exponent `i`
      (the module-level loop variable) rather than with its argument n. */
  method PolynomialAsWritten(t: CT.CharacterTable, base: GM.Module, n: int, i: int) returns (r: GM.Outcome<Laurent>)
    requires CT.WellFormed(t) && t.classes >= 2 && GM.IsModule(t, base)
    ensures i < 0 <==> r == GM.InvalidExponent
    ensures i >= 0 ==> r == GM.Ok(PolynomialOf(t, base, i, n))
  {
    r := PolynomialWithFiber(t, base, i, n);
  }

  // The pipeline shared by both: fibre power `e`, re-indexing by n.
  method PolynomialWithFiber(t: CT.CharacterTable, base: GM.Module, e: int, n: int) returns (r: GM.Outcome<Laurent>)
    requires CT.WellFormed(t) && t.classes >= 2 && GM.IsModule(t, base)
    ensures e < 0 <==> r == GM.InvalidExponent
    ensures e >= 0 ==> r == GM.Ok(PolynomialOf(t, base, e, n))
  {
    var fiber := Fiber(t, e);
    if fiber.InvalidExponent? {
      return GM.InvalidExponent;
    }
    var product := GM.Multiply(t, fiber.value, base);
    var sum := AlternatingSum(CT.Invariant(product));
    return GM.Ok(Reindex(sum, n));
  }

  /** The exponents of the series of `m` re-indexed by n are mirrors of
      weights of `m`. */
  lemma SeriesSupport(m: GM.Module, n: int)
    requires forall g :: g in m ==> |m[g]| > 0
    ensures forall e :: e in Reindex(AlternatingSumOf(CT.Invariant(m)), n) ==> Mirror(n, e) in Weights(m.Keys)
  {
    forall e | e in Reindex(AlternatingSumOf(CT.Invariant(m)), n)
      ensures Mirror(n, e) in Weights(m.Keys)
    {
      SeriesExponents(m, n, e);
    }
  }

  // The unit module squared lives in grade (0, 0) only.
  lemma UnitSquared(t: CT.CharacterTable)
    requires CT.WellFormed(t) && t.classes >= 2
    ensures GM.PowerOf(t, FiberOne(t), 0) == GM.One(t)
    ensures forall g :: g in GM.Product(t, GM.One(t), GM.One(t)) ==> g.1 == 0
  {
  }

  /** Taking the fibre to the power 0 puts every invariant in weight 0, so
      the polynomial of index 1 has no term in exponent 1. */
  lemma PolynomialWithTrivialFiber(t: CT.CharacterTable)
    requires CT.WellFormed(t) && t.classes >= 2
    ensures 1 !in PolynomialOf(t, GM.One(t), 0, 1)
  {
    UnitSquared(t);
    var product := GM.Product(t, GM.One(t), GM.One(t));
    SeriesSupport(product, 1);
    assert Mirror(1, 1) !in Weights(product.Keys);
  }

  // The grade (2, 1) of the fibre survives pruning.
  lemma FiberMiddleKept(t: CT.CharacterTable)
    requires CT.WellFormed(t) && t.classes >= 2
    ensures (2, 1) in GM.Prune(FiberOne(t))
  {
    var v := FiberOne(t)[(2, 1)];
    SumOfNonNegative(v);
    assert v[0] == 1;
  }

  // The fibre to the power 1 against the unit module is the pruned fibre.
  lemma FiberTimesOne(t: CT.CharacterTable)
    requires CT.Prepared(t) && CT.Orthonormal(t) && CT.TrivialFirst(t) && t.classes >= 2
    ensures GM.Product(t, GM.PowerOf(t, FiberOne(t), 1), GM.One(t)) == GM.Prune(FiberOne(t))
  {
    assert GM.PowerOf(t, FiberOne(t), 1) == FiberOne(t);
    GM.ProductWithOne(t, FiberOne(t));
  }

  // The invariants of the pruned fibre.
  lemma PrunedFiberInvariants(t: CT.CharacterTable)
    requires CT.WellFormed(t) && t.classes >= 2
    ensures var inv := CT.Invariant(GM.Prune(FiberOne(t)));
            && inv.Keys <= {(0, 0), (2, 1), (4, 2)}
            && (2, 1) in inv && inv[(2, 1)] == 1
  {
    FiberMiddleKept(t);
  }

  // Invariants with a single multiplicity 1 in weight 1, at even degree 2,
  // give the term 1·q^1 in the series re-indexed by 1.
  lemma WeightOneTerm(inv: Cohomology)
    requires inv.Keys <= {(0, 0), (2, 1), (4, 2)} && (2, 1) in inv && inv[(2, 1)] == 1
    ensures 1 in Reindex(AlternatingSumOf(inv), 1)
  {
    var signed := Signed(inv);
    assert AtWeight(inv.Keys, 1) == {(2, 1)};
    IntSumRemove(signed, {(2, 1)}, (2, 1));
    assert {(2, 1)} - {(2, 1)} == {};
    assert IntSum(signed, AtWeight(inv.Keys, 1)) == 1;
    assert 1 in AlternatingSumOf(inv);
  }

  /** Taking the fibre to the power 1 leaves its invariant in grade (2, 1),
      so the polynomial of index 1 has the term 1·q^1. */
  lemma PolynomialWithFiber1(t: CT.CharacterTable)
    requires CT.Prepared(t) && CT.Orthonormal(t) && CT.TrivialFirst(t) && t.classes >= 2
    ensures 1 in PolynomialOf(t, GM.One(t), 1, 1)
  {
    FiberTimesOne(t);
    PrunedFiberInvariants(t);
    WeightOneTerm(CT.Invariant(GM.Prune(FiberOne(t))));
  }

  /** The discrepancy of `polynomial` as written: over any genuine character
      table with at least two classes and with the unit module as base, the
      call for index 1 made while the loop variable is 0 lacks the exponent-1
      term that the polynomial of index 1 has. */
  lemma PolynomialAsWrittenDiffers(t: CT.CharacterTable)
    requires CT.Prepared(t) && CT.Orthonormal(t) && CT.TrivialFirst(t) && t.classes >= 2
    ensures PolynomialOf(t, GM.One(t), 0, 1) != PolynomialOf(t, GM.One(t), 1, 1)
  {
    PolynomialWithTrivialFiber(t);
    PolynomialWithFiber1(t);
  }
}

/** Bigraded modules over the representation ring: finite maps from a grade
    (degree, weight) to a multiplicity vector, with their convolution product
    and integer powers (module functions `add_tuples`, `multiply` and `power`
    of product-bundle.py). */
module GradedModules {
  import opened Sums
  import CT = CharacterTables

  /** A grade (degree, weight). */
  type Grade = (int, int)

  /** A bigraded module: the representation sitting at each grade. */
  type Module = map<Grade, seq<int>>

  /** Every graded piece can be indexed at every class. */
  predicate IsModule(t: CT.CharacterTable, p: Module)
  {
    forall g :: g in p ==> CT.IsVector(t, p[g])
  }

  /** Componentwise sum of grades. */
  function AddTuples(x: Grade, y: Grade): (r: Grade)
  {
    (x.0 + y.0, x.1 + y.1)
  }

  /** The order of the two grades does not matter. */
  lemma AddTuplesCommutes(x: Grade, y: Grade)
    ensures AddTuples(x, y) == AddTuples(y, x)
  {
  }

  /** Grade (0, 0) is neutral on either side. */
  lemma AddTuplesOrigin(x: Grade)
    ensures AddTuples(x, (0, 0)) == x && AddTuples((0, 0), x) == x
  {
  }

  /** The zero vector. */
  function Zero(t: CT.CharacterTable): (r: seq<int>)
    ensures |r| == t.classes && forall i :: 0 <= i < t.classes ==> r[i] == 0
  {
    seq(t.classes, _ => 0)
  }

  /** The sum of the vectors `v[x]` over the finite set `D`, in no particular
      order. */
  ghost function VecSum<K>(t: CT.CharacterTable, v: map<K, seq<int>>, D: set<K>): (r: seq<int>)
    requires D <= v.Keys && forall x :: x in D ==> CT.IsVector(t, v[x])
    ensures |r| == t.classes
    decreases D
  {
    if D == {} then Zero(t) else var x :| x in D; CT.Add(t, VecSum(t, v, D - {x}), v[x])
  }

  /** Any element of the set can be taken out of the sum last: the sum does
      not depend on the order in which the elements are added. */
  lemma {:induction false} VecSumRemove<K>(t: CT.CharacterTable, v: map<K, seq<int>>, D: set<K>, x: K)
    requires D <= v.Keys && forall y :: y in D ==> CT.IsVector(t, v[y])
    requires x in D
    ensures VecSum(t, v, D) == CT.Add(t, VecSum(t, v, D - {x}), v[x])
    decreases D
  {
    var y :| y in D && VecSum(t, v, D) == CT.Add(t, VecSum(t, v, D - {y}), v[y]);
    if y != x {
      var rest := D - {x} - {y};
      assert D - {y} - {x} == rest;
      VecSumRemove(t, v, D - {y}, x);
      VecSumRemove(t, v, D - {x}, y);
      var s := VecSum(t, v, rest);
      assert VecSum(t, v, D) == CT.Add(t, CT.Add(t, s, v[x]), v[y]);
      assert VecSum(t, v, D - {x}) == CT.Add(t, s, v[y]);
    }
  }

  /** The sum over a single element of length `classes` is that element. */
  lemma VecSumSingleton<K>(t: CT.CharacterTable, v: map<K, seq<int>>, x: K)
    requires x in v && |v[x]| == t.classes
    ensures VecSum(t, v, {x}) == v[x]
  {
    VecSumRemove(t, v, {x}, x);
    assert {x} - {x} == {};
  }

  /** All pairs of a grade from `A` and a grade from `B`. */
  function Pairs(A: set<Grade>, B: set<Grade>): (r: set<(Grade, Grade)>)
    ensures forall x :: x in r <==> x.0 in A && x.1 in B
  {
    set a, b | a in A && b in B :: (a, b)
  }

  /** The grades that the pairs in `D` land on, collected one pair at a time. */
  ghost function Grades(D: set<(Grade, Grade)>): set<Grade>
    decreases D
  {
    if D == {} then {} else var x :| x in D; Grades(D - {x}) + {AddTuples(x.0, x.1)}
  }

  /** A grade is reached exactly when some pair of `D` lands on it. */
  lemma {:induction false} GradesMember(D: set<(Grade, Grade)>, g: Grade)
    ensures g in Grades(D) <==> exists x :: x in D && AddTuples(x.0, x.1) == g
    decreases D
  {
    if D != {} {
      var x :| x in D && Grades(D) == Grades(D - {x}) + {AddTuples(x.0, x.1)};
      GradesMember(D - {x}, g);
      if g in Grades(D - {x}) {
        var y :| y in D - {x} && AddTuples(y.0, y.1) == g;
        assert y in D;
      }
    }
  }

  // The grade of a pair of `D` is reached.
  lemma GradesIntro(D: set<(Grade, Grade)>, x: (Grade, Grade))
    requires x in D
    ensures AddTuples(x.0, x.1) in Grades(D)
  {
    GradesMember(D, AddTuples(x.0, x.1));
  }

  // One more pair adds its grade and nothing else.
  lemma GradesAdd(D: set<(Grade, Grade)>, x: (Grade, Grade))
    ensures Grades(D + {x}) == Grades(D) + {AddTuples(x.0, x.1)}
  {
    forall g ensures g in Grades(D + {x}) <==> g in Grades(D) + {AddTuples(x.0, x.1)} {
      GradesMember(D + {x}, g);
      GradesMember(D, g);
      if g in Grades(D + {x}) && g != AddTuples(x.0, x.1) {
        var y :| y in D + {x} && AddTuples(y.0, y.1) == g;
        assert y in D;
      }
    }
  }

  /** The pairs in `D` that land on grade `g`. */
  ghost function PairsAt(D: set<(Grade, Grade)>, g: Grade): (r: set<(Grade, Grade)>)
    ensures r <= D
    ensures forall x :: x in r <==> x in D && AddTuples(x.0, x.1) == g
  {
    set x | x in D && AddTuples(x.0, x.1) == g
  }

  /** The ring product of the pieces of `p` and `q` at every pair of grades. */
  ghost function Products(t: CT.CharacterTable, p: Module, q: Module): (r: map<(Grade, Grade), seq<int>>)
    requires CT.WellFormed(t) && IsModule(t, p) && IsModule(t, q)
    ensures r.Keys == Pairs(p.Keys, q.Keys)
    ensures forall x :: x in r ==> r[x] == CT.Multiply(t, p[x.0], q[x.1]) && |r[x]| == t.classes
  {
    map x | x in Pairs(p.Keys, q.Keys) :: CT.Multiply(t, p[x.0], q[x.1])
  }

  /** What has been accumulated once the pairs in `D` are processed: at every
      grade reached, the sum of the products of the pairs landing on it. */
  ghost function Accumulated(t: CT.CharacterTable, p: Module, q: Module, D: set<(Grade, Grade)>): (r: Module)
    requires CT.WellFormed(t) && IsModule(t, p) && IsModule(t, q)
    requires D <= Pairs(p.Keys, q.Keys)
    ensures r.Keys == Grades(D)
    ensures forall g :: g in r ==> r[g] == VecSum(t, Products(t, p, q), PairsAt(D, g))
  {
    map g | g in Grades(D) :: VecSum(t, Products(t, p, q), PairsAt(D, g))
  }

  // Grades other than the one the new pair lands on keep their sums.
  lemma AccumulateElsewhere(t: CT.CharacterTable, p: Module, q: Module, D: set<(Grade, Grade)>, a: Grade, b: Grade, h: Grade)
    requires CT.WellFormed(t) && IsModule(t, p) && IsModule(t, q)
    requires D <= Pairs(p.Keys, q.Keys) && a in p && b in q
    requires h in Grades(D) && h != AddTuples(a, b)
    ensures h in Grades(D + {(a, b)})
    ensures Accumulated(t, p, q, D + {(a, b)})[h] == Accumulated(t, p, q, D)[h]
  {
    GradesAdd(D, (a, b));
    assert PairsAt(D + {(a, b)}, h) == PairsAt(D, h);
  }

  // The grade the new pair lands on gains its product.
  lemma AccumulateHere(t: CT.CharacterTable, p: Module, q: Module, D: set<(Grade, Grade)>, a: Grade, b: Grade)
    requires CT.WellFormed(t) && IsModule(t, p) && IsModule(t, q)
    requires D <= Pairs(p.Keys, q.Keys) && a in p && b in q && (a, b) !in D
    ensures AddTuples(a, b) in Grades(D + {(a, b)})
    ensures var g := AddTuples(a, b);
            var c := CT.Multiply(t, p[a], q[b]);
            var acc := Accumulated(t, p, q, D);
            Accumulated(t, p, q, D + {(a, b)})[g] == if g in acc then CT.Add(t, acc[g], c) else c
  {
    var g := AddTuples(a, b);
    var D' := D + {(a, b)};
    GradesAdd(D, (a, b));
    assert PairsAt(D', g) - {(a, b)} == PairsAt(D, g);
    VecSumRemove(t, Products(t, p, q), PairsAt(D', g), (a, b));
    if g !in Grades(D) {
      GradesMember(D, g);
      assert PairsAt(D, g) == {};
      CT.AddZero(t, CT.Multiply(t, p[a], q[b]));
    }
  }

  /** `acc` with `c` added into grade `g`, or `g` started with `c`. */
  function Deposit(t: CT.CharacterTable, acc: Module, g: Grade, c: seq<int>): (r: Module)
    requires IsModule(t, acc) && CT.IsVector(t, c)
    ensures r.Keys == acc.Keys + {g}
    ensures forall h :: h in acc && h != g ==> r[h] == acc[h]
    ensures r[g] == if g in acc then CT.Add(t, acc[g], c) else c
  {
    if g in acc then acc[g := CT.Add(t, acc[g], c)] else acc[g := c]
  }

  // The values after one more pair, grade by grade.
  lemma AccumulateValues(t: CT.CharacterTable, p: Module, q: Module, D: set<(Grade, Grade)>, a: Grade, b: Grade)
    requires CT.WellFormed(t) && IsModule(t, p) && IsModule(t, q)
    requires D <= Pairs(p.Keys, q.Keys) && a in p && b in q && (a, b) !in D
    ensures var acc := Accumulated(t, p, q, D);
            var expected := Deposit(t, acc, AddTuples(a, b), CT.Multiply(t, p[a], q[b]));
            var acc' := Accumulated(t, p, q, D + {(a, b)});
            forall h :: h in acc' ==> h in expected && acc'[h] == expected[h]
  {
    var g := AddTuples(a, b);
    var acc' := Accumulated(t, p, q, D + {(a, b)});
    GradesAdd(D, (a, b));
    forall h | h in acc'
      ensures acc'[h] == Deposit(t, Accumulated(t, p, q, D), g, CT.Multiply(t, p[a], q[b]))[h]
    {
      if h == g {
        AccumulateHere(t, p, q, D, a, b);
      } else {
        AccumulateElsewhere(t, p, q, D, a, b, h);
      }
    }
  }

  /** Processing one more pair adds its product into the grade it lands on,
      or starts that grade with it. */
  lemma AccumulateStep(t: CT.CharacterTable, p: Module, q: Module, D: set<(Grade, Grade)>, a: Grade, b: Grade)
    requires CT.WellFormed(t) && IsModule(t, p) && IsModule(t, q)
    requires D <= Pairs(p.Keys, q.Keys) && a in p && b in q && (a, b) !in D
    ensures Accumulated(t, p, q, D + {(a, b)})
         == Deposit(t, Accumulated(t, p, q, D), AddTuples(a, b), CT.Multiply(t, p[a], q[b]))
  {
    var acc' := Accumulated(t, p, q, D + {(a, b)});
    var expected := Deposit(t, Accumulated(t, p, q, D), AddTuples(a, b), CT.Multiply(t, p[a], q[b]));
    GradesAdd(D, (a, b));
    AccumulateValues(t, p, q, D, a, b);
    assert acc'.Keys == expected.Keys;
  }

  // Bookkeeping of the pairs visited by the two loops of Multiply.
  lemma PairsNextColumn(A: set<Grade>, B: set<Grade>, a: Grade, Q: set<Grade>, b: Grade)
    requires a !in A && b in Q && Q <= B
    ensures (a, b) !in Pairs(A, B) + Pairs({a}, B - Q)
    ensures Pairs(A, B) + Pairs({a}, B - Q) + {(a, b)} == Pairs(A, B) + Pairs({a}, B - (Q - {b}))
  {
  }

  lemma PairsNextRow(P: set<Grade>, ps: set<Grade>, B: set<Grade>, a: Grade)
    requires a in ps && ps <= P
    ensures Pairs(P - ps, B) + Pairs({a}, B - {}) == Pairs(P - (ps - {a}), B)
  {
  }

  /** The convolution of `p` and `q`: at every grade reached, the sum of the
      products of all pairs of pieces whose grades add up to it. */
  ghost function Convolution(t: CT.CharacterTable, p: Module, q: Module): (r: Module)
    requires CT.WellFormed(t) && IsModule(t, p) && IsModule(t, q)
  {
    Accumulated(t, p, q, Pairs(p.Keys, q.Keys))
  }

  /** `m` without the pieces whose multiplicities sum to zero. */
  function Prune(m: Module): (r: Module)
    ensures r.Keys <= m.Keys
    ensures forall g :: g in m ==> (g in r <==> Sum(m[g]) != 0)
    ensures forall g :: g in r ==> r[g] == m[g]
  {
    map g | g in m && Sum(m[g]) != 0 :: m[g]
  }

  /** The product of two bigraded modules: their convolution with every piece
      summing to zero dropped. */
  ghost function Product(t: CT.CharacterTable, p: Module, q: Module): (r: Module)
    requires CT.WellFormed(t) && IsModule(t, p) && IsModule(t, q)
    ensures forall g :: g in r ==> exists a, b :: a in p && b in q && g == AddTuples(a, b)
    ensures forall g :: g in r ==>
      r[g] == VecSum(t, Products(t, p, q), PairsAt(Pairs(p.Keys, q.Keys), g))
    ensures forall a, b :: a in p && b in q ==>
      var g := AddTuples(a, b);
      (g in r <==> Sum(VecSum(t, Products(t, p, q), PairsAt(Pairs(p.Keys, q.Keys), g))) != 0)
    ensures forall g :: g in r ==> Sum(r[g]) != 0 && |r[g]| == t.classes
    ensures p == map[] || q == map[] ==> r == map[]
  {
    var all := Pairs(p.Keys, q.Keys);
    var r := Prune(Convolution(t, p, q));
    assert forall a, b :: a in p && b in q ==> AddTuples(a, b) in Grades(all) by {
      forall a, b | a in p && b in q
        ensures AddTuples(a, b) in Grades(all)
      {
        GradesIntro(all, (a, b));
      }
    }
    assert forall g :: g in Grades(all) ==> exists a, b :: a in p && b in q && g == AddTuples(a, b) by {
      forall g | g in Grades(all)
        ensures exists a, b :: a in p && b in q && g == AddTuples(a, b)
      {
        GradesMember(all, g);
        var x :| x in all && AddTuples(x.0, x.1) == g;
        assert x.0 in p && x.1 in q;
      }
    }
    r
  }

  /** The product of two bigraded modules (`multiply` in the source): every
      pair of pieces is multiplied in the representation ring and added into
      the sum of their grades; pieces summing to zero are then dropped. The
      maps are visited in no particular order. */
  method Multiply(t: CT.CharacterTable, p: Module, q: Module) returns (r: Module)
    requires CT.WellFormed(t) && IsModule(t, p) && IsModule(t, q)
    ensures r == Product(t, p, q)
  {
    var ret: Module := map[];
    ghost var done: set<(Grade, Grade)> := {};
    var ps := p.Keys;
    while ps != {}
      invariant ps <= p.Keys
      invariant done == Pairs(p.Keys - ps, q.Keys)
      invariant ret == Accumulated(t, p, q, done)
      decreases ps
    {
      var a :| a in ps;
      var qs := q.Keys;
      while qs != {}
        invariant qs <= q.Keys
        invariant done == Pairs(p.Keys - ps, q.Keys) + Pairs({a}, q.Keys - qs)
        invariant ret == Accumulated(t, p, q, done)
        decreases qs
      {
        var b :| b in qs;
        var grade := AddTuples(a, b);
        var coefficient := CT.Multiply(t, p[a], q[b]);
        PairsNextColumn(p.Keys - ps, q.Keys, a, qs, b);
        AccumulateStep(t, p, q, done, a, b);
        if grade in ret {
          ret := ret[grade := CT.Add(t, ret[grade], coefficient)];
        } else {
          ret := ret[grade := coefficient];
        }
        done := done + {(a, b)};
        qs := qs - {b};
      }
      PairsNextRow(p.Keys, ps, q.Keys, a);
      ps := ps - {a};
    }
    assert done == Pairs(p.Keys, q.Keys);
    assert ret == Convolution(t, p, q);
    r := Prune(ret);
  }

  /** The unit module: the trivial representation in grade (0, 0). */
  function One(t: CT.CharacterTable): (r: Module)
    requires CT.WellFormed(t)
    ensures r.Keys == {(0, 0)} && r[(0, 0)] == CT.UnitVector(t, 0)
  {
    map[(0, 0) := CT.Trivial(t)]
  }

  /** Every piece of `p` has exactly `classes` entries. */
  predicate Exact(t: CT.CharacterTable, p: Module)
  {
    forall g :: g in p ==> |p[g]| == t.classes
  }

  // Extensionality of modules.
  lemma SameMaps(m: Module, n: Module)
    requires m.Keys == n.Keys
    requires forall g :: g in n ==> m[g] == n[g]
    ensures m == n
  {
  }

  // Pairing with the origin grade alone lands every grade on itself.
  lemma PairsWithOrigin(A: set<Grade>, O: set<Grade>, g: Grade)
    requires O == {(0, 0)} && g in A
    ensures Grades(Pairs(A, O)) == A
    ensures PairsAt(Pairs(A, O), g) == {(g, (0, 0))}
  {
    var all := Pairs(A, O);
    forall h | h in A ensures h in Grades(all) {
      GradesIntro(all, (h, (0, 0)));
    }
    forall h | h in Grades(all) ensures h in A {
      GradesMember(all, h);
      var x :| x in all && AddTuples(x.0, x.1) == h;
    }
  }

  lemma OriginWithPairs(O: set<Grade>, B: set<Grade>, g: Grade)
    requires O == {(0, 0)} && g in B
    ensures Grades(Pairs(O, B)) == B
    ensures PairsAt(Pairs(O, B), g) == {((0, 0), g)}
  {
    var all := Pairs(O, B);
    forall h | h in B ensures h in Grades(all) {
      GradesIntro(all, ((0, 0), h));
    }
    forall h | h in Grades(all) ensures h in B {
      GradesMember(all, h);
      var x :| x in all && AddTuples(x.0, x.1) == h;
    }
  }

  // Nothing to convolve with.
  lemma ConvolutionWithEmpty(t: CT.CharacterTable, q: Module)
    requires CT.WellFormed(t) && IsModule(t, q)
    ensures Convolution(t, map[], q) == map[]
    ensures Convolution(t, q, map[]) == map[]
  {
    assert Pairs({}, q.Keys) == {};
    assert Pairs(q.Keys, {}) == {};
  }

  // The grades of the convolution with the unit module on the right.
  lemma ConvolutionWithOneKeys(t: CT.CharacterTable, p: Module)
    requires CT.WellFormed(t) && Exact(t, p)
    ensures Convolution(t, p, One(t)).Keys == p.Keys
  {
    if p == map[] {
      ConvolutionWithEmpty(t, One(t));
    } else {
      var g :| g in p;
      PairsWithOrigin(p.Keys, One(t).Keys, g);
    }
  }

  // The grades of the convolution with the unit module on the left.
  lemma ConvolutionOneWithKeys(t: CT.CharacterTable, p: Module)
    requires CT.WellFormed(t) && Exact(t, p)
    ensures Convolution(t, One(t), p).Keys == p.Keys
  {
    if p == map[] {
      ConvolutionWithEmpty(t, One(t));
    } else {
      var g :| g in p;
      OriginWithPairs(One(t).Keys, p.Keys, g);
    }
  }

  // One grade of the convolution with the unit module on the right.
  lemma ConvolutionWithOneAt(t: CT.CharacterTable, p: Module, g: Grade)
    requires CT.Prepared(t) && CT.Orthonormal(t) && CT.TrivialFirst(t) && Exact(t, p) && g in p
    ensures g in Convolution(t, p, One(t)) && Convolution(t, p, One(t))[g] == p[g]
  {
    CT.MultiplyTrivial(t, p[g]);
    PairsWithOrigin(p.Keys, One(t).Keys, g);
    VecSumSingleton(t, Products(t, p, One(t)), (g, (0, 0)));
  }

  // One grade of the convolution with the unit module on the left.
  lemma ConvolutionOneWithAt(t: CT.CharacterTable, p: Module, g: Grade)
    requires CT.Prepared(t) && CT.Orthonormal(t) && CT.TrivialFirst(t) && Exact(t, p) && g in p
    ensures g in Convolution(t, One(t), p) && Convolution(t, One(t), p)[g] == p[g]
  {
    CT.MultiplyTrivial(t, p[g]);
    OriginWithPairs(One(t).Keys, p.Keys, g);
    VecSumSingleton(t, Products(t, One(t), p), ((0, 0), g));
  }

  // Convolving with the unit module on the right shifts nothing and
  // multiplies every piece by the trivial representation.
  lemma ConvolutionWithOne(t: CT.CharacterTable, p: Module)
    requires CT.Prepared(t) && CT.Orthonormal(t) && CT.TrivialFirst(t) && Exact(t, p)
    ensures Convolution(t, p, One(t)) == p
  {
    ConvolutionWithOneKeys(t, p);
    ConvolutionWithOneAll(t, p);
    SameMaps(Convolution(t, p, One(t)), p);
  }

  // Every grade at once.
  lemma ConvolutionWithOneAll(t: CT.CharacterTable, p: Module)
    requires CT.Prepared(t) && CT.Orthonormal(t) && CT.TrivialFirst(t) && Exact(t, p)
    ensures forall g :: g in p ==> g in Convolution(t, p, One(t)) && Convolution(t, p, One(t))[g] == p[g]
  {
    forall g | g in p
      ensures g in Convolution(t, p, One(t)) && Convolution(t, p, One(t))[g] == p[g]
    {
      ConvolutionWithOneAt(t, p, g);
    }
  }

  // The same on the left.
  lemma ConvolutionOneWith(t: CT.CharacterTable, p: Module)
    requires CT.Prepared(t) && CT.Orthonormal(t) && CT.TrivialFirst(t) && Exact(t, p)
    ensures Convolution(t, One(t), p) == p
  {
    ConvolutionOneWithKeys(t, p);
    ConvolutionOneWithAll(t, p);
    SameMaps(Convolution(t, One(t), p), p);
  }

  // Every grade at once.
  lemma ConvolutionOneWithAll(t: CT.CharacterTable, p: Module)
    requires CT.Prepared(t) && CT.Orthonormal(t) && CT.TrivialFirst(t) && Exact(t, p)
    ensures forall g :: g in p ==> g in Convolution(t, One(t), p) && Convolution(t, One(t), p)[g] == p[g]
  {
    forall g | g in p
      ensures g in Convolution(t, One(t), p) && Convolution(t, One(t), p)[g] == p[g]
    {
      ConvolutionOneWithAt(t, p, g);
    }
  }

  /** For a prepared genuine character table, multiplying by the unit module
      on either side gives back `p` without its pieces that sum to zero. */
  lemma ProductWithOne(t: CT.CharacterTable, p: Module)
    requires CT.Prepared(t) && CT.Orthonormal(t) && CT.TrivialFirst(t) && Exact(t, p)
    ensures Product(t, p, One(t)) == Prune(p)
    ensures Product(t, One(t), p) == Prune(p)
  {
    ConvolutionWithOne(t, p);
    ConvolutionOneWith(t, p);
    ProductIsPrunedConvolution(t, p, One(t));
    ProductIsPrunedConvolution(t, One(t), p);
  }

  // The product unfolded once.
  lemma ProductIsPrunedConvolution(t: CT.CharacterTable, p: Module, q: Module)
    requires CT.WellFormed(t) && IsModule(t, p) && IsModule(t, q)
    ensures Product(t, p, q) == Prune(Convolution(t, p, q))
  {
  }

  /** The pairs of `D` with their two grades exchanged. */
  ghost function Swapped(D: set<(Grade, Grade)>): (r: set<(Grade, Grade)>)
    ensures forall x :: x in r <==> (x.1, x.0) in D
  {
    set x | x in D :: (x.1, x.0)
  }

  // A sum over pairs is unchanged when every pair is exchanged along with
  // the summand attached to it.
  lemma {:induction false} VecSumSwapped(t: CT.CharacterTable, v: map<(Grade, Grade), seq<int>>,
                                         w: map<(Grade, Grade), seq<int>>, D: set<(Grade, Grade)>)
    requires D <= v.Keys && forall x :: x in D ==> CT.IsVector(t, v[x])
    requires Swapped(D) <= w.Keys
    requires forall x :: x in D ==> w[(x.1, x.0)] == v[x]
    ensures VecSum(t, v, D) == VecSum(t, w, Swapped(D))
    decreases D
  {
    if D != {} {
      var x :| x in D;
      var y := (x.1, x.0);
      assert Swapped(D) - {y} == Swapped(D - {x});
      VecSumRemove(t, v, D, x);
      VecSumRemove(t, w, Swapped(D), y);
      VecSumSwapped(t, v, w, D - {x});
    } else {
      assert Swapped(D) == {};
    }
  }

  // Exchanging the two factors keeps the grade every pair lands on.
  lemma PairsAtSwapped(A: set<Grade>, B: set<Grade>, g: Grade)
    ensures Swapped(PairsAt(Pairs(A, B), g)) == PairsAt(Pairs(B, A), g)
  {
  }

  // Both orders reach the same grades.
  lemma GradesSwapped(A: set<Grade>, B: set<Grade>)
    ensures Grades(Pairs(A, B)) <= Grades(Pairs(B, A))
  {
    forall g | g in Grades(Pairs(A, B)) ensures g in Grades(Pairs(B, A)) {
      GradesMember(Pairs(A, B), g);
      var x :| x in Pairs(A, B) && AddTuples(x.0, x.1) == g;
      GradesIntro(Pairs(B, A), (x.1, x.0));
    }
  }

  // The pairwise products agree with their factors exchanged.
  lemma ProductsSwapped(t: CT.CharacterTable, p: Module, q: Module)
    requires CT.WellFormed(t) && CT.Symmetric(t) && IsModule(t, p) && IsModule(t, q)
    ensures forall x :: x in Pairs(p.Keys, q.Keys) ==> Products(t, q, p)[(x.1, x.0)] == Products(t, p, q)[x]
  {
    forall x | x in Pairs(p.Keys, q.Keys)
      ensures Products(t, q, p)[(x.1, x.0)] == Products(t, p, q)[x]
    {
      CT.MultiplyCommutes(t, p[x.0], q[x.1]);
    }
  }

  // One grade of the commuted convolution.
  lemma ConvolutionCommutesAt(t: CT.CharacterTable, p: Module, q: Module, g: Grade)
    requires CT.WellFormed(t) && CT.Symmetric(t) && IsModule(t, p) && IsModule(t, q)
    requires g in Grades(Pairs(p.Keys, q.Keys))
    ensures g in Grades(Pairs(q.Keys, p.Keys))
    ensures Convolution(t, q, p)[g] == Convolution(t, p, q)[g]
  {
    GradesSwapped(p.Keys, q.Keys);
    PairsAtSwapped(p.Keys, q.Keys, g);
    ProductsSwapped(t, p, q);
    VecSumSwapped(t, Products(t, p, q), Products(t, q, p), PairsAt(Pairs(p.Keys, q.Keys), g));
  }

  // With a symmetric multiplication table the convolution is commutative.
  lemma ConvolutionCommutes(t: CT.CharacterTable, p: Module, q: Module)
    requires CT.WellFormed(t) && CT.Symmetric(t) && IsModule(t, p) && IsModule(t, q)
    ensures Convolution(t, p, q) == Convolution(t, q, p)
  {
    var pq := Convolution(t, p, q);
    var qp := Convolution(t, q, p);
    GradesSwapped(p.Keys, q.Keys);
    GradesSwapped(q.Keys, p.Keys);
    assert qp.Keys == pq.Keys;
    forall g | g in pq
      ensures qp[g] == pq[g]
    {
      ConvolutionCommutesAt(t, p, q, g);
    }
    SameMaps(qp, pq);
  }

  /** With a symmetric multiplication table the product of bigraded modules
      is commutative. */
  lemma ProductCommutes(t: CT.CharacterTable, p: Module, q: Module)
    requires CT.WellFormed(t) && CT.Symmetric(t) && IsModule(t, p) && IsModule(t, q)
    ensures Product(t, p, q) == Product(t, q, p)
  {
    ConvolutionCommutes(t, p, q);
    ProductIsPrunedConvolution(t, p, q);
    ProductIsPrunedConvolution(t, q, p);
  }

  /** The outcome of an operation that rejects a negative exponent. */
  datatype Outcome<T> = Ok(value: T) | InvalidExponent

  /** The value `power` computes for exponent n >= 0: nothing for the empty
      module, the unit module for n = 0, `p` itself for n = 1, and otherwise
      the product of the (n-1)-th power with `p`. */
  ghost function PowerOf(t: CT.CharacterTable, p: Module, n: nat): (r: Module)
    requires CT.WellFormed(t) && IsModule(t, p)
    ensures IsModule(t, r)
    ensures p == map[] ==> r == map[]
    ensures p != map[] && n == 0 ==> r == map[(0, 0) := CT.Trivial(t)]
    ensures n == 1 ==> r == p
    ensures n >= 2 ==> forall g :: g in r ==> Sum(r[g]) != 0 && |r[g]| == t.classes
  {
    if p == map[] then map[]
    else if n == 0 then map[(0, 0) := CT.UnitVector(t, 0)]
    else if n == 1 then p
    else Product(t, PowerOf(t, p, n - 1), p)
  }

  /** `p` to the n-th power by repeated multiplication (`power` in the
      source); a negative exponent is an error. */
  method Power(t: CT.CharacterTable, p: Module, n: int) returns (r: Outcome<Module>)
    requires CT.WellFormed(t) && IsModule(t, p)
    ensures n < 0 <==> r == InvalidExponent
    ensures n >= 0 ==> r == Ok(PowerOf(t, p, n))
  {
    if n < 0 {
      return InvalidExponent;
    }
    if p == map[] {
      return Ok(map[]);
    }
    if n == 0 {
      return Ok(map[(0, 0) := CT.UnitVector(t, 0)]);
    }
    var ret := p;
    var k := 0;
    while k < n - 1
      invariant 0 <= k <= n - 1
      invariant ret == PowerOf(t, p, k + 1)
    {
      ret := Multiply(t, ret, p);
      k := k + 1;
    }
    return Ok(ret);
  }

  /** For a prepared genuine character table and a module with no piece
      summing to zero, the powers computed by `power` are the iterated
      products starting from the unit module: the first step from p^0 to p^1
      agrees with the others. */
  lemma PowerIsIteratedProduct(t: CT.CharacterTable, p: Module, n: nat)
    requires CT.Prepared(t) && CT.Orthonormal(t) && CT.TrivialFirst(t)
    requires Exact(t, p) && Prune(p) == p
    ensures PowerOf(t, p, n + 1) == Product(t, PowerOf(t, p, n), p)
  {
    if p != map[] && n == 0 {
      assert PowerOf(t, p, 0) == One(t);
      ProductWithOne(t, p);
    }
  }

  /** For a prepared genuine character table and a pruned `p`, multiplying a
      power by `p` on the left also gives the next power: the power law for
      one of the two exponents equal to 1. */
  lemma ProductWithPower(t: CT.CharacterTable, p: Module, n: nat)
    requires CT.Prepared(t) && CT.Orthonormal(t) && CT.TrivialFirst(t)
    requires Exact(t, p) && Prune(p) == p
    ensures Product(t, p, PowerOf(t, p, n)) == PowerOf(t, p, n + 1)
  {
    CT.PreparedIsSymmetric(t);
    PowerIsIteratedProduct(t, p, n);
    ProductCommutes(t, p, PowerOf(t, p, n));
  }
}

/** Finite integer sums over sequences, the `sum(...)` of the Python source. */
module Sums {

  /** The sum of all entries of `s`. */
  function Sum(s: seq<int>): (r: int)
  {
    if s == [] then 0 else Sum(s[..|s| - 1]) + s[|s| - 1]
  }

  /** A sum whose every entry is zero is zero. */
  lemma {:induction false} SumOfZeros(s: seq<int>)
    requires forall i :: 0 <= i < |s| ==> s[i] == 0
    ensures Sum(s) == 0
  {
    if s != [] {
      SumOfZeros(s[..|s| - 1]);
    }
  }

  /** A sum with at most one non-zero entry, at `k`, is that entry. */
  lemma {:induction false} SumOfDelta(s: seq<int>, k: nat)
    requires k < |s|
    requires forall i :: 0 <= i < |s| && i != k ==> s[i] == 0
    ensures Sum(s) == s[k]
  {
    var n := |s| - 1;
    if k == n {
      SumOfZeros(s[..n]);
    } else {
      SumOfDelta(s[..n], k);
    }
  }

  /** The sum is additive: summing a pointwise sum gives the sum of the sums. */
  lemma {:induction false} SumOfPointwiseAdd(x: seq<int>, y: seq<int>, z: seq<int>)
    requires |x| == |y| == |z|
    requires forall i :: 0 <= i < |z| ==> z[i] == x[i] + y[i]
    ensures Sum(z) == Sum(x) + Sum(y)
  {
    if z != [] {
      var n := |z| - 1;
      SumOfPointwiseAdd(x[..n], y[..n], z[..n]);
    }
  }

  /** The sum is homogeneous: scaling every entry by `c` scales the sum by `c`. */
  lemma {:induction false} SumOfScaled(x: seq<int>, z: seq<int>, c: int)
    requires |x| == |z|
    requires forall i :: 0 <= i < |z| ==> z[i] == c * x[i]
    ensures Sum(z) == c * Sum(x)
  {
    if z != [] {
      var n := |z| - 1;
      SumOfScaled(x[..n], z[..n], c);
      assert Sum(z) == c * Sum(x[..n]) + c * x[n];
    }
  }

  /** A sum of non-negative entries is zero exactly when every entry is zero. */
  lemma {:induction false} SumOfNonNegative(s: seq<int>)
    requires forall i :: 0 <= i < |s| ==> s[i] >= 0
    ensures Sum(s) >= 0
    ensures Sum(s) == 0 <==> forall i :: 0 <= i < |s| ==> s[i] == 0
  {
    if s != [] {
      var n := |s| - 1;
      SumOfNonNegative(s[..n]);
      if Sum(s) == 0 {
        forall i | 0 <= i < |s| ensures s[i] == 0 {
          if i < n {
            assert s[..n][i] == s[i];
          }
        }
      } else {
        SumOfZerosContra(s);
      }
    }
  }

  // Helper for SumOfNonNegative: all-zero entries force a zero sum.
  lemma SumOfZerosContra(s: seq<int>)
    ensures (forall i :: 0 <= i < |s| ==> s[i] == 0) ==> Sum(s) == 0
  {
    if forall i :: 0 <= i < |s| ==> s[i] == 0 {
      SumOfZeros(s);
    }
  }

  /** The matrix `m` has rows of length `n`. */
  ghost predicate Rectangular(m: seq<seq<int>>, n: nat)
  {
    forall i :: 0 <= i < |m| ==> |m[i]| == n
  }

  /** The sum of each row of `m`. */
  function RowSums(m: seq<seq<int>>): (r: seq<int>)
    ensures |r| == |m|
    ensures forall i :: 0 <= i < |m| ==> r[i] == Sum(m[i])
  {
    seq(|m|, i requires 0 <= i < |m| => Sum(m[i]))
  }

  /** Column `j` of a matrix whose rows have length `n`. */
  function Column(m: seq<seq<int>>, n: nat, j: nat): (r: seq<int>)
    requires Rectangular(m, n) && j < n
    ensures |r| == |m|
    ensures forall i :: 0 <= i < |m| ==> r[i] == m[i][j]
  {
    seq(|m|, i requires 0 <= i < |m| => m[i][j])
  }

  /** The sum of each column of a matrix whose rows have length `n`. */
  function ColumnSums(m: seq<seq<int>>, n: nat): (r: seq<int>)
    requires Rectangular(m, n)
    ensures |r| == n
    ensures forall j :: 0 <= j < n ==> r[j] == Sum(Column(m, n, j))
  {
    seq(n, j requires 0 <= j < n => Sum(Column(m, n, j)))
  }

  /** Summing a rectangular matrix row by row or column by column gives the
      same total. */
  lemma {:induction false} SumOfRowSums(m: seq<seq<int>>, n: nat)
    requires Rectangular(m, n)
    ensures Sum(RowSums(m)) == Sum(ColumnSums(m, n))
  {
    if m == [] {
      SumOfZeros(ColumnSums(m, n));
    } else {
      var k := |m| - 1;
      var top := m[..k];
      SumOfRowSums(top, n);
      assert RowSums(m)[..k] == RowSums(top);
      forall j | 0 <= j < n
        ensures ColumnSums(m, n)[j] == ColumnSums(top, n)[j] + m[k][j]
      {
        assert Column(m, n, j)[..k] == Column(top, n, j);
      }
      SumOfPointwiseAdd(ColumnSums(top, n), m[k], ColumnSums(m, n));
    }
  }
}

// Sums, dot products and element-wise reductions shared by the
// reduction and matrix-vector programs. Matrix and vector entries are
// integer-valued in every run of the programs, so they are `int` here.

module Sums {
  import opened Arith

  /** Sum of the entries of s. */
  function Sum(s: seq<int>): int
  {
    if s == [] then 0 else s[0] + Sum(s[1..])
  }

  lemma {:induction false} SumConcat(a: seq<int>, b: seq<int>)
    ensures Sum(a + b) == Sum(a) + Sum(b)
  {
    if a == [] {
      assert a + b == b;
    } else {
      assert (a + b)[1..] == a[1..] + b;
      SumConcat(a[1..], b);
    }
  }

  /** Splitting a slice of s at any point in between splits its sum. */
  lemma SumSplit(s: seq<int>, lo: nat, mid: nat, hi: nat)
    requires lo <= mid <= hi <= |s|
    ensures Sum(s[lo..hi]) == Sum(s[lo..mid]) + Sum(s[mid..hi])
  {
    assert s[lo..hi] == s[lo..mid] + s[mid..hi];
    SumConcat(s[lo..mid], s[mid..hi]);
  }

  /** 1 + 2 + ... + p, the value every reduction program checks against. */
  function Ranks(p: nat): (v: seq<int>)
    ensures |v| == p
    ensures forall r :: 0 <= r < p ==> v[r] == r + 1
  {
    seq(p, r => r + 1)
  }

  /** The sum of the initial values 1..p is p(p+1)/2 (checked by the
      reduction programs against `numero_procesos * (numero_procesos + 1) / 2.0`). */
  lemma {:induction false} RanksSum(p: nat)
    ensures Sum(Ranks(p)) * 2 == p * (p + 1)
  {
    if p > 0 {
      RanksSum(p - 1);
      assert Ranks(p) == Ranks(p - 1) + [p];
      SumConcat(Ranks(p - 1), [p]);
    }
  }

  /** Dot product of two equally long vectors, accumulated front to back
      as the `+=` loops of the programs do. */
  function Dot(u: seq<int>, v: seq<int>): int
    requires |u| == |v|
  {
    if u == [] then 0 else Dot(u[..|u| - 1], v[..|v| - 1]) + u[|u| - 1] * v[|v| - 1]
  }

  lemma {:induction false} DotConcat(u1: seq<int>, u2: seq<int>, v1: seq<int>, v2: seq<int>)
    requires |u1| == |v1| && |u2| == |v2|
    ensures Dot(u1 + u2, v1 + v2) == Dot(u1, v1) + Dot(u2, v2)
    decreases |u2|
  {
    if u2 == [] {
      assert u1 + u2 == u1 && v1 + v2 == v1;
    } else {
      var k := |u2| - 1;
      assert (u1 + u2)[..|u1| + k] == u1 + u2[..k];
      assert (v1 + v2)[..|v1| + k] == v1 + v2[..k];
      DotConcat(u1, u2[..k], v1, v2[..k]);
    }
  }

  /** Extending both vectors of a dot product by one entry adds one product. */
  lemma DotStep(u: seq<int>, v: seq<int>, j: nat)
    requires j < |u| && j < |v|
    ensures Dot(u[..j + 1], v[..j + 1]) == Dot(u[..j], v[..j]) + u[j] * v[j]
  {
    assert u[..j + 1][..j] == u[..j];
    assert v[..j + 1][..j] == v[..j];
  }

  /** Entry (i, j) of an n x n matrix stored row-major in A. */
  function Entry(A: seq<int>, n: nat, i: nat, j: nat): int
    requires |A| == n * n && i < n && j < n
  {
    FlatBounds(i, j, n, n);
    A[Flat(i, j, n)]
  }

  /** Row i of an n x n matrix stored row-major in A: a contiguous slice. */
  function Row(A: seq<int>, n: nat, i: nat): (row: seq<int>)
    requires |A| == n * n && i < n
    ensures |row| == n
    ensures forall j :: 0 <= j < n ==> row[j] == Entry(A, n, i, j)
  {
    RowEntries(i, n, n);
    A[Flat(i, 0, n)..Flat(i + 1, 0, n)]
  }

  /** The sequential product y = A x, the reference the distributed
      programs must reproduce. */
  function MatVec(A: seq<int>, x: seq<int>, n: nat): (y: seq<int>)
    requires |A| == n * n && |x| == n
    ensures |y| == n
  {
    seq(n, i requires 0 <= i < n => Dot(Row(A, n, i), x))
  }

  /** Sum over ranks of entry i of each rank's vector. */
  function ColumnSum(vs: seq<seq<int>>, i: nat): int
    requires forall k :: 0 <= k < |vs| ==> i < |vs[k]|
  {
    if vs == [] then 0 else ColumnSum(vs[..|vs| - 1], i) + vs[|vs| - 1][i]
  }

  /** What MPI_Reduce with MPI_SUM leaves at the root: the element-wise
      sum of the contributions of all ranks, in rank order. */
  function ReduceSum(vs: seq<seq<int>>, len: nat): (r: seq<int>)
    requires forall k :: 0 <= k < |vs| ==> |vs[k]| == len
    ensures |r| == len
  {
    seq(len, i requires 0 <= i < len => ColumnSum(vs, i))
  }

  /** The c-th b-long segment of u, from the start of its c-th row of b
      to the end of that row: the part of a row or vector that falls in
      block column c. */
  function Segment(u: seq<int>, c: nat, b: nat): (seg: seq<int>)
    requires Flat(c, b, b) <= |u|
    ensures |seg| == b
  {
    u[Flat(c, 0, b)..Flat(c, b, b)]
  }

  /** Extending a prefix of u and v by their k-th b-long segments adds
      the dot product of the segments. */
  lemma DotSegmentStep(u: seq<int>, v: seq<int>, k: nat, b: nat)
    requires |u| == |v| && Flat(k + 1, 0, b) <= |u|
    ensures Flat(k, b, b) == Flat(k + 1, 0, b)
    ensures Dot(u[..Flat(k + 1, 0, b)], v[..Flat(k + 1, 0, b)]) ==
      Dot(u[..Flat(k, 0, b)], v[..Flat(k, 0, b)]) + Dot(Segment(u, k, b), Segment(v, k, b))
  {
    var lo, hi := Flat(k, 0, b), Flat(k, b, b);
    assert u[..hi] == u[..lo] + u[lo..hi];
    assert v[..hi] == v[..lo] + v[lo..hi];
    DotConcat(u[..lo], u[lo..hi], v[..lo], v[lo..hi]);
  }

  /** If contribution c is the dot product of the c-th b-long segments of
      u and v, the contributions add up to the dot product of the first
      |vs| segments. This is why summing partial products over a
      partition of the columns gives the full product. */
  lemma {:induction false} ColumnSumOfSegments(vs: seq<seq<int>>, i: nat, u: seq<int>, v: seq<int>, b: nat)
    requires |u| == |v| && Flat(|vs|, 0, b) <= |u|
    requires forall c :: 0 <= c < |vs| ==> i < |vs[c]|
    requires forall c :: 0 <= c < |vs| ==>
      Flat(c, b, b) <= |u| && vs[c][i] == Dot(Segment(u, c, b), Segment(v, c, b))
    ensures ColumnSum(vs, i) == Dot(u[..Flat(|vs|, 0, b)], v[..Flat(|vs|, 0, b)])
  {
    if vs != [] {
      var k := |vs| - 1;
      var front := vs[..k];
      DotSegmentStep(u, v, k, b);
      forall c | 0 <= c < |front|
        ensures Flat(c, b, b) <= |u| && front[c][i] == Dot(Segment(u, c, b), Segment(v, c, b))
      {
        assert front[c] == vs[c];
      }
      ColumnSumOfSegments(front, i, u, v, b);
      assert ColumnSum(vs, i) == ColumnSum(front, i) + vs[k][i];
    }
  }

  /** Sequence of len zeros: a freshly resized result vector. */
  function Zeros(len: nat): (z: seq<int>)
    ensures |z| == len && forall i :: 0 <= i < len ==> z[i] == 0
  {
    seq(len, i => 0)
  }

  function Min(a: nat, b: nat): nat
  {
    if a <= b then a else b
  }

  /** Sum of the entries of v at positions lo .. lo + w - 1 that exist:
      what a rank that has combined the values of that window holds. */
  function WindowSum(v: seq<int>, lo: nat, w: nat): int
  {
    Sum(v[Min(lo, |v|)..Min(lo + w, |v|)])
  }

  /** A window of width 2w is its two halves of width w. */
  lemma WindowSumDouble(v: seq<int>, lo: nat, w: nat)
    ensures WindowSum(v, lo, 2 * w) == WindowSum(v, lo, w) + WindowSum(v, lo + w, w)
  {
    SumSplit(v, Min(lo, |v|), Min(lo + w, |v|), Min(lo + 2 * w, |v|));
  }

  /** A window of width 1 is the one entry in it. */
  lemma WindowSumOne(v: seq<int>, lo: nat)
    requires lo < |v|
    ensures WindowSum(v, lo, 1) == v[lo]
  {
    assert Min(lo, |v|) == lo && Min(lo + 1, |v|) == lo + 1;
    var one := v[lo..lo + 1];
    assert one[1..] == [];
    assert Sum(one) == one[0] + Sum(one[1..]);
  }

  /** A window starting at 0 that covers v is the whole sum. */
  lemma WindowSumWhole(v: seq<int>, w: nat)
    requires w >= |v|
    ensures WindowSum(v, 0, w) == Sum(v)
  {
    assert v[0..|v|] == v;
  }

  /** A window that starts past the end of v is empty. */
  lemma WindowSumPast(v: seq<int>, lo: nat, w: nat)
    requires lo >= |v|
    ensures WindowSum(v, lo, w) == 0
  {
  }

  /** The sum of an element-wise sum is the sum of the sums. */
  lemma {:induction false} SumPointwise(a: seq<int>, b: seq<int>, c: seq<int>)
    requires |a| == |b| == |c|
    requires forall i :: 0 <= i < |c| ==> c[i] == a[i] + b[i]
    ensures Sum(c) == Sum(a) + Sum(b)
  {
    if c != [] {
      SumPointwise(a[1..], b[1..], c[1..]);
    }
  }
}

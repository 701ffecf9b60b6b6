// Integer facts the index arithmetic of the programs relies on.
// The solver does not reason well about products and quotients of
// variables, so the row-major index is a function of its own, defined by
// counting whole rows, and every fact about it that the models use is
// proved here once, from the definition of Euclidean division.

module Arith {

  /** Row-major flat index of entry (i, j) in a matrix with `w` columns:
      the start of row i, then j more. It equals `i * w + j`
      (FlatIsProduct), the expression every program writes when it
      addresses a matrix stored in one vector. */
  function Flat(i: nat, j: nat, w: nat): nat
  {
    RowStart(i, w) + j
  }

  /** Where row i of a matrix with w columns starts: after i whole rows. */
  function RowStart(i: nat, w: nat): nat
  {
    if i == 0 then 0 else RowStart(i - 1, w) + w
  }

  lemma {:induction false} RowStartIsProduct(i: nat, w: nat)
    ensures RowStart(i, w) == i * w
  {
    if i > 0 {
      RowStartIsProduct(i - 1, w);
    }
  }

  lemma FlatIsProduct(i: nat, j: nat, w: nat)
    ensures Flat(i, j, w) == i * w + j
  {
    RowStartIsProduct(i, w);
  }

  lemma MulLe(a: int, b: int, c: nat)
    requires a <= b
    ensures a * c <= b * c
  {
  }

  lemma ProductPositive(a: nat, b: nat)
    requires a >= 1 && b >= 1
    ensures a * b >= 1
  {
    MulLe(1, a, b);
  }

  /** Stepping a multiple of d by d. */
  lemma MulSucc(q: nat, d: nat)
    ensures (q + 1) * d == q * d + d
  {
  }

  /** Quotient and remainder are determined by any decomposition
      `a == d * q + m` with `0 <= m < d`. */
  lemma DivModUnique(a: int, d: int, q: int, m: int)
    requires 0 < d && 0 <= m < d && a == d * q + m
    ensures a / d == q && a % d == m
  {
    var q', m' := a / d, a % d;
    if q < q' {
      MulLe(q + 1, q', d);
    } else if q > q' {
      MulLe(q' + 1, q, d);
    }
  }

  /** The flat index lies inside an `h x w` matrix and decomposes back
      into its row and column. */
  lemma FlatBounds(i: nat, j: nat, w: nat, h: nat)
    requires i < h && j < w
    ensures Flat(i, j, w) < Flat(h, 0, w) == h * w
    ensures Flat(i, j, w) / w == i && Flat(i, j, w) % w == j
  {
    FlatIsProduct(i, j, w);
    FlatIsProduct(h, 0, w);
    MulLe(i + 1, h, w);
    DivModUnique(Flat(i, j, w), w, i, j);
  }

  /** Rows before row h end at most at the start of row h, h * w. */
  lemma FlatRowEnd(i: nat, w: nat, h: nat)
    requires i < h
    ensures Flat(i, w, w) == Flat(i + 1, 0, w) <= Flat(h, 0, w) == h * w
  {
    FlatIsProduct(i + 1, 0, w);
    FlatIsProduct(h, 0, w);
    MulLe(i + 1, h, w);
  }

  /** Row starts grow with the row: the first h rows fill h * w entries. */
  lemma {:induction false} FlatRowStartBound(i: nat, w: nat, h: nat)
    requires i <= h
    ensures Flat(i, 0, w) <= Flat(h, 0, w) == h * w
  {
    FlatIsProduct(h, 0, w);
    if i < h {
      FlatRowEnd(i, w, h);
    }
  }

  /** Every entry of row i of an h x w matrix is inside the matrix, at
      the row's start plus its column. */
  lemma RowEntries(i: nat, w: nat, h: nat)
    requires i < h
    ensures Flat(i + 1, 0, w) <= h * w
    ensures forall j :: 0 <= j < w ==> Flat(i, j, w) < h * w && Flat(i, j, w) == Flat(i, 0, w) + j
  {
    FlatRowEnd(i, w, h);
  }

  /** Entries of the rows above row i come before the start of row i. */
  lemma FlatRowsBelow(i: nat, w: nat)
    ensures forall i', j' :: 0 <= i' < i && 0 <= j' < w ==> Flat(i', j', w) < Flat(i, 0, w)
  {
    forall i', j' | 0 <= i' < i && 0 <= j' < w
      ensures Flat(i', j', w) < Flat(i, 0, w)
    {
      FlatRowEnd(i', w, i);
    }
  }

  /** The indices the block copy loop uses, written as the programs write
      them with n = s * b and the block's first row and column top = bi * b
      and left = bj * b, are the flat index of entry (i, j) in the block
      and the two-level flat index of that entry in the n x n matrix. */
  lemma BlockSourceIndex(s: nat, b: nat, n: nat, bi: nat, bj: nat, top: nat, left: nat, i: nat, j: nat)
    requires n == s * b && top == bi * b && left == bj * b
    requires bi < s && bj < s && i < b && j < b
    ensures i * b + j == Flat(i, j, b) < b * b
    ensures (top + i) * n + (left + j) == Flat(Flat(bi, i, b), Flat(bj, j, b), n) < n * n
  {
    FlatIsProduct(i, j, b);
    FlatIsProduct(bi, i, b);
    FlatIsProduct(bj, j, b);
    FlatIsProduct(Flat(bi, i, b), Flat(bj, j, b), n);
    FlatBounds(i, j, b, b);
    FlatBounds(bi, i, b, s);
    FlatBounds(bj, j, b, s);
    FlatBounds(Flat(bi, i, b), Flat(bj, j, b), n, n);
  }

  /** Every k below q * d splits into (k / d, k % d) with k / d < q. */
  lemma DivBelow(k: nat, d: nat, q: nat)
    requires 0 < d && k < q * d
    ensures k / d < q && k == Flat(k / d, k % d, d)
  {
    FlatIsProduct(k / d, k % d, d);
    if k / d >= q {
      MulLe(q, k / d, d);
    }
  }

  /** Every k splits into its quotient row and remainder column. */
  lemma DivSplit(k: nat, d: nat)
    requires 0 < d
    ensures k % d < d && k == Flat(k / d, k % d, d)
  {
    FlatIsProduct(k / d, k % d, d);
  }

  lemma DivBound(k: nat, d: nat, q: nat)
    requires 0 < d
    ensures k < q * d ==> k / d < q
  {
    if k < q * d {
      DivBelow(k, d, q);
    }
  }

  /** k / d == q exactly when k lies in row q: [q * d, q * d + d). */
  lemma DivIs(k: nat, d: nat, q: nat)
    requires 0 < d
    ensures k / d == q <==> Flat(q, 0, d) <= k < Flat(q + 1, 0, d)
  {
    FlatIsProduct(q, 0, d);
    if q * d <= k < q * d + d {
      DivModUnique(k, d, q, k - q * d);
    }
  }

  /** Squaring is strictly monotone on naturals. */
  lemma SquareLess(a: nat, b: nat)
    requires a < b
    ensures a * a < b * b
  {
    MulLe(a, b, a);
    MulLe(a, b, b);
  }

  /** x mod 2d is x mod d, either in the low half or shifted into the high half. */
  lemma ModDouble(x: nat, d: nat)
    requires 0 < d
    ensures x % (2 * d) == x % d || x % (2 * d) == x % d + d
    ensures x % (2 * d) < d <==> (x / d) % 2 == 0
    ensures x / (2 * d) == (x / d) / 2
  {
    var q, m := x / (2 * d), x % (2 * d);
    assert x == (2 * d) * q + m;
    if m < d {
      DivModUnique(x, d, 2 * q, m);
      DivModUnique(2 * q, 2, q, 0);
    } else {
      DivModUnique(x, d, 2 * q + 1, m - d);
      DivModUnique(2 * q + 1, 2, q, 1);
    }
  }
  /** C++ `a / d` for d >= 1: the quotient truncated toward zero. Dafny's
      `/` rounds toward negative infinity instead, so the two differ for
      negative a that d does not divide. */
  function CDiv(a: int, d: int): int
    requires d >= 1
  {
    if a >= 0 then a / d else -((-a) / d)
  }

  /** C++ `a % d` for d >= 1: the remainder that goes with CDiv, which
      takes the sign of a. */
  function CRem(a: int, d: int): int
    requires d >= 1
  {
    if a >= 0 then a % d else -((-a) % d)
  }

  /** The identity C++ guarantees, `(a / d) * d + a % d == a`, with the
      remainder smaller than d in size and of the sign of a. The remainder
      is zero exactly when d divides a, and for a >= 0 both operators agree
      with Dafny's. */
  lemma CDivMod(a: int, d: int)
    requires d >= 1
    ensures CDiv(a, d) * d + CRem(a, d) == a
    ensures -d < CRem(a, d) < d
    ensures a >= 0 ==> CDiv(a, d) == a / d && CRem(a, d) == a % d
    ensures a < 0 ==> CDiv(a, d) <= 0 && CRem(a, d) <= 0
    ensures CRem(a, d) == 0 <==> a % d == 0
  {
    if a < 0 {
      var q, m := (-a) / d, (-a) % d;
      assert -a == d * q + m;
      if m == 0 {
        DivModUnique(a, d, -q, 0);
      } else if a % d == 0 {
        DivModUnique(-a, d, -(a / d), 0);
      }
    }
  }
}

// Matrix-vector product y = A x with the n columns of A split into p
// consecutive blocks of c = n / p columns (3_5_matriz_vector_columnas.cpp).
// Each rank receives its columns packed column-major, multiplies them by
// its part of the broadcast vector, and MPI_Reduce sums the n-long
// partial results at the root. The run is simulated sequentially: the
// per-rank blocks and partials are sequences indexed by rank.

module ColumnMatVec {
  import opened Arith
  import opened Sums
  import opened Outcome

  /** Entry k of the packed block of `rank`: column k / n of the block
      (global column rank * c + k / n), row k % n. */
  ghost function PackedEntry(A: seq<int>, n: nat, c: nat, rank: nat, k: nat): int
    requires |A| == n * n && Flat(rank, c, c) <= n && k < c * n
  {
    assert n > 0;
    DivBelow(k, n, c);
    FlatBounds(rank, k / n, c, rank + 1);
    Entry(A, n, k % n, Flat(rank, k / n, c))
  }

  /** The c columns rank * c .. rank * c + c - 1 of A, stored column by
      column: entry (fila, col) of the block sits at col * n + fila. */
  ghost function PackedColumns(A: seq<int>, n: nat, c: nat, rank: nat): (bloque: seq<int>)
    requires |A| == n * n && Flat(rank, c, c) <= n
    ensures |bloque| == c * n
  {
    seq(c * n, k requires 0 <= k < c * n => PackedEntry(A, n, c, rank, k))
  }

  /** The root's packing loop for the column block of `rank` (the root's
      own block is the one of rank 0, starting at column 0). */
  method PackColumns(A: seq<int>, n: nat, c: nat, rank: nat) returns (bloque: seq<int>)
    requires |A| == n * n && Flat(rank, c, c) <= n
    ensures bloque == PackedColumns(A, n, c, rank)
  {
    var columna_inicio: nat := rank * c;
    var block := new int[c * n];
    FlatRowStartBound(c, n, c);
    for col := 0 to c
      invariant PackedPrefix(block[..], A, n, c, rank, Flat(col, 0, n))
    {
      PackColumn(block, A, n, c, rank, columna_inicio, col);
    }
    bloque := block[..];
    PackedAll(bloque, A, n, c, rank);
  }

  /** The inner packing loop: column rank * c + col of A, top to bottom,
      goes to the next n entries of the block. */
  method PackColumn(block: array<int>, A: seq<int>, n: nat, c: nat, rank: nat, columna_inicio: nat, col: nat)
    requires |A| == n * n && Flat(rank, c, c) <= n && col < c && columna_inicio == rank * c
    requires PackedPrefix(block[..], A, n, c, rank, Flat(col, 0, n))
    modifies block
    ensures PackedPrefix(block[..], A, n, c, rank, Flat(col + 1, 0, n))
  {
    FlatRowEnd(col, n, c);
    for fila := 0 to n
      invariant PackedPrefix(block[..], A, n, c, rank, Flat(col, fila, n))
    {
      PackedIndex(n, c, rank, columna_inicio, col, fila);
      PackedStep(block[..], A, n, c, rank, col, fila);
      block[col * n + fila] := A[fila * n + (columna_inicio + col)];
    }
  }

  /** The first `upto` entries of `block` are those of the packed block. */
  ghost predicate PackedPrefix(block: seq<int>, A: seq<int>, n: nat, c: nat, rank: nat, upto: nat)
    requires |A| == n * n && Flat(rank, c, c) <= n
  {
    |block| == c * n && upto <= c * n &&
    forall k :: 0 <= k < upto ==> block[k] == PackedEntry(A, n, c, rank, k)
  }

  lemma PackedAll(block: seq<int>, A: seq<int>, n: nat, c: nat, rank: nat)
    requires |A| == n * n && Flat(rank, c, c) <= n
    requires PackedPrefix(block, A, n, c, rank, c * n)
    ensures block == PackedColumns(A, n, c, rank)
  {
  }

  /** Storing the entry (fila, col) extends the packed prefix by one. */
  lemma PackedStep(block: seq<int>, A: seq<int>, n: nat, c: nat, rank: nat, col: nat, fila: nat)
    requires |A| == n * n && Flat(rank, c, c) <= n && col < c && fila < n
    requires PackedPrefix(block, A, n, c, rank, Flat(col, fila, n))
    ensures Flat(col, fila, n) < c * n && Flat(fila, Flat(rank, col, c), n) < n * n
    ensures PackedPrefix(block[Flat(col, fila, n) := A[Flat(fila, Flat(rank, col, c), n)]],
                         A, n, c, rank, Flat(col, fila + 1, n))
  {
    PackedIndex(n, c, rank, rank * c, col, fila);
  }

  /** The indices the packing loop uses, written as the program writes
      them, are the column-major index of (fila, col) in the block and the
      row-major index of (fila, rank * c + col) in A. */
  lemma PackedIndex(n: nat, c: nat, rank: nat, start: nat, col: nat, fila: nat)
    requires start == rank * c && Flat(rank, c, c) <= n && col < c && fila < n
    ensures col * n + fila == Flat(col, fila, n) < c * n
    ensures Flat(col, fila, n) / n == col && Flat(col, fila, n) % n == fila
    ensures Flat(rank, col, c) < n
    ensures fila * n + (start + col) == Flat(fila, Flat(rank, col, c), n) < n * n
  {
    FlatIsProduct(col, fila, n);
    FlatBounds(col, fila, n, c);
    FlatIsProduct(rank, col, c);
    FlatIsProduct(fila, Flat(rank, col, c), n);
    FlatBounds(fila, Flat(rank, col, c), n, n);
  }

  /** Row `fila` of a packed block: entry col is the block's (fila, col). */
  function PackedRow(bloque: seq<int>, n: nat, c: nat, fila: nat): (r: seq<int>)
    requires |bloque| == c * n && fila < n
    ensures |r| == c
    ensures forall col :: 0 <= col < c ==> Flat(col, fila, n) < c * n && r[col] == bloque[Flat(col, fila, n)]
  {
    RowsFit(c, n, fila);
    seq(c, col requires 0 <= col < c => bloque[Flat(col, fila, n)])
  }

  lemma RowsFit(c: nat, n: nat, fila: nat)
    requires fila < n
    ensures forall col :: 0 <= col < c ==> Flat(col, fila, n) < c * n
  {
    forall col | 0 <= col < c
      ensures Flat(col, fila, n) < c * n
    {
      FlatBounds(col, fila, n, c);
    }
  }

  /** Row `fila` of the packed block of `rank` is the part of row fila of A
      in the rank's columns. */
  lemma PackedRowIsSegment(A: seq<int>, n: nat, c: nat, rank: nat, fila: nat)
    requires |A| == n * n && Flat(rank, c, c) <= n && fila < n
    ensures PackedRow(PackedColumns(A, n, c, rank), n, c, fila) == Segment(Row(A, n, fila), rank, c)
  {
    forall col | 0 <= col < c
      ensures PackedRow(PackedColumns(A, n, c, rank), n, c, fila)[col] == Segment(Row(A, n, fila), rank, c)[col]
    {
      PackedRowEntry(A, n, c, rank, fila, col);
    }
  }

  /** Column col of packed row fila is entry (fila, rank * c + col) of A. */
  lemma PackedRowEntry(A: seq<int>, n: nat, c: nat, rank: nat, fila: nat, col: nat)
    requires |A| == n * n && Flat(rank, c, c) <= n && fila < n && col < c
    ensures PackedRow(PackedColumns(A, n, c, rank), n, c, fila)[col] == Segment(Row(A, n, fila), rank, c)[col]
  {
    FlatBounds(col, fila, n, c);
    FlatBounds(rank, col, c, rank + 1);
  }

  /** Each rank's partial result: for every row, its columns times the
      matching entries of x, accumulated into a zeroed vector. */
  method PartialProduct(bloque: seq<int>, x: seq<int>, n: nat, c: nat, rank: nat) returns (parcial: seq<int>)
    requires |bloque| == c * n && |x| == n && Flat(rank, c, c) <= n
    ensures |parcial| == n
    ensures forall fila :: 0 <= fila < n ==>
      parcial[fila] == Dot(PackedRow(bloque, n, c, fila), Segment(x, rank, c))
  {
    var res := new int[n](_ => 0);
    for fila := 0 to n
      invariant RowsDone(res[..], bloque, Segment(x, rank, c), n, c, fila)
    {
      RowTimesSlice(res, bloque, x, n, c, rank, fila);
    }
    parcial := res[..];
  }

  /** The inner loop for row `fila`: its columns times the matching
      entries of x, accumulated into res[fila]. */
  method RowTimesSlice(res: array<int>, bloque: seq<int>, x: seq<int>, n: nat, c: nat, rank: nat, fila: nat)
    requires |bloque| == c * n && |x| == n && Flat(rank, c, c) <= n && fila < n
    requires RowsDone(res[..], bloque, Segment(x, rank, c), n, c, fila)
    modifies res
    ensures RowsDone(res[..], bloque, Segment(x, rank, c), n, c, fila + 1)
  {
    ghost var xs := Segment(x, rank, c);
    ghost var cols := PackedRow(bloque, n, c, fila);
    ghost var antes := res[..];
    for col := 0 to c
      invariant res[..] == antes[fila := res[fila]]
      invariant res[fila] == Dot(cols[..col], xs[..col])
    {
      var columna_global := rank * c + col;
      FlatIsProduct(rank, col, c);
      FlatIsProduct(col, fila, n);
      DotStep(cols, xs, col);
      res[fila] := res[fila] + bloque[col * n + fila] * x[columna_global];
    }
    assert cols[..c] == cols && xs[..c] == xs;
    RowDone(antes, bloque, xs, n, c, fila, res[fila]);
  }

  /** Rows below `fila` of the partial result are finished, the rest are
      still zero. */
  ghost predicate RowsDone(res: seq<int>, bloque: seq<int>, xs: seq<int>, n: nat, c: nat, fila: nat)
    requires |bloque| == c * n && |xs| == c
  {
    |res| == n && fila <= n &&
    (forall f :: 0 <= f < fila ==> res[f] == Dot(PackedRow(bloque, n, c, f), xs)) &&
    (forall f :: fila <= f < n ==> res[f] == 0)
  }

  lemma RowDone(res: seq<int>, bloque: seq<int>, xs: seq<int>, n: nat, c: nat, fila: nat, v: int)
    requires |bloque| == c * n && |xs| == c && fila < n
    requires RowsDone(res, bloque, xs, n, c, fila)
    requires v == Dot(PackedRow(bloque, n, c, fila), xs)
    ensures RowsDone(res[fila := v], bloque, xs, n, c, fila + 1)
  {
  }

  /** The root packs and sends the column block of every rank, its own
      (rank 0) first. */
  method DistributeColumns(A: seq<int>, n: nat, p: nat, c: nat) returns (bloques: seq<seq<int>>)
    requires p >= 1 && |A| == n * n && Flat(p, 0, c) == n
    ensures |bloques| == p
    ensures forall rank :: 0 <= rank < p ==> Flat(rank, c, c) <= n && bloques[rank] == PackedColumns(A, n, c, rank)
  {
    FlatRowStartBound(1, c, p);
    var own := PackColumns(A, n, c, 0);
    bloques := [own];
    for proceso := 1 to p
      invariant |bloques| == proceso
      invariant forall rank :: 0 <= rank < proceso ==> Flat(rank, c, c) <= n && bloques[rank] == PackedColumns(A, n, c, rank)
    {
      FlatRowStartBound(proceso + 1, c, p);
      var bloque_temp := PackColumns(A, n, c, proceso);
      bloques := bloques + [bloque_temp];
    }
  }

  /** Every rank multiplies its packed columns by its part of x. */
  method ComputePartials(bloques: seq<seq<int>>, ghost A: seq<int>, x: seq<int>, n: nat, p: nat, c: nat)
    returns (parciales: seq<seq<int>>)
    requires |A| == n * n && |x| == n && Flat(p, 0, c) == n
    requires |bloques| == p
    requires forall rank :: 0 <= rank < p ==> Flat(rank, c, c) <= n && bloques[rank] == PackedColumns(A, n, c, rank)
    ensures |parciales| == p
    ensures forall k :: 0 <= k < p ==> |parciales[k]| == n
    ensures forall k, fila :: 0 <= k < p && 0 <= fila < n ==>
      Flat(k, c, c) <= n && parciales[k][fila] == Dot(Segment(Row(A, n, fila), k, c), Segment(x, k, c))
  {
    parciales := [];
    for rank := 0 to p
      invariant |parciales| == rank
      invariant forall k :: 0 <= k < rank ==> |parciales[k]| == n
      invariant forall k, fila :: 0 <= k < rank && 0 <= fila < n ==>
        Flat(k, c, c) <= n && parciales[k][fila] == Dot(Segment(Row(A, n, fila), k, c), Segment(x, k, c))
    {
      var parcial := PartialProduct(bloques[rank], x, n, c, rank);
      forall fila | 0 <= fila < n {
        PackedRowIsSegment(A, n, c, rank, fila);
      }
      parciales := parciales + [parcial];
    }
  }

  /** Summing the partial products of the p column blocks gives A x. */
  lemma ReducedProduct(A: seq<int>, x: seq<int>, n: nat, p: nat, c: nat, parciales: seq<seq<int>>, y: seq<int>)
    requires |A| == n * n && |x| == n && Flat(p, 0, c) == n
    requires |parciales| == p
    requires forall k :: 0 <= k < p ==> |parciales[k]| == n
    requires forall k, fila :: 0 <= k < p && 0 <= fila < n ==>
      Flat(k, c, c) <= n && parciales[k][fila] == Dot(Segment(Row(A, n, fila), k, c), Segment(x, k, c))
    requires y == ReduceSum(parciales, n)
    ensures y == MatVec(A, x, n)
  {
    forall fila | 0 <= fila < n
      ensures y[fila] == MatVec(A, x, n)[fila]
    {
      ColumnSumOfSegments(parciales, fila, Row(A, n, fila), x, c);
      assert Row(A, n, fila)[..n] == Row(A, n, fila) && x[..n] == x;
    }
  }

  /** The whole program for p processes, an n x n matrix A and a vector x:
      a dimension error when p does not divide n (the C++ remainder is
      non-zero exactly then), a size error when n is a negative multiple
      of p, since the resize of the root's vector to n throws, and
      otherwise the element-wise sum of the partials, which is y = A x,
      at the root. */
  method Run(p: nat, n: int, A: seq<int>, x: seq<int>) returns (r: Result<seq<int>>)
    requires p >= 1 && (n >= 0 ==> |A| == n * n && |x| == n)
    ensures r == Err(DimensionError) <==> n % p != 0
    ensures r == Err(SizeError) <==> n < 0 && n % p == 0
    ensures r.Ok? ==> n >= 0 && r.value == MatVec(A, x, n)
  {
    CDivMod(n, p);
    if CRem(n, p) != 0 {
      return Err(DimensionError);
    }
    if n < 0 {
      return Err(SizeError);
    }
    var c: nat := n / p;
    FlatIsProduct(p, 0, c);
    var bloques := DistributeColumns(A, n, p, c);
    var parciales := ComputePartials(bloques, A, x, n, p, c);
    var y := ReduceSum(parciales, n);
    ReducedProduct(A, x, n, p, c, parciales, y);
    r := Ok(y);
  }
}

// Matrix-vector product y = A x on a square s x s grid of p = s * s
// processes, each owning one b x b block of the n x n matrix (b = n / s)
// (3_6_matriz_vector_submatrices.cpp). The run is simulated sequentially:
// per-rank state is a sequence indexed by rank, the root's sends are the
// blocks it computes, the row communicator is grouping by a computed
// key, and MPI_Reduce is an element-wise sum.

module BlockMatVec {
  import opened Arith
  import opened Sums
  import opened Outcome

  /** Integer square root: the `(int)sqrt(numero_procesos)` of the program
      taken in exact arithmetic. */
  function ISqrt(p: nat): (s: nat)
    ensures s * s <= p < (s + 1) * (s + 1)
  {
    if p == 0 then 0
    else
      var r := ISqrt(p - 1);
      SquareLess(r + 1, r + 2);
      if (r + 1) * (r + 1) <= p then r + 1 else r
  }

  /** The grid side s, or a shape error when p is not a perfect square. */
  function GridSide(p: nat): Result<nat>
  {
    var s := ISqrt(p);
    if s * s != p then Err(ShapeError) else Ok(s)
  }

  /** The shape check accepts exactly the perfect squares, and then yields
      their root. */
  lemma GridSideCorrect(p: nat, t: nat)
    ensures GridSide(p).Err? ==> GridSide(p) == Err(ShapeError) && t * t != p
    ensures GridSide(p).Ok? ==> GridSide(p).value * GridSide(p).value == p
    ensures t * t == p ==> GridSide(p) == Ok(t)
  {
    var s := ISqrt(p);
    if t * t == p {
      if s < t {
        SquareLess(s, t);
        if s + 1 < t {
          SquareLess(s + 1, t);
        }
      } else if t < s {
        SquareLess(t, s);
      }
    }
  }

  /** Grid coordinates (fila_proceso, col_proceso) of a rank. */
  function Coords(rank: nat, s: nat): (rc: (nat, nat))
    requires s >= 1
    ensures Flat(rc.0, rc.1, s) == rank && rc.1 < s
    ensures rank < s * s ==> rc.0 < s
  {
    DivSplit(rank, s);
    DivBound(rank, s, s);
    (rank / s, rank % s)
  }

  /** Coordinates and `row * s + col` are inverse bijections between the
      ranks 0..p-1 and the grid positions; the program finds the column-0
      process of row r as r * s this way. */
  lemma CoordsInverse(row: nat, col: nat, s: nat)
    requires row < s && col < s
    ensures Flat(row, col, s) < s * s
    ensures Coords(Flat(row, col, s), s) == (row, col)
  {
    FlatBounds(row, col, s, s);
  }

  /** Entry k (row-major) of block (row, col) of the (s*b) x (s*b)
      matrix A cut into b x b blocks: entry (k / b, k % b) of the block,
      which is entry (row*b + k / b, col*b + k % b) of A. */
  ghost function BlockEntry(A: seq<int>, s: nat, b: nat, row: nat, col: nat, k: nat): int
    requires |A| == (s * b) * (s * b) && row < s && col < s && k < b * b
  {
    assert b > 0;
    DivBelow(k, b, b);
    FlatBounds(row, k / b, b, s);
    FlatBounds(col, k % b, b, s);
    Entry(A, s * b, Flat(row, k / b, b), Flat(col, k % b, b))
  }

  /** Block (row, col) of A, b x b and row-major. */
  ghost function Block(A: seq<int>, s: nat, b: nat, row: nat, col: nat): (blk: seq<int>)
    requires |A| == (s * b) * (s * b) && row < s && col < s
    ensures |blk| == b * b
  {
    seq(b * b, k requires 0 <= k < b * b => BlockEntry(A, s, b, row, col, k))
  }

  /** The root's copy loop for the block of grid position (row, col). */
  method ExtractBlock(A: seq<int>, s: nat, b: nat, row: nat, col: nat) returns (submatriz: seq<int>)
    requires |A| == (s * b) * (s * b) && row < s && col < s
    ensures submatriz == Block(A, s, b, row, col)
  {
    var n := s * b;
    var fila_inicio := row * b;
    var col_inicio := col * b;
    var block := new int[b * b];
    FlatRowStartBound(b, b, b);
    for i := 0 to b
      invariant Flat(i, 0, b) <= b * b
      invariant forall k :: 0 <= k < Flat(i, 0, b) ==> block[k] == BlockEntry(A, s, b, row, col, k)
    {
      FlatRowStartBound(i + 1, b, b);
      for j := 0 to b
        invariant forall k :: 0 <= k < Flat(i, j, b) ==> block[k] == BlockEntry(A, s, b, row, col, k)
      {
        BlockSourceIndex(s, b, n, row, col, fila_inicio, col_inicio, i, j);
        FlatBounds(i, j, b, b);
        block[i * b + j] := A[(fila_inicio + i) * n + (col_inicio + j)];
      }
    }
    submatriz := block[..];
  }

  /** Row i of block (row, col) is the segment of matrix row row * b + i
      that lies in block column col. */
  lemma BlockRows(A: seq<int>, s: nat, b: nat, row: nat, col: nat, i: nat)
    requires |A| == (s * b) * (s * b) && row < s && col < s && i < b
    ensures Flat(row, i, b) < s * b && Flat(col, b, b) <= s * b
    ensures Row(Block(A, s, b, row, col), b, i) == Segment(Row(A, s * b, Flat(row, i, b)), col, b)
  {
    FlatBounds(row, i, b, s);
    FlatRowEnd(col, b, s);
    forall j | 0 <= j < b
      ensures Row(Block(A, s, b, row, col), b, i)[j] == Segment(Row(A, s * b, Flat(row, i, b)), col, b)[j]
    {
      FlatBounds(i, j, b, b);
      FlatBounds(col, j, b, s);
    }
  }

  /** The index of A the copy loops read for entry k of the block of grid
      position (row, col): (row * b + k / b) * n + (col * b + k % b). */
  function BlockSource(s: nat, b: nat, row: nat, col: nat, k: nat): nat
    requires b >= 1
  {
    Flat(Flat(row, k / b, b), Flat(col, k % b, b), s * b)
  }

  /** The block entry that index idx of A is copied to: the grid position
      of its block and its row-major place inside the block. */
  function BlockTarget(s: nat, b: nat, idx: nat): (nat, nat, nat)
    requires s >= 1 && b >= 1
  {
    ProductPositive(s, b);
    var n: nat := s * b;
    var i: nat, j: nat := idx / n, idx % n;
    var row: nat, col: nat := i / b, j / b;
    (row, col, Flat(i % b, j % b, b))
  }

  /** Every entry of every block is read from inside A, and BlockTarget
      tells which block entry it was. */
  lemma BlockSourceTarget(s: nat, b: nat, row: nat, col: nat, k: nat)
    requires b >= 1 && row < s && col < s && k < b * b
    ensures BlockSource(s, b, row, col, k) < (s * b) * (s * b)
    ensures BlockTarget(s, b, BlockSource(s, b, row, col, k)) == (row, col, k)
  {
    DivBelow(k, b, b);
    var i, j := k / b, k % b;
    FlatBounds(row, i, b, s);
    FlatBounds(col, j, b, s);
    FlatBounds(Flat(row, i, b), Flat(col, j, b), s * b, s * b);
  }

  /** Every index of A is read by exactly one block entry, the one
      BlockTarget names: together with BlockSourceTarget, the blocks of
      all p ranks cover A once. */
  lemma BlockTargetSource(s: nat, b: nat, idx: nat)
    requires b >= 1 && idx < (s * b) * (s * b)
    ensures var t := BlockTarget(s, b, idx);
      t.0 < s && t.1 < s && t.2 < b * b && BlockSource(s, b, t.0, t.1, t.2) == idx
  {
    var n := s * b;
    DivBelow(idx, n, n);
    var i, j := idx / n, idx % n;
    DivBelow(i, b, s);
    DivBelow(j, b, s);
    FlatBounds(i % b, j % b, b, b);
  }

  /** Reassembling the blocks gives back A: entry idx of A is the entry
      BlockTarget names. */
  lemma ReassembleBlocks(A: seq<int>, s: nat, b: nat, idx: nat)
    requires b >= 1 && |A| == (s * b) * (s * b) && idx < |A|
    ensures var t := BlockTarget(s, b, idx);
      t.0 < s && t.1 < s && t.2 < b * b && Block(A, s, b, t.0, t.1)[t.2] == A[idx]
  {
    BlockTargetSource(s, b, idx);
    var t := BlockTarget(s, b, idx);
    BlockSourceTarget(s, b, t.0, t.1, t.2);
  }

  /** Each rank's slice of the broadcast vector, starting at its column
      of blocks. */
  method ExtractSubvector(x: seq<int>, b: nat, col: nat) returns (subvector: seq<int>)
    requires Flat(col, b, b) <= |x|
    ensures subvector == Segment(x, col, b)
  {
    var col_inicio := col * b;
    FlatIsProduct(col, 0, b);
    var sv := new int[b];
    for i := 0 to b
      invariant forall i' :: 0 <= i' < i ==> sv[i'] == x[col_inicio + i']
    {
      sv[i] := x[col_inicio + i];
    }
    subvector := sv[..];
  }

  /** The local product, accumulated into a zeroed vector:
      entry i is the dot product of block row i with the slice. */
  method LocalMultiply(submatriz: seq<int>, subvector: seq<int>, b: nat) returns (subresultado: seq<int>)
    requires |submatriz| == b * b && |subvector| == b
    ensures |subresultado| == b
    ensures forall i :: 0 <= i < b ==> subresultado[i] == Dot(Row(submatriz, b, i), subvector)
  {
    var res := new int[b](_ => 0);
    for i := 0 to b
      invariant forall i' :: 0 <= i' < i ==> res[i'] == Dot(Row(submatriz, b, i'), subvector)
      invariant forall i' :: i <= i' < b ==> res[i'] == 0
    {
      ghost var fila := Row(submatriz, b, i);
      for j := 0 to b
        invariant forall i' :: 0 <= i' < i ==> res[i'] == Dot(Row(submatriz, b, i'), subvector)
        invariant forall i' :: i < i' < b ==> res[i'] == 0
        invariant res[i] == Dot(fila[..j], subvector[..j])
      {
        DotStep(fila, subvector, j);
        FlatIsProduct(i, j, b);
        FlatBounds(i, j, b, b);
        res[i] := res[i] + submatriz[i * b + j] * subvector[j];
      }
      assert fila[..b] == fila && subvector[..b] == subvector;
    }
    subresultado := res[..];
  }

  /** Entry i of the partial product of the process at grid position
      (row, col): its block row i, the part of matrix row row*b + i in
      block column col, times the matching segment of x. */
  ghost function Partial(A: seq<int>, x: seq<int>, s: nat, b: nat, row: nat, col: nat, i: nat): int
    requires |A| == (s * b) * (s * b) && |x| == s * b
    requires row < s && col < s && i < b
  {
    FlatBounds(row, i, b, s);
    FlatRowEnd(col, b, s);
    Dot(Segment(Row(A, s * b, Flat(row, i, b)), col, b), Segment(x, col, b))
  }

  /** Distribution: the root copies its own block (rank 0, position (0, 0))
      and then computes and sends the block of every other rank in turn. */
  method DistributeBlocks(A: seq<int>, s: nat, b: nat) returns (submatrices: seq<seq<int>>)
    requires s >= 1 && |A| == (s * b) * (s * b)
    ensures |submatrices| == s * s
    ensures forall rank :: 0 <= rank < s * s ==>
      submatrices[rank] == Block(A, s, b, Coords(rank, s).0, Coords(rank, s).1)
  {
    var p := s * s;
    MulLe(1, s, s);
    var own := ExtractBlock(A, s, b, 0, 0);
    submatrices := [own];
    for proceso := 1 to p
      invariant |submatrices| == proceso
      invariant forall rank :: 0 <= rank < proceso ==>
        submatrices[rank] == Block(A, s, b, Coords(rank, s).0, Coords(rank, s).1)
    {
      var (proc_fila, proc_col) := Coords(proceso, s);
      var temp := ExtractBlock(A, s, b, proc_fila, proc_col);
      submatrices := submatrices + [temp];
    }
  }

  /** Every rank slices the broadcast vector at its column and multiplies
      its block by the slice. */
  method ComputePartials(submatrices: seq<seq<int>>, ghost A: seq<int>, x: seq<int>, s: nat, b: nat)
    returns (subresultados: seq<seq<int>>)
    requires s >= 1 && |A| == (s * b) * (s * b) && |x| == s * b
    requires |submatrices| == s * s
    requires forall rank :: 0 <= rank < s * s ==>
      submatrices[rank] == Block(A, s, b, Coords(rank, s).0, Coords(rank, s).1)
    ensures |subresultados| == s * s
    ensures forall rank :: 0 <= rank < s * s ==> |subresultados[rank]| == b
    ensures forall rank, i :: 0 <= rank < s * s && 0 <= i < b ==>
      subresultados[rank][i] == Partial(A, x, s, b, Coords(rank, s).0, Coords(rank, s).1, i)
  {
    subresultados := [];
    for rank := 0 to s * s
      invariant |subresultados| == rank
      invariant forall r :: 0 <= r < rank ==> |subresultados[r]| == b
      invariant forall r, i :: 0 <= r < rank && 0 <= i < b ==>
        subresultados[r][i] == Partial(A, x, s, b, Coords(r, s).0, Coords(r, s).1, i)
    {
      var (fila, col) := Coords(rank, s);
      FlatRowEnd(col, b, s);
      var subvector := ExtractSubvector(x, b, col);
      var subresultado := LocalMultiply(submatrices[rank], subvector, b);
      forall i | 0 <= i < b {
        BlockRows(A, s, b, fila, col, i);
      }
      subresultados := subresultados + [subresultado];
    }
  }

  /** Members of the communicator that MPI_Comm_split gives colour `color`
      among ranks 0..m-1 when the colour of a rank is its grid row; the
      key (the grid column) grows with the rank inside a row, so ordering
      by key is ordering by rank. */
  function SplitMembers(m: nat, s: nat, color: nat): seq<nat>
    requires s >= 1
  {
    if m == 0 then []
    else SplitMembers(m - 1, s, color) + (if (m - 1) / s == color then [m - 1] else [])
  }

  lemma {:induction false} SplitMembersPrefix(m: nat, s: nat, row: nat)
    requires s >= 1
    ensures var count := if m <= Flat(row, 0, s) then 0
                         else if m >= Flat(row + 1, 0, s) then s
                         else m - Flat(row, 0, s);
      SplitMembers(m, s, row) == seq(count, c requires 0 <= c => Flat(row, c, s))
  {
    if m > 0 {
      SplitMembersPrefix(m - 1, s, row);
      DivIs(m - 1, s, row);
    }
  }

  /** Grouping the p = s * s ranks by grid row: row r's communicator holds
      the s ranks r * s + c, and the member ranked c there (its key) is the
      process at grid column c. Its root, rank 0 of the communicator, is
      the column-0 process r * s. */
  lemma RowCommunicator(s: nat, row: nat)
    requires 1 <= s && row < s
    ensures |SplitMembers(s * s, s, row)| == s
    ensures forall c :: 0 <= c < s ==>
      Flat(row, c, s) < s * s && SplitMembers(s * s, s, row)[c] == Flat(row, c, s) &&
      Coords(Flat(row, c, s), s) == (row, c)
  {
    FlatRowEnd(row, s, s);
    SplitMembersPrefix(s * s, s, row);
    forall c | 0 <= c < s
      ensures Flat(row, c, s) < s * s && Coords(Flat(row, c, s), s) == (row, c)
    {
      CoordsInverse(row, c, s);
    }
  }

  /** MPI_Reduce over each row communicator: the root of row r's group
      (grid column 0) receives the element-wise sum of its members'
      partial results; every other rank keeps its zeroed `resultado_fila`. */
  function ReduceRows(subresultados: seq<seq<int>>, s: nat, b: nat): (resultadoFila: seq<seq<int>>)
    requires s >= 1 && |subresultados| == s * s
    requires forall rank :: 0 <= rank < s * s ==> |subresultados[rank]| == b
    ensures |resultadoFila| == s * s
    ensures forall rank :: 0 <= rank < s * s ==> |resultadoFila[rank]| == b
  {
    seq(s * s, rank requires 0 <= rank < s * s =>
      var (fila, col) := Coords(rank, s);
      var miembros := SplitMembers(s * s, s, fila);
      if col == 0 then
        RowCommunicator(s, fila);
        ReduceSum(seq(|miembros|, m requires 0 <= m < |miembros| => subresultados[miembros[m]]), b)
      else Zeros(b))
  }

  /** The contributions to row r's reduction, in communicator order, are
      the partial products of the processes at grid columns 0 .. s-1. */
  lemma RowContributions(A: seq<int>, x: seq<int>, s: nat, b: nat,
                         subresultados: seq<seq<int>>, row: nat, i: nat, contribs: seq<seq<int>>)
    requires s >= 1 && |A| == (s * b) * (s * b) && |x| == s * b
    requires |subresultados| == s * s
    requires forall rank :: 0 <= rank < s * s ==> |subresultados[rank]| == b
    requires forall rank, i :: 0 <= rank < s * s && 0 <= i < b ==>
      subresultados[rank][i] == Partial(A, x, s, b, Coords(rank, s).0, Coords(rank, s).1, i)
    requires row < s && i < b && Flat(row, i, b) < s * b
    requires |contribs| == s
    requires forall c :: 0 <= c < s ==> Flat(row, c, s) < s * s && contribs[c] == subresultados[Flat(row, c, s)]
    ensures forall c :: 0 <= c < |contribs| ==>
      i < |contribs[c]| && Flat(c, b, b) <= s * b &&
      contribs[c][i] == Dot(Segment(Row(A, s * b, Flat(row, i, b)), c, b), Segment(x, c, b))
  {
    forall c | 0 <= c < |contribs|
      ensures i < |contribs[c]| && Flat(c, b, b) <= s * b
      ensures contribs[c][i] == Dot(Segment(Row(A, s * b, Flat(row, i, b)), c, b), Segment(x, c, b))
    {
      CoordsInverse(row, c, s);
      FlatRowEnd(c, b, s);
      assert contribs[c][i] == Partial(A, x, s, b, row, c, i);
    }
  }

  /** The row reduction yields, at the column-0 process of row r, entry i
      of the product A x for matrix row r * b + i. */
  lemma ReduceRowsIsProduct(A: seq<int>, x: seq<int>, s: nat, b: nat,
                            subresultados: seq<seq<int>>, row: nat, i: nat)
    requires s >= 1 && |A| == (s * b) * (s * b) && |x| == s * b
    requires |subresultados| == s * s
    requires forall rank :: 0 <= rank < s * s ==> |subresultados[rank]| == b
    requires forall rank, i :: 0 <= rank < s * s && 0 <= i < b ==>
      subresultados[rank][i] == Partial(A, x, s, b, Coords(rank, s).0, Coords(rank, s).1, i)
    requires row < s && i < b
    ensures Flat(row, 0, s) < s * s && Flat(row, i, b) < s * b
    ensures ReduceRows(subresultados, s, b)[Flat(row, 0, s)][i] == MatVec(A, x, s * b)[Flat(row, i, b)]
  {
    var n := s * b;
    CoordsInverse(row, 0, s);
    FlatBounds(row, i, b, s);
    FlatBounds(s, 0, b, s + 1);
    RowCommunicator(s, row);
    var miembros := SplitMembers(s * s, s, row);
    var contribs := seq(|miembros|, m requires 0 <= m < |miembros| => subresultados[miembros[m]]);
    var fila := Row(A, n, Flat(row, i, b));
    RowContributions(A, x, s, b, subresultados, row, i, contribs);
    ColumnSumOfSegments(contribs, i, fila, x, b);
    assert fila[..n] == fila && x[..n] == x;
  }

  /** Column-0 gather: the root copies its own row result into [0, b) and
      receives row r's result from process r * s into [r * b, r * b + b). */
  method GatherColumnZero(resultadoFila: seq<seq<int>>, s: nat, b: nat) returns (y: seq<int>)
    requires s >= 1 && |resultadoFila| == s * s
    requires forall rank :: 0 <= rank < s * s ==> |resultadoFila[rank]| == b
    ensures y == GatheredVector(resultadoFila, s, b)
  {
    var n := s * b;
    var resultado := new int[n](_ => 0);
    ReceiveRow(resultado, resultadoFila, s, b, 0, resultadoFila[0]);
    for fila := 1 to s
      invariant Gathered(resultado[..], resultadoFila, s, b, Flat(fila, 0, b))
    {
      var proceso_fuente := fila * s;
      GridRowHead(fila, s);
      ReceiveRow(resultado, resultadoFila, s, b, fila, resultadoFila[proceso_fuente]);
    }
    y := resultado[..];
    GatheredAll(y, resultadoFila, s, b);
  }

  /** The column-0 process of grid row fila is rank fila * s. */
  lemma GridRowHead(fila: nat, s: nat)
    requires fila < s
    ensures fila * s == Flat(fila, 0, s) < s * s
  {
    FlatBounds(fila, 0, s, s);
  }

  /** Copying the row result of grid row `fila` into its place
      [fila * b, fila * b + b) of the gathered vector. */
  method ReceiveRow(resultado: array<int>, resultadoFila: seq<seq<int>>, s: nat, b: nat,
                    fila: nat, parte_resultado: seq<int>)
    requires s >= 1 && |resultadoFila| == s * s
    requires forall rank :: 0 <= rank < s * s ==> |resultadoFila[rank]| == b
    requires fila < s && Flat(fila, 0, s) < s * s && parte_resultado == resultadoFila[Flat(fila, 0, s)]
    requires Gathered(resultado[..], resultadoFila, s, b, Flat(fila, 0, b))
    modifies resultado
    ensures Gathered(resultado[..], resultadoFila, s, b, Flat(fila + 1, 0, b))
  {
    FlatRowEnd(fila, b, s);
    for i := 0 to b
      invariant Gathered(resultado[..], resultadoFila, s, b, Flat(fila, i, b))
    {
      FlatIsProduct(fila, i, b);
      GatherStep(resultado[..], resultadoFila, s, b, fila, i);
      resultado[fila * b + i] := parte_resultado[i];
    }
  }

  /** Entry k of the gathered vector: entry k % b of the row result held
      by the column-0 process of grid row k / b. */
  ghost function GatherTarget(resultadoFila: seq<seq<int>>, s: nat, b: nat, k: nat): int
    requires s >= 1 && |resultadoFila| == s * s
    requires forall rank :: 0 <= rank < s * s ==> |resultadoFila[rank]| == b
    requires k < s * b
  {
    assert b > 0;
    DivBelow(k, b, s);
    FlatBounds(k / b, 0, s, s);
    resultadoFila[Flat(k / b, 0, s)][k % b]
  }

  /** The first `upto` entries of y are gathered. */
  ghost predicate Gathered(y: seq<int>, resultadoFila: seq<seq<int>>, s: nat, b: nat, upto: nat)
    requires s >= 1 && |resultadoFila| == s * s
    requires forall rank :: 0 <= rank < s * s ==> |resultadoFila[rank]| == b
  {
    |y| == s * b && upto <= s * b &&
    forall k :: 0 <= k < upto ==> y[k] == GatherTarget(resultadoFila, s, b, k)
  }

  /** Receiving entry i of row fila's result extends the gathered prefix. */
  lemma GatherStep(y: seq<int>, resultadoFila: seq<seq<int>>, s: nat, b: nat, fila: nat, i: nat)
    requires s >= 1 && |resultadoFila| == s * s
    requires forall rank :: 0 <= rank < s * s ==> |resultadoFila[rank]| == b
    requires fila < s && i < b && Gathered(y, resultadoFila, s, b, Flat(fila, i, b))
    ensures Flat(fila, i, b) < s * b && Flat(fila, 0, s) < s * s
    ensures Gathered(y[Flat(fila, i, b) := resultadoFila[Flat(fila, 0, s)][i]],
                     resultadoFila, s, b, Flat(fila, i, b) + 1)
  {
    FlatBounds(fila, i, b, s);
    FlatBounds(fila, 0, s, s);
  }

  /** The gathered vector: entry k is entry k % b of the row result
      held by the column-0 process of grid row k / b. */
  ghost function GatheredVector(resultadoFila: seq<seq<int>>, s: nat, b: nat): (y: seq<int>)
    requires s >= 1 && |resultadoFila| == s * s
    requires forall rank :: 0 <= rank < s * s ==> |resultadoFila[rank]| == b
    ensures |y| == s * b
  {
    seq(s * b, k requires 0 <= k < s * b => GatherTarget(resultadoFila, s, b, k))
  }

  lemma GatheredAll(y: seq<int>, resultadoFila: seq<seq<int>>, s: nat, b: nat)
    requires s >= 1 && |resultadoFila| == s * s
    requires forall rank :: 0 <= rank < s * s ==> |resultadoFila[rank]| == b
    requires Gathered(y, resultadoFila, s, b, Flat(s, 0, b))
    ensures y == GatheredVector(resultadoFila, s, b)
  {
    FlatIsProduct(s, 0, b);
  }

  /** What the column-0 gather collects from the row reductions is A x. */
  lemma GatheredProduct(A: seq<int>, x: seq<int>, s: nat, b: nat, subresultados: seq<seq<int>>,
                        resultadoFila: seq<seq<int>>, y: seq<int>)
    requires s >= 1 && |A| == (s * b) * (s * b) && |x| == s * b
    requires |subresultados| == s * s
    requires forall rank :: 0 <= rank < s * s ==> |subresultados[rank]| == b
    requires forall rank, i :: 0 <= rank < s * s && 0 <= i < b ==>
      subresultados[rank][i] == Partial(A, x, s, b, Coords(rank, s).0, Coords(rank, s).1, i)
    requires resultadoFila == ReduceRows(subresultados, s, b)
    requires y == GatheredVector(resultadoFila, s, b)
    ensures y == MatVec(A, x, s * b)
  {
    forall k | 0 <= k < s * b
      ensures y[k] == MatVec(A, x, s * b)[k]
    {
      GatheredEntry(A, x, s, b, subresultados, k);
    }
  }

  /** Entry k of the gathered vector is entry k of A x. */
  lemma GatheredEntry(A: seq<int>, x: seq<int>, s: nat, b: nat, subresultados: seq<seq<int>>, k: nat)
    requires s >= 1 && |A| == (s * b) * (s * b) && |x| == s * b
    requires |subresultados| == s * s
    requires forall rank :: 0 <= rank < s * s ==> |subresultados[rank]| == b
    requires forall rank, i :: 0 <= rank < s * s && 0 <= i < b ==>
      subresultados[rank][i] == Partial(A, x, s, b, Coords(rank, s).0, Coords(rank, s).1, i)
    requires k < s * b
    ensures GatheredVector(ReduceRows(subresultados, s, b), s, b)[k] == MatVec(A, x, s * b)[k]
  {
    DivBelow(k, b, s);
    ReduceRowsIsProduct(A, x, s, b, subresultados, k / b, k % b);
  }

  /** Entry idx of the root's test matrix, row-major:
      A[i][j] = (i + 1) * 10 + (j + 1) with i = idx / n and j = idx % n. */
  function TestEntry(n: nat, idx: nat): int
    requires n >= 1
  {
    (idx / n + 1) * 10 + (idx % n + 1)
  }

  /** The first `upto` entries of m are those of the test matrix. */
  ghost predicate TestPrefix(m: seq<int>, n: nat, upto: nat)
  {
    upto <= |m| && forall k :: 0 <= k < upto ==> n >= 1 && m[k] == TestEntry(n, k)
  }

  /** The root's generation loops: the matrix row by row with
      A[i][j] = (i + 1) * 10 + (j + 1), then x[i] = i + 1. */
  method GenerateTestData(n: nat) returns (A: seq<int>, x: seq<int>)
    ensures |A| == n * n && |x| == n
    ensures forall i, j :: 0 <= i < n && 0 <= j < n ==>
      Flat(i, j, n) < n * n && A[Flat(i, j, n)] == (i + 1) * 10 + (j + 1)
    ensures forall i :: 0 <= i < n ==> x[i] == i + 1
  {
    var matriz := new int[n * n];
    for i := 0 to n
      invariant TestPrefix(matriz[..], n, Flat(i, 0, n))
    {
      FlatRowEnd(i, n, n);
      for j := 0 to n
        invariant TestPrefix(matriz[..], n, Flat(i, j, n))
      {
        TestStep(matriz[..], n, i, j);
        matriz[i * n + j] := (i + 1) * 10 + (j + 1);
      }
    }
    A := matriz[..];
    TestAll(A, n);
    var vector := new int[n];
    for i := 0 to n
      invariant forall i' :: 0 <= i' < i ==> vector[i'] == i' + 1
    {
      vector[i] := i + 1;
    }
    x := vector[..];
  }

  lemma TestStep(m: seq<int>, n: nat, i: nat, j: nat)
    requires i < n && j < n && |m| == n * n && TestPrefix(m, n, Flat(i, j, n))
    ensures i * n + j == Flat(i, j, n) < n * n
    ensures TestPrefix(m[Flat(i, j, n) := (i + 1) * 10 + (j + 1)], n, Flat(i, j + 1, n))
  {
    FlatBounds(i, j, n, n);
    FlatIsProduct(i, j, n);
  }

  lemma TestAll(A: seq<int>, n: nat)
    requires |A| == n * n && TestPrefix(A, n, Flat(n, 0, n))
    ensures forall i, j :: 0 <= i < n && 0 <= j < n ==>
      Flat(i, j, n) < n * n && A[Flat(i, j, n)] == (i + 1) * 10 + (j + 1)
  {
    forall i, j | 0 <= i < n && 0 <= j < n
      ensures Flat(i, j, n) < n * n && A[Flat(i, j, n)] == (i + 1) * 10 + (j + 1)
    {
      FlatBounds(i, j, n, n);
    }
  }

  /** A dot product of length four, written out. */
  lemma Dot4(u: seq<int>, v: seq<int>)
    requires |u| == |v| == 4
    ensures Dot(u, v) == u[0] * v[0] + u[1] * v[1] + u[2] * v[2] + u[3] * v[3]
  {
    DotStep(u, v, 0);
    DotStep(u, v, 1);
    DotStep(u, v, 2);
    DotStep(u, v, 3);
    assert u[..0] == [] && v[..0] == [];
    assert u[..4] == u && v[..4] == v;
  }

  /** The product the program computes for its own test data with n = 4:
      y = [130, 230, 330, 430]. */
  lemma TestProductFour(A: seq<int>, x: seq<int>)
    requires |A| == 16 && |x| == 4
    requires forall i, j :: 0 <= i < 4 && 0 <= j < 4 ==>
      Flat(i, j, 4) < 16 && A[Flat(i, j, 4)] == (i + 1) * 10 + (j + 1)
    requires forall i :: 0 <= i < 4 ==> x[i] == i + 1
    ensures MatVec(A, x, 4) == [130, 230, 330, 430]
  {
    var y := MatVec(A, x, 4);
    forall i | 0 <= i < 4
      ensures y[i] == 100 * i + 130
    {
      var row := Row(A, 4, i);
      assert forall j :: 0 <= j < 4 ==> row[j] == (i + 1) * 10 + (j + 1);
      Dot4(row, x);
    }
    assert y[0] == 130 && y[1] == 230 && y[2] == 330 && y[3] == 430;
  }

  /** The whole program for p processes and an n x n matrix A with vector x:
      a shape error when p is not a perfect square, a dimension error when
      the grid side does not divide n (the C++ remainder is non-zero
      exactly then), a size error when n is a negative multiple of the
      grid side, since the resize of the root's vector to n throws, and
      otherwise y = A x at the root. */
  method Run(p: nat, n: int, A: seq<int>, x: seq<int>) returns (r: Result<seq<int>>)
    requires p >= 1 && (n >= 0 ==> |A| == n * n && |x| == n)
    ensures r == Err(ShapeError) <==> GridSide(p).Err?
    ensures r == Err(DimensionError) <==> GridSide(p).Ok? && n % GridSide(p).value != 0
    ensures r == Err(SizeError) <==> GridSide(p).Ok? && n < 0 && n % GridSide(p).value == 0
    ensures r.Ok? ==> n >= 0 && r.value == MatVec(A, x, n)
  {
    var sqrt_procesos := ISqrt(p);
    if sqrt_procesos * sqrt_procesos != p {
      return Err(ShapeError);
    }
    var s := sqrt_procesos;
    CDivMod(n, s);
    if CRem(n, s) != 0 {
      return Err(DimensionError);
    }
    if n < 0 {
      return Err(SizeError);
    }
    var b: nat := n / s;
    assert n == s * b;
    var submatrices := DistributeBlocks(A, s, b);
    var subresultados := ComputePartials(submatrices, A, x, s, b);
    var resultadoFila := ReduceRows(subresultados, s, b);
    var y := GatherColumnZero(resultadoFila, s, b);
    GatheredProduct(A, x, s, b, subresultados, resultadoFila, y);
    r := Ok(y);
  }
}

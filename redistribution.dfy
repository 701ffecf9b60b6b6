// Redistribution of a vector of n = p * epp elements between the block
// distribution (rank r holds elements r*epp .. r*epp + epp - 1) and the
// cyclic distribution (rank r holds elements r, r + p, r + 2p, ...), in
// both directions, through the root (3_9_costo_redistribucion.cpp).
// MPI_Gather is concatenation in rank order and MPI_Scatter cuts a
// buffer into consecutive chunks; the root's reordering loops are
// methods over arrays.

module Redistribution {
  import opened Arith
  import opened Sums
  import opened Collectives
  import opened Outcome

  /** The size adjustment: when p does not divide n, n becomes
      (n / p + 1) * p, with C++ division. */
  function RoundUp(n: int, p: nat): int
    requires p >= 1
  {
    if CRem(n, p) != 0 then (CDiv(n, p) + 1) * p else n
  }

  /** The adjusted size is a multiple of p, and it is n itself exactly
      when p already divides n. For n >= 0 it is the first multiple of p
      at or above n. For a negative n that p does not divide, the
      truncating division has already rounded up, so the `+ 1` adds one
      multiple more: the result lies strictly between n + p and n + 2p
      (n = -3 and p = 4 give 4). */
  lemma RoundUpBounds(n: int, p: nat)
    requires p >= 1
    ensures RoundUp(n, p) % p == 0
    ensures RoundUp(n, p) == n <==> n % p == 0
    ensures n >= 0 ==> n <= RoundUp(n, p) < n + p
    ensures n < 0 && n % p != 0 ==> n + p < RoundUp(n, p) < n + 2 * p
  {
    CDivMod(n, p);
    var q, m := CDiv(n, p), CRem(n, p);
    if m != 0 {
      assert RoundUp(n, p) == q * p + p == n - m + p;
      DivModUnique(RoundUp(n, p), p, q + 1, 0);
    } else {
      DivModUnique(n, p, q, 0);
    }
  }

  /** Rank `rank`'s initial block: slot i holds rank * epp + i + 1. */
  method InitBlock(rank: nat, epp: nat) returns (vector_bloques: seq<int>)
    ensures |vector_bloques| == epp
    ensures forall i :: 0 <= i < epp ==> vector_bloques[i] == Flat(rank, i, epp) + 1
  {
    var v := new int[epp];
    FlatIsProduct(rank, 0, epp);
    for i := 0 to epp
      invariant forall i' :: 0 <= i' < i ==> v[i'] == Flat(rank, i', epp) + 1
    {
      v[i] := rank * epp + i + 1;
    }
    vector_bloques := v[..];
  }

  /** Where global element i sits in the rank-ordered cyclic layout: rank
      i % p, local slot i / p, i.e. buffer position (i % p) * epp + i / p. */
  function CyclicSlot(i: nat, p: nat, epp: nat): nat
    requires p >= 1
  {
    (i % p) * epp + i / p
  }

  /** The global element stored at position k of the cyclic layout:
      local slot k % epp of rank k / epp, i.e. (k % epp) * p + k / epp. */
  function GlobalOfSlot(k: nat, p: nat, epp: nat): nat
    requires epp >= 1
  {
    (k % epp) * p + k / epp
  }

  /** CyclicSlot maps [0, p * epp) into itself and GlobalOfSlot undoes it:
      the block-to-cyclic reordering is a permutation. */
  lemma CyclicSlotInverse(i: nat, p: nat, epp: nat)
    requires p >= 1 && i < Flat(p, 0, epp)
    ensures epp >= 1
    ensures CyclicSlot(i, p, epp) == Flat(i % p, i / p, epp) < Flat(p, 0, epp)
    ensures GlobalOfSlot(CyclicSlot(i, p, epp), p, epp) == i
  {
    FlatIsProduct(p, 0, epp);
    DivBelow(i, p, epp);
    FlatIsProduct(i % p, i / p, epp);
    FlatBounds(i % p, i / p, epp, p);
    FlatIsProduct(i / p, i % p, p);
  }

  /** GlobalOfSlot maps [0, p * epp) into itself and CyclicSlot undoes it. */
  lemma GlobalOfSlotInverse(k: nat, p: nat, epp: nat)
    requires p >= 1 && k < Flat(p, 0, epp)
    ensures epp >= 1
    ensures GlobalOfSlot(k, p, epp) == Flat(k % epp, k / epp, p) < Flat(p, 0, epp)
    ensures CyclicSlot(GlobalOfSlot(k, p, epp), p, epp) == k
  {
    FlatIsProduct(p, 0, epp);
    FlatIsProduct(epp, 0, p);
    assert epp >= 1;
    CyclicSlotInverse(k, epp, p);
    assert GlobalOfSlot(k, p, epp) == CyclicSlot(k, epp, p);
  }

  /** Distinct global elements go to distinct cyclic positions. */
  lemma CyclicSlotInjective(i: nat, j: nat, p: nat, epp: nat)
    requires p >= 1 && i < Flat(p, 0, epp) && j < Flat(p, 0, epp)
    ensures CyclicSlot(i, p, epp) == CyclicSlot(j, p, epp) ==> i == j
  {
    CyclicSlotInverse(i, p, epp);
    CyclicSlotInverse(j, p, epp);
  }

  /** The gathered vector in cyclic order: position k holds the element
      whose cyclic position is k. */
  function ToCyclic(g: seq<int>, p: nat, epp: nat): (c: seq<int>)
    requires p >= 1 && |g| == Flat(p, 0, epp)
    ensures |c| == |g|
    ensures forall i :: 0 <= i < |g| ==> CyclicSlot(i, p, epp) < |g| && c[CyclicSlot(i, p, epp)] == g[i]
  {
    var c := seq(|g|, k requires 0 <= k < |g| => GlobalOfSlotBounded(g, p, epp, k));
    forall i | 0 <= i < |g|
      ensures CyclicSlot(i, p, epp) < |g| && c[CyclicSlot(i, p, epp)] == g[i]
    {
      CyclicSlotInverse(i, p, epp);
    }
    c
  }

  function GlobalOfSlotBounded(g: seq<int>, p: nat, epp: nat, k: nat): int
    requires p >= 1 && |g| == Flat(p, 0, epp) && k < |g|
  {
    GlobalOfSlotInverse(k, p, epp);
    g[GlobalOfSlot(k, p, epp)]
  }

  /** The vector back in block order: global element i is read from its
      cyclic position. */
  function ToBlock(c: seq<int>, p: nat, epp: nat): (g: seq<int>)
    requires p >= 1 && |c| == Flat(p, 0, epp)
    ensures |g| == |c|
    ensures forall i :: 0 <= i < |c| ==> CyclicSlot(i, p, epp) < |c| && g[i] == c[CyclicSlot(i, p, epp)]
  {
    var g := seq(|c|, i requires 0 <= i < |c| => CyclicSlotBounded(c, p, epp, i));
    forall i | 0 <= i < |c|
      ensures CyclicSlot(i, p, epp) < |c| && g[i] == c[CyclicSlot(i, p, epp)]
    {
      CyclicSlotInverse(i, p, epp);
    }
    g
  }

  function CyclicSlotBounded(c: seq<int>, p: nat, epp: nat, i: nat): (v: int)
    requires p >= 1 && |c| == Flat(p, 0, epp) && i < |c|
    ensures CyclicSlot(i, p, epp) < |c| && v == c[CyclicSlot(i, p, epp)]
  {
    CyclicSlotInverse(i, p, epp);
    c[CyclicSlot(i, p, epp)]
  }

  /** The two reorderings are mutual inverses. */
  lemma ToBlockToCyclic(g: seq<int>, p: nat, epp: nat)
    requires p >= 1 && |g| == Flat(p, 0, epp)
    ensures ToBlock(ToCyclic(g, p, epp), p, epp) == g
  {
  }

  lemma ToCyclicToBlock(c: seq<int>, p: nat, epp: nat)
    requires p >= 1 && |c| == Flat(p, 0, epp)
    ensures ToCyclic(ToBlock(c, p, epp), p, epp) == c
  {
    var r := ToCyclic(ToBlock(c, p, epp), p, epp);
    forall k | 0 <= k < |c|
      ensures r[k] == c[k]
    {
      GlobalOfSlotInverse(k, p, epp);
      CyclicSlotInverse(GlobalOfSlot(k, p, epp), p, epp);
    }
  }

  /** The root's block-to-cyclic loop: element i of the gathered vector is
      written at position (i % p) * epp + i / p of the send buffer. */
  method BlockToCyclic(buffer_recepcion: seq<int>, p: nat, epp: nat) returns (buffer_envio: seq<int>)
    requires p >= 1 && |buffer_recepcion| == Flat(p, 0, epp)
    ensures buffer_envio == ToCyclic(buffer_recepcion, p, epp)
  {
    var n := |buffer_recepcion|;
    var envio := new int[n];
    for i := 0 to n
      invariant forall i' :: 0 <= i' < i ==> CyclicSlot(i', p, epp) < n && envio[CyclicSlot(i', p, epp)] == buffer_recepcion[i']
    {
      var proceso_destino := i % p;
      var indice_local := i / p;
      CyclicSlotInverse(i, p, epp);
      forall i' | 0 <= i' < i
        ensures CyclicSlot(i', p, epp) != CyclicSlot(i, p, epp)
      {
        CyclicSlotInjective(i', i, p, epp);
      }
      envio[proceso_destino * epp + indice_local] := buffer_recepcion[i];
    }
    buffer_envio := envio[..];
    forall k | 0 <= k < n
      ensures buffer_envio[k] == ToCyclic(buffer_recepcion, p, epp)[k]
    {
      GlobalOfSlotInverse(k, p, epp);
    }
  }

  /** The root's cyclic-to-block loop: position proc * epp + i of the send
      buffer, global element g = proc * epp + i, is read from position
      (g % p) * epp + g / p of the gathered vector. */
  method CyclicToBlock(buffer_recepcion: seq<int>, p: nat, epp: nat) returns (buffer_envio: seq<int>)
    requires p >= 1 && |buffer_recepcion| == Flat(p, 0, epp)
    ensures buffer_envio == ToBlock(buffer_recepcion, p, epp)
  {
    var n := |buffer_recepcion|;
    var envio := new int[n];
    FlatRowStartBound(p, epp, p);
    for proc := 0 to p
      invariant Flat(proc, 0, epp) <= n
      invariant forall g :: 0 <= g < Flat(proc, 0, epp) ==> envio[g] == ToBlock(buffer_recepcion, p, epp)[g]
    {
      FlatRowEnd(proc, epp, p);
      for i := 0 to epp
        invariant forall g :: 0 <= g < Flat(proc, i, epp) ==> envio[g] == ToBlock(buffer_recepcion, p, epp)[g]
      {
        FlatIsProduct(proc, i, epp);
        var indice_global := proc * epp + i;
        var indice_ciclico := (indice_global % p) * epp + (indice_global / p);
        CyclicSlotInverse(indice_global, p, epp);
        envio[proc * epp + i] := buffer_recepcion[indice_ciclico];
      }
    }
    buffer_envio := envio[..];
  }

  /** Block to cyclic and back for arbitrary block contents: after the
      first redistribution rank r's slot l holds global element l * p + r,
      and after the second every rank has its original block again. */
  method Redistribute(vector_bloques: seq<seq<int>>, p: nat, epp: nat)
    returns (vector_ciclico: seq<seq<int>>, restaurados: seq<seq<int>>)
    requires p >= 1 && |vector_bloques| == p
    requires forall r :: 0 <= r < p ==> |vector_bloques[r]| == epp
    ensures |vector_ciclico| == p
    ensures forall r :: 0 <= r < p ==> |vector_ciclico[r]| == epp
    ensures forall r, l :: 0 <= r < p && 0 <= l < epp ==>
      Flat(l, r, p) < Flat(p, 0, epp) &&
      vector_ciclico[r][l] == Gather(vector_bloques, epp)[Flat(l, r, p)]
    ensures restaurados == vector_bloques
  {
    // block to cyclic
    var recepcion := Gather(vector_bloques, epp);
    var envio := BlockToCyclic(recepcion, p, epp);
    vector_ciclico := Scatter(envio, p, epp);
    forall r, l | 0 <= r < p && 0 <= l < epp
      ensures Flat(l, r, p) < Flat(p, 0, epp) && vector_ciclico[r][l] == recepcion[Flat(l, r, p)]
    {
      CyclicElement(p, epp, r, l);
    }
    // cyclic to block
    var recepcion2 := Gather(vector_ciclico, epp);
    GatherScatter(envio, p, epp);
    var envio2 := CyclicToBlock(recepcion2, p, epp);
    ToBlockToCyclic(recepcion, p, epp);
    restaurados := Scatter(envio2, p, epp);
    ScatterGather(vector_bloques, epp);
  }

  /** Slot l of rank r in the cyclic layout is global element l * p + r. */
  lemma CyclicElement(p: nat, epp: nat, r: nat, l: nat)
    requires p >= 1 && r < p && l < epp
    ensures Flat(l, r, p) < Flat(p, 0, epp)
    ensures CyclicSlot(Flat(l, r, p), p, epp) == Flat(r, l, epp)
  {
    FlatBounds(l, r, p, epp);
    FlatIsProduct(r, l, epp);
    FlatIsProduct(p, 0, epp);
    FlatIsProduct(epp, 0, p);
  }

  /** What a run that does not stop leaves behind: the adjusted size,
      the initial blocks, the cyclic slots and the restored blocks, each
      indexed by rank. */
  datatype Distributions = Distributions(
    n: nat, vector_bloques: seq<seq<int>>, vector_ciclico: seq<seq<int>>, restaurados: seq<seq<int>>)

  /** The program: size adjustment, the blocks initialised to their global
      positions plus one, and the two redistributions. An adjusted size
      below zero makes elementos_por_proceso negative and the resize of
      the block buffer throws. Otherwise rank r's cyclic slot l ends up
      holding l * p + r + 1, and the restored blocks equal the initial
      ones. */
  method Run(p: nat, nRequested: int) returns (res: Result<Distributions>)
    requires p >= 1
    ensures res.Err? <==> RoundUp(nRequested, p) < 0
    ensures res.Err? ==> res.error == SizeError
    ensures res.Ok? ==>
      var d := res.value;
      var epp := d.n / p;
      d.n == RoundUp(nRequested, p) && d.n % p == 0 &&
      |d.vector_bloques| == p && |d.vector_ciclico| == p &&
      (forall r :: 0 <= r < p ==> |d.vector_bloques[r]| == epp && |d.vector_ciclico[r]| == epp) &&
      (forall r, i :: 0 <= r < p && 0 <= i < epp ==> d.vector_bloques[r][i] == Flat(r, i, epp) + 1) &&
      (forall r, l :: 0 <= r < p && 0 <= l < epp ==> d.vector_ciclico[r][l] == Flat(l, r, p) + 1) &&
      d.restaurados == d.vector_bloques
  {
    var n_vector := nRequested;
    if CRem(n_vector, p) != 0 {
      n_vector := (CDiv(n_vector, p) + 1) * p;
    }
    RoundUpBounds(nRequested, p);
    CDivMod(n_vector, p);
    var elementos_por_proceso := CDiv(n_vector, p);
    if elementos_por_proceso < 0 {
      return Err(SizeError);
    }
    var n: nat := n_vector;
    var epp: nat := elementos_por_proceso;
    assert epp == n / p;
    var vector_bloques := [];
    for rank := 0 to p
      invariant |vector_bloques| == rank
      invariant forall r :: 0 <= r < rank ==> |vector_bloques[r]| == epp
      invariant forall r, i :: 0 <= r < rank && 0 <= i < epp ==> vector_bloques[r][i] == Flat(r, i, epp) + 1
    {
      var bloque := InitBlock(rank, epp);
      ghost var before := vector_bloques;
      vector_bloques := vector_bloques + [bloque];
      assert forall r :: 0 <= r < rank ==> vector_bloques[r] == before[r];
    }
    var vector_ciclico, restaurados := Redistribute(vector_bloques, p, epp);
    GatherPositions(vector_bloques, epp);
    res := Ok(Distributions(n, vector_bloques, vector_ciclico, restaurados));
  }

  /** Blocks initialised to their global positions plus one gather into
      the vector 1, 2, ..., |chunks| * epp. */
  lemma GatherPositions(chunks: seq<seq<int>>, epp: nat)
    requires forall r :: 0 <= r < |chunks| ==> |chunks[r]| == epp
    requires forall r, i :: 0 <= r < |chunks| && 0 <= i < epp ==> chunks[r][i] == Flat(r, i, epp) + 1
    ensures forall k :: 0 <= k < |Gather(chunks, epp)| ==> Gather(chunks, epp)[k] == k + 1
  {
    var g := Gather(chunks, epp);
    forall k | 0 <= k < |g|
      ensures g[k] == k + 1
    {
      FlatIsProduct(|chunks|, 0, epp);
      DivBelow(k, epp, |chunks|);
    }
  }
}

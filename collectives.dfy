// The collective operations the programs use to move vectors between the
// root and the ranks, on values: MPI_Gather concatenates equally long
// per-rank chunks in rank order, MPI_Scatter cuts a buffer into
// consecutive equal chunks, one per rank.

module Collectives {
  import opened Arith
  import opened Sums

  /** MPI_Gather: the chunks of all ranks, each epp long, concatenated in
      rank order; slot i of rank r lands at r * epp + i. */
  function Gather(chunks: seq<seq<int>>, epp: nat): (g: seq<int>)
    requires forall r :: 0 <= r < |chunks| ==> |chunks[r]| == epp
    ensures |g| == Flat(|chunks|, 0, epp)
    ensures forall r, i :: 0 <= r < |chunks| && 0 <= i < epp ==>
      Flat(r, i, epp) < |g| && g[Flat(r, i, epp)] == chunks[r][i]
  {
    if chunks == [] then []
    else
      var k := |chunks| - 1;
      FlatRowsBelow(k, epp);
      Gather(chunks[..k], epp) + chunks[k]
  }

  /** MPI_Scatter: chunk r of a buffer of p * epp elements is
      buf[r * epp .. r * epp + epp). */
  function Scatter(buf: seq<int>, p: nat, epp: nat): (chunks: seq<seq<int>>)
    requires |buf| == Flat(p, 0, epp)
    ensures |chunks| == p
    ensures forall r :: 0 <= r < p ==> |chunks[r]| == epp
    ensures forall r, i :: 0 <= r < p && 0 <= i < epp ==>
      Flat(r, i, epp) < |buf| && chunks[r][i] == buf[Flat(r, i, epp)]
  {
    FlatRowsBelow(p, epp);
    seq(p, r requires 0 <= r < p => Chunk(buf, p, epp, r))
  }

  /** Chunk r of the buffer. */
  function Chunk(buf: seq<int>, p: nat, epp: nat, r: nat): (chunk: seq<int>)
    requires |buf| == Flat(p, 0, epp) && r < p
    ensures |chunk| == epp
    ensures forall i :: 0 <= i < epp ==> Flat(r, i, epp) < |buf| && chunk[i] == buf[Flat(r, i, epp)]
  {
    FlatRowEnd(r, epp, p);
    Segment(buf, r, epp)
  }

  /** Scattering what was gathered gives every rank its chunk back. */
  lemma ScatterGather(chunks: seq<seq<int>>, epp: nat)
    requires forall r :: 0 <= r < |chunks| ==> |chunks[r]| == epp
    ensures Scatter(Gather(chunks, epp), |chunks|, epp) == chunks
  {
    var back := Scatter(Gather(chunks, epp), |chunks|, epp);
    forall r | 0 <= r < |chunks|
      ensures back[r] == chunks[r]
    {
    }
  }

  /** Gathering what was scattered rebuilds the buffer. */
  lemma GatherScatter(buf: seq<int>, p: nat, epp: nat)
    requires |buf| == Flat(p, 0, epp)
    ensures Gather(Scatter(buf, p, epp), epp) == buf
  {
    var chunks := Scatter(buf, p, epp);
    var g := Gather(chunks, epp);
    FlatIsProduct(p, 0, epp);
    forall k | 0 <= k < |buf|
      ensures g[k] == buf[k]
    {
      DivBelow(k, epp, p);
      var r, i := k / epp, k % epp;
      assert g[Flat(r, i, epp)] == chunks[r][i] == buf[Flat(r, i, epp)];
    }
  }
}

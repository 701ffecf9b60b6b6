// Tree reduction of the values 1..p onto rank 0 (3_3_suma_arbol.cpp).
// Each rank runs its own loop of rounds; here the rounds are simulated
// in lock step over arrays indexed by rank: `suma` holds every rank's
// suma_parcial, `envios` counts the messages each rank has sent and
// `activo` records which ranks have not yet left their loop with `break`.
// What a rank does in a round is its Role; a receive takes the value its
// partner holds at the start of the round, which in-place updates in rank
// order preserve because in every round the source of a receive is a
// higher rank that does not change in that round.

module TreeSum {
  import opened Arith
  import opened Sums
  import opened Bits

  /** What one rank does in one round. */
  datatype Role = Receive(from: nat) | Send(to: nat) | Wait

  /** The power-of-two branch: in the round with step paso a rank that is
      a multiple of 2 * paso receives from rank + paso when that rank
      exists; a rank paso past such a multiple sends to rank - paso and
      leaves the loop. */
  function TreeRole(rank: nat, paso: nat, p: nat): Role
    requires paso >= 1
  {
    if rank % (2 * paso) == 0 then
      (if rank + paso < p then Receive(rank + paso) else Wait)
    else if rank >= paso && rank % (2 * paso) == paso then Send(rank - paso)
    else Wait
  }

  /** Among the ranks still in the loop (the multiples of paso), every
      send is received by its destination and every receive is answered
      by a send from its source in the same round; the ranks that send
      are exactly those that are not multiples of 2 * paso. */
  lemma TreeRolesMatch(rank: nat, paso: nat, p: nat)
    requires paso >= 1 && rank < p && rank % paso == 0
    ensures TreeRole(rank, paso, p).Send? ==>
      var d := TreeRole(rank, paso, p).to;
      d < p && d % paso == 0 && TreeRole(d, paso, p) == Receive(rank)
    ensures TreeRole(rank, paso, p).Receive? ==>
      var f := TreeRole(rank, paso, p).from;
      rank < f < p && f % paso == 0 && TreeRole(f, paso, p) == Send(rank)
    ensures TreeRole(rank, paso, p).Send? <==> rank % (2 * paso) != 0
  {
    ModDouble(rank, paso);
    if rank % (2 * paso) == 0 {
      ReceiverRole(rank, paso, p);
    } else {
      SenderRole(rank, paso, p);
    }
  }

  /** A multiple of 2 * paso receives from rank + paso, which sends to it. */
  lemma ReceiverRole(rank: nat, paso: nat, p: nat)
    requires paso >= 1 && rank < p && rank % (2 * paso) == 0
    ensures TreeRole(rank, paso, p) == if rank + paso < p then Receive(rank + paso) else Wait
    ensures rank + paso < p ==> (rank + paso) % paso == 0 && TreeRole(rank + paso, paso, p) == Send(rank)
  {
    var q := rank / (2 * paso);
    DivModUnique(rank, 2 * paso, q, 0);
    assert rank + paso == (2 * paso) * q + paso == paso * (2 * q + 1);
    DivModUnique(rank + paso, 2 * paso, q, paso);
    DivModUnique(rank + paso, paso, 2 * q + 1, 0);
  }

  /** A rank paso past a multiple of 2 * paso sends to rank - paso, which
      receives from it. */
  lemma SenderRole(rank: nat, paso: nat, p: nat)
    requires paso >= 1 && rank < p && rank % (2 * paso) == paso
    ensures rank >= paso && TreeRole(rank, paso, p) == Send(rank - paso)
    ensures (rank - paso) % paso == 0 && TreeRole(rank - paso, paso, p) == Receive(rank)
  {
    var q := rank / (2 * paso);
    DivModUnique(rank, 2 * paso, q, paso);
    assert rank - paso == (2 * paso) * q == paso * (2 * q);
    DivModUnique(rank - paso, 2 * paso, q, 0);
    DivModUnique(rank - paso, paso, 2 * q, 0);
  }

  /** The power-of-two branch for arbitrary initial values, one per rank:
      rank 0 ends with the sum of all of them, it never sends, and every
      other rank sends exactly once. The loop runs for the smallest
      rondas with 2^rondas >= p. */
  method PowerOfTwoRounds(valores: seq<int>) returns (suma: seq<int>, envios: seq<nat>, rondas: nat)
    requires |valores| >= 1
    ensures |suma| == |valores| && |envios| == |valores|
    ensures suma[0] == Sum(valores)
    ensures envios[0] == 0 && forall r :: 0 < r < |valores| ==> envios[r] == 1
    ensures |valores| <= Pow2(rondas) && (rondas > 0 ==> Pow2(rondas - 1) < |valores|)
  {
    var p := |valores|;
    var s := new int[p](r requires 0 <= r < p => valores[r]);
    var env := new nat[p](r => 0);
    var activo := new bool[p](r => true);
    forall u | 0 <= u < p
      ensures u % 1 == 0 && s[u] == WindowSum(valores, u, 1)
    {
      WindowSumOne(valores, u);
    }
    var paso := 1;
    rondas := 0;
    while paso < p
      invariant paso == Pow2(rondas)
      invariant rondas > 0 ==> Pow2(rondas - 1) < p
      invariant forall u :: 0 <= u < p ==> (activo[u] <==> u % paso == 0)
      invariant forall u :: 0 <= u < p && u % paso == 0 ==> s[u] == WindowSum(valores, u, paso)
      invariant forall u :: 0 <= u < p ==> env[u] == if u % paso == 0 then 0 else 1
      decreases p - paso
    {
      TreeRound(valores, s, env, activo, paso);
      paso := 2 * paso;
      rondas := rondas + 1;
    }
    WindowSumWhole(valores, paso);
    forall u | 0 < u < p
      ensures env[u] == 1
    {
      DivModUnique(u, paso, 0, u);
    }
    suma, envios := s[..], env[..];
  }

  /** One round of the power-of-two branch, in place: every rank still in
      its loop acts on its TreeRole. The ranks that stay are the multiples
      of 2 * paso, and each holds the sum of the initial values in its
      window of width 2 * paso. */
  method TreeRound(valores: seq<int>, s: array<int>, env: array<nat>, activo: array<bool>, paso: nat)
    requires paso >= 1 && s.Length == env.Length == activo.Length == |valores|
    requires forall u :: 0 <= u < |valores| ==> (activo[u] <==> u % paso == 0)
    requires forall u :: 0 <= u < |valores| && u % paso == 0 ==> s[u] == WindowSum(valores, u, paso)
    requires forall u :: 0 <= u < |valores| ==> env[u] == if u % paso == 0 then 0 else 1
    modifies s, env, activo
    ensures forall u :: 0 <= u < |valores| ==> (activo[u] <==> u % (2 * paso) == 0)
    ensures forall u :: 0 <= u < |valores| && u % (2 * paso) == 0 ==> s[u] == WindowSum(valores, u, 2 * paso)
    ensures forall u :: 0 <= u < |valores| ==> env[u] == if u % (2 * paso) == 0 then 0 else 1
  {
    var p := |valores|;
    for r := 0 to p
      invariant forall u :: 0 <= u < r ==> (activo[u] <==> u % (2 * paso) == 0)
      invariant forall u :: r <= u < p ==> (activo[u] <==> u % paso == 0)
      invariant forall u :: 0 <= u < r && u % (2 * paso) == 0 ==> s[u] == WindowSum(valores, u, 2 * paso)
      invariant forall u :: r <= u < p && u % paso == 0 ==> s[u] == WindowSum(valores, u, paso)
      invariant forall u :: 0 <= u < r ==> env[u] == if u % (2 * paso) == 0 then 0 else 1
      invariant forall u :: r <= u < p ==> env[u] == if u % paso == 0 then 0 else 1
    {
      ModDouble(r, paso);
      if activo[r] {
        TreeRolesMatch(r, paso, p);
        WindowSumDouble(valores, r, paso);
        match TreeRole(r, paso, p)
        case Receive(fuente) =>
          s[r] := s[r] + s[fuente];
        case Send(destino) =>
          env[r] := env[r] + 1;
          activo[r] := false;
        case Wait =>
          WindowSumPast(valores, r + paso, paso);
      }
    }
  }

  /** The general branch as written: with mitad = procesos_activos / 2,
      ranks below mitad receive from rank + mitad and ranks from mitad to
      procesos_activos - 1 send to rank - mitad. */
  function AsWrittenRole(v: nat, procesos_activos: nat): Role
  {
    var mitad := procesos_activos / 2;
    if v < mitad then
      (if v + mitad < procesos_activos then Receive(v + mitad) else Wait)
    else if v < procesos_activos then Send(v - mitad)
    else Wait
  }

  /** For an odd number of active ranks the highest one sends to rank
      mitad, which in the same round sends to rank 0 and leaves the loop,
      so the message is never received even when every rank is still in
      its loop; with procesos_activos = 3 rank 2 sends to rank 1 while
      rank 1 sends to rank 0. */
  lemma AsWrittenLostMessage(procesos_activos: nat)
    requires procesos_activos >= 3 && procesos_activos % 2 == 1
    ensures var mitad := procesos_activos / 2;
      AsWrittenRole(procesos_activos - 1, procesos_activos) == Send(mitad) &&
      AsWrittenRole(mitad, procesos_activos) == Send(0)
    ensures SendLost(seq(procesos_activos, _ => true), procesos_activos, procesos_activos - 1)
  {
  }

  /** And the round after: with 3 processes the count becomes
      1 + 3 % 2 = 2, and rank 0 then waits for rank 1, which has already
      left the loop. */
  lemma AsWrittenThreeProcesses()
    ensures AsWrittenRole(1, 3) == Send(0) && AsWrittenRole(2, 3) == Send(1)
    ensures 3 / 2 + 3 % 2 == 2 && AsWrittenRole(0, 2) == Receive(1)
  {
  }

  /** A message from f reaches v in a round of the general branch as
      written when both are still in their loops, f's role is to send to v
      and v's role is to receive from f. */
  predicate Delivered(enLazo: seq<bool>, procesos_activos: nat, f: nat, v: nat)
  {
    f < |enLazo| && v < |enLazo| && enLazo[f] && enLazo[v] &&
    AsWrittenRole(f, procesos_activos) == Send(v) && AsWrittenRole(v, procesos_activos) == Receive(f)
  }

  /** Rank v, still in its loop, sends a message that no rank receives. */
  predicate SendLost(enLazo: seq<bool>, procesos_activos: nat, v: nat)
  {
    v < |enLazo| && enLazo[v] && AsWrittenRole(v, procesos_activos).Send? &&
    !Delivered(enLazo, procesos_activos, v, AsWrittenRole(v, procesos_activos).to)
  }

  /** Rank v, still in its loop, posts a receive that no rank answers, so
      it waits for ever. */
  predicate ReceiveBlocks(enLazo: seq<bool>, procesos_activos: nat, v: nat)
  {
    v < |enLazo| && enLazo[v] && AsWrittenRole(v, procesos_activos).Receive? &&
    !Delivered(enLazo, procesos_activos, AsWrittenRole(v, procesos_activos).from, v)
  }

  /** One round of the general branch as written, over all ranks at once:
      `suma` holds every rank's suma_parcial and `enLazo` whether the rank
      is still in its loop. A rank adds what it is delivered, and a rank
      that sends leaves its loop with `break`. */
  function AsWrittenRound(suma: seq<int>, enLazo: seq<bool>, procesos_activos: nat): (r: (seq<int>, seq<bool>))
    requires |suma| == |enLazo|
    ensures |r.0| == |suma| && |r.1| == |suma|
    ensures forall v :: 0 <= v < |suma| && !enLazo[v] ==> r.0[v] == suma[v] && !r.1[v]
  {
    (seq(|suma|, v requires 0 <= v < |suma| =>
       var role := AsWrittenRole(v, procesos_activos);
       if role.Receive? && Delivered(enLazo, procesos_activos, role.from, v)
       then suma[v] + suma[role.from] else suma[v]),
     seq(|enLazo|, v requires 0 <= v < |enLazo| => enLazo[v] && !AsWrittenRole(v, procesos_activos).Send?))
  }

  /** The as-written run with 3 processes, which start with 1, 2 and 3. In
      the first round rank 1 delivers its 2 to rank 0, rank 2's 3 is sent
      to rank 1 and never received, and both senders leave their loops. The
      count becomes 2, and in the second round rank 0, the only rank left
      in its loop, waits for ever on rank 1 while holding 3 instead of 6:
      rank 2's value never reaches a rank still in the loop. */
  lemma AsWrittenThreeProcessesRun()
    ensures var (suma1, enLazo1) := AsWrittenRound([1, 2, 3], [true, true, true], 3);
      SendLost([true, true, true], 3, 2) &&
      suma1 == [3, 2, 3] && enLazo1 == [true, false, false] &&
      3 / 2 + 3 % 2 == 2 && ReceiveBlocks(enLazo1, 2, 0)
  {
    var r := AsWrittenRound([1, 2, 3], [true, true, true], 3);
    assert Delivered([true, true, true], 3, 1, 0);
    assert !Delivered([true, true, true], 3, 2, 0);
    assert r.0 == [3, 2, 3];
  }

  /** The general branch as the update procesos_activos = mitad +
      procesos_activos % 2 intends it: the first `restantes` =
      procesos_activos - mitad ranks stay, the ranks from restantes up
      send to rank - restantes, and ranks below mitad receive from
      rank + restantes. With an even count this is the schedule as
      written. */
  function GeneralRole(v: nat, procesos_activos: nat): Role
  {
    var mitad := procesos_activos / 2;
    var restantes := procesos_activos - mitad;
    if v < mitad then Receive(v + restantes)
    else if restantes <= v < procesos_activos then Send(v - restantes)
    else Wait
  }

  lemma GeneralRoleAsWrittenWhenEven(v: nat, procesos_activos: nat)
    requires procesos_activos % 2 == 0
    ensures GeneralRole(v, procesos_activos) == AsWrittenRole(v, procesos_activos)
  {
  }

  /** In the corrected schedule every send is received and every receive
      answered in the same round, and the ranks that do not send are
      exactly the next round's active ranks 0 .. mitad + procesos_activos % 2 - 1. */
  lemma GeneralRolesMatch(v: nat, procesos_activos: nat)
    requires v < procesos_activos
    ensures GeneralRole(v, procesos_activos).Send? ==>
      var d := GeneralRole(v, procesos_activos).to;
      d < procesos_activos && GeneralRole(d, procesos_activos) == Receive(v)
    ensures GeneralRole(v, procesos_activos).Receive? ==>
      var f := GeneralRole(v, procesos_activos).from;
      v < f < procesos_activos && GeneralRole(f, procesos_activos) == Send(v)
    ensures !GeneralRole(v, procesos_activos).Send? <==> v < procesos_activos / 2 + procesos_activos % 2
  {
  }

  /** The halving terminates: while more than one rank is active the
      count strictly decreases and stays positive. */
  lemma ActiveShrinks(procesos_activos: nat)
    requires procesos_activos > 1
    ensures 1 <= procesos_activos / 2 + procesos_activos % 2 < procesos_activos
  {
  }

  /** One corrected round preserves the total held by the active ranks. */
  lemma RoundKeepsTotal(viejo: seq<int>, nuevo: seq<int>, procesos_activos: nat)
    requires |viejo| == |nuevo| >= procesos_activos
    requires var mitad := procesos_activos / 2;
      forall u :: 0 <= u < mitad ==> nuevo[u] == viejo[u] + viejo[u + (procesos_activos - mitad)]
    requires forall u :: procesos_activos / 2 <= u < |nuevo| ==> nuevo[u] == viejo[u]
    ensures Sum(nuevo[..procesos_activos - procesos_activos / 2]) == Sum(viejo[..procesos_activos])
  {
    var mitad := procesos_activos / 2;
    var restantes := procesos_activos - mitad;
    SumSplit(nuevo, 0, mitad, restantes);
    SumSplit(viejo, 0, mitad, procesos_activos);
    SumSplit(viejo, mitad, restantes, procesos_activos);
    SumPointwise(viejo[..mitad], viejo[restantes..procesos_activos], nuevo[..mitad]);
    assert nuevo[mitad..restantes] == viejo[mitad..restantes];
    assert nuevo[..restantes][..mitad] == nuevo[..mitad];
    assert nuevo[..restantes] == nuevo[0..restantes];
    assert viejo[..procesos_activos] == viejo[0..procesos_activos];
  }

  /** The bounds on the active count after a halving round: from
      (a - 1) * paso < p <= a * paso to the same with the next count and
      2 * paso. */
  lemma HalvingBounds(a: nat, paso: nat, p: nat)
    requires a > 1 && paso >= 1 && Flat(a - 1, 0, paso) < p <= Flat(a, 0, paso)
    ensures paso < p
    ensures var a' := a / 2 + a % 2; Flat(a' - 1, 0, 2 * paso) < p <= Flat(a', 0, 2 * paso)
  {
    FlatIsProduct(a - 1, 0, paso);
    FlatIsProduct(a, 0, paso);
    FlatIsProduct(a / 2 + a % 2 - 1, 0, 2 * paso);
    FlatIsProduct(a / 2 + a % 2, 0, 2 * paso);
    var m := a / 2;
    var a' := m + a % 2;
    var mp := m * paso;
    MulLe(1, a - 1, paso);
    if a % 2 == 0 {
      assert a == 2 * m && a' == m;
      assert a * paso == 2 * mp;
      assert (a - 1) * paso == 2 * mp - paso;
      assert a' * (2 * paso) == 2 * mp;
      assert (a' - 1) * (2 * paso) == 2 * mp - 2 * paso;
    } else {
      assert a == 2 * m + 1 && a' == m + 1;
      assert a * paso == 2 * mp + paso;
      assert (a - 1) * paso == 2 * mp;
      assert a' * (2 * paso) == 2 * mp + 2 * paso;
      assert (a' - 1) * (2 * paso) == 2 * mp;
    }
  }

  /** The values after one corrected round in which the ranks below v
      have acted: each rank below min(v, mitad) has added the value of
      rank + restantes, everything else is unchanged. */
  ghost function Received(s0: seq<int>, procesos_activos: nat, v: nat): (s1: seq<int>)
    requires procesos_activos <= |s0|
    ensures |s1| == |s0|
  {
    var mitad := procesos_activos / 2;
    seq(|s0|, u requires 0 <= u < |s0| =>
      if u < v && u < mitad then s0[u] + s0[u + (procesos_activos - mitad)] else s0[u])
  }

  /** The send counters after one corrected round in which the ranks
      below v have acted: each rank from restantes up to min(v,
      procesos_activos) has sent once more. */
  ghost function Counted(e0: seq<nat>, procesos_activos: nat, v: nat): (e1: seq<nat>)
    ensures |e1| == |e0|
  {
    var restantes := procesos_activos - procesos_activos / 2;
    seq(|e0|, u requires 0 <= u < |e0| =>
      if restantes <= u < v && u < procesos_activos then e0[u] + 1 else e0[u])
  }

  /** One round of the corrected general branch, in place: every rank
      below procesos_activos acts on its GeneralRole. */
  method GeneralRound(s: array<int>, env: array<nat>, procesos_activos: nat)
    requires procesos_activos <= s.Length == env.Length
    modifies s, env
    ensures s[..] == Received(old(s[..]), procesos_activos, procesos_activos)
    ensures env[..] == Counted(old(env[..]), procesos_activos, procesos_activos)
  {
    ghost var s0, e0 := s[..], env[..];
    for v := 0 to procesos_activos
      invariant s[..] == Received(s0, procesos_activos, v)
      invariant env[..] == Counted(e0, procesos_activos, v)
    {
      GeneralStep(s, env, procesos_activos, v, s0, e0);
    }
  }

  /** What rank v does in one corrected round, on its GeneralRole. */
  method GeneralStep(s: array<int>, env: array<nat>, procesos_activos: nat, v: nat,
                     ghost s0: seq<int>, ghost e0: seq<nat>)
    requires procesos_activos <= |s0| == env.Length && v < procesos_activos
    requires s[..] == Received(s0, procesos_activos, v) && env[..] == Counted(e0, procesos_activos, v)
    modifies s, env
    ensures s[..] == Received(s0, procesos_activos, v + 1) && env[..] == Counted(e0, procesos_activos, v + 1)
  {
    match GeneralRole(v, procesos_activos)
    case Receive(fuente) =>
      ReceiveStep(s0, procesos_activos, v);
      s[v] := s[v] + s[fuente];
      WaitStep(e0, procesos_activos, v);
    case Send(destino) =>
      SendStep(e0, procesos_activos, v);
      env[v] := env[v] + 1;
      assert Received(s0, procesos_activos, v + 1) == Received(s0, procesos_activos, v);
    case Wait =>
      assert Received(s0, procesos_activos, v + 1) == Received(s0, procesos_activos, v);
      WaitStep(e0, procesos_activos, v);
  }

  /** A rank below restantes sends nothing. */
  lemma WaitStep(e0: seq<nat>, procesos_activos: nat, v: nat)
    requires v < procesos_activos - procesos_activos / 2
    ensures Counted(e0, procesos_activos, v + 1) == Counted(e0, procesos_activos, v)
  {
  }

  /** One pass of the while loop of the general branch: the round, then
      procesos_activos = mitad + procesos_activos % 2. The new active
      ranks hold the total the old ones held, and the ranks that sent in
      this round are exactly those between the two counts. */
  method HalvingRound(s: array<int>, env: array<nat>, procesos_activos: nat) returns (siguiente: nat)
    requires 1 < procesos_activos <= s.Length == env.Length
    modifies s, env
    ensures siguiente == procesos_activos / 2 + procesos_activos % 2 && 1 <= siguiente < procesos_activos
    ensures Sum(s[..siguiente]) == old(Sum(s[..procesos_activos]))
    ensures old(SentOnce(env[..], procesos_activos)) ==> SentOnce(env[..], siguiente)
  {
    ghost var s0, e0 := s[..], env[..];
    var mitad := procesos_activos / 2;
    GeneralRound(s, env, procesos_activos);
    ReceivedKeepsTotal(s0, procesos_activos);
    if SentOnce(e0, procesos_activos) {
      CountedSentOnce(e0, procesos_activos);
    }
    ActiveShrinks(procesos_activos);
    siguiente := mitad + procesos_activos % 2;
  }

  /** A receiving rank v adds the value of rank v + restantes, which has
      not acted yet in this round. */
  lemma ReceiveStep(s0: seq<int>, procesos_activos: nat, v: nat)
    requires procesos_activos <= |s0| && v < procesos_activos / 2
    ensures var r := Received(s0, procesos_activos, v);
      var f := v + (procesos_activos - procesos_activos / 2);
      f < |s0| && r[v] == s0[v] && r[f] == s0[f] &&
      Received(s0, procesos_activos, v + 1) == r[v := r[v] + r[f]]
  {
  }

  /** A sending rank v counts one more message. */
  lemma SendStep(e0: seq<nat>, procesos_activos: nat, v: nat)
    requires procesos_activos - procesos_activos / 2 <= v < procesos_activos && v < |e0|
    ensures var c := Counted(e0, procesos_activos, v);
      c[v] == e0[v] && Counted(e0, procesos_activos, v + 1) == c[v := c[v] + 1]
  {
  }

  /** After a full round the active ranks still hold the total. */
  lemma ReceivedKeepsTotal(s0: seq<int>, procesos_activos: nat)
    requires procesos_activos <= |s0|
    ensures var s1 := Received(s0, procesos_activos, procesos_activos);
      Sum(s1[..procesos_activos - procesos_activos / 2]) == Sum(s0[..procesos_activos])
  {
    RoundKeepsTotal(s0, Received(s0, procesos_activos, procesos_activos), procesos_activos);
  }

  /** After a full round the ranks from restantes up have sent exactly
      once and the rest not at all. */
  lemma CountedSentOnce(e0: seq<nat>, procesos_activos: nat)
    requires SentOnce(e0, procesos_activos)
    ensures SentOnce(Counted(e0, procesos_activos, procesos_activos), procesos_activos - procesos_activos / 2)
  {
  }

  /** The ranks below `activos` have not sent yet and every other rank has
      sent exactly once. */
  predicate SentOnce(envios: seq<nat>, activos: nat)
  {
    forall u :: 0 <= u < |envios| ==> envios[u] == if u < activos then 0 else 1
  }

  /** The general branch with the corrected schedule, for arbitrary
      initial values: rank 0 ends with the sum of all of them, it never
      sends and every other rank sends exactly once; the halving takes
      the smallest rondas with 2^rondas >= p. */
  method GeneralRounds(valores: seq<int>) returns (suma: seq<int>, envios: seq<nat>, rondas: nat)
    requires |valores| >= 1
    ensures |suma| == |valores| && |envios| == |valores|
    ensures suma[0] == Sum(valores)
    ensures envios[0] == 0 && forall r :: 0 < r < |valores| ==> envios[r] == 1
    ensures |valores| <= Pow2(rondas) && (rondas > 0 ==> Pow2(rondas - 1) < |valores|)
  {
    var p := |valores|;
    var s := new int[p](r requires 0 <= r < p => valores[r]);
    var env := new nat[p](r => 0);
    assert s[..p] == valores;
    FlatIsProduct(p - 1, 0, 1);
    FlatIsProduct(p, 0, 1);
    var procesos_activos := p;
    rondas := 0;
    ghost var paso := 1;
    while procesos_activos > 1
      invariant 1 <= procesos_activos <= p && paso == Pow2(rondas)
      invariant Flat(procesos_activos - 1, 0, paso) < p <= Flat(procesos_activos, 0, paso)
      invariant rondas > 0 ==> Pow2(rondas - 1) < p
      invariant Sum(s[..procesos_activos]) == Sum(valores)
      invariant SentOnce(env[..], procesos_activos)
      decreases procesos_activos
    {
      HalvingBounds(procesos_activos, paso, p);
      procesos_activos := HalvingRound(s, env, procesos_activos);
      rondas, paso := rondas + 1, 2 * paso;
    }
    FlatIsProduct(1, 0, paso);
    assert s[..1] == [s[0]];
    assert [s[0]][1..] == [];
    suma, envios := s[..], env[..];
  }

  /** The program: every rank starts with rank + 1, the branch test picks
      the power-of-two or the general algorithm, and rank 0's final value
      is p(p+1)/2; rank 0 never sends, every other rank sends once, and
      the number of rounds is the base-2 logarithm of p rounded up. */
  method Run(p: nat) returns (potencia_de_dos: bool, suma_total: int, envios: seq<nat>, rondas: nat)
    requires p >= 1
    ensures potencia_de_dos <==> IsPowerOfTwo(p)
    ensures p <= Pow2(rondas) && (rondas > 0 ==> Pow2(rondas - 1) < p)
    ensures suma_total * 2 == p * (p + 1)
    ensures |envios| == p && envios[0] == 0 && forall r :: 0 < r < p ==> envios[r] == 1
  {
    var valores := Ranks(p);
    var suma: seq<int>;
    PowerOfTwoTest(p);
    potencia_de_dos := BitAnd(p, p - 1) == 0;
    if potencia_de_dos {
      suma, envios, rondas := PowerOfTwoRounds(valores);
    } else {
      suma, envios, rondas := GeneralRounds(valores);
    }
    suma_total := suma[0];
    RanksSum(p);
  }
}

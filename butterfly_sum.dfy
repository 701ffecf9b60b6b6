// Butterfly reduction of the values 1..p (3_4_suma_mariposa.cpp). In the
// round with step paso every rank exchanges its partial sum with rank
// XOR paso, when that rank exists, and adds what it receives. The
// exchange is symmetric (MPI_Sendrecv), so a round is computed from the
// previous round's values, kept in a copy while the array of per-rank
// sums is overwritten.

module ButterflySum {
  import opened Arith
  import opened Sums
  import opened Bits

  /** The doubling loop for potencia_2: the smallest power of two that is
      at least p. */
  method PowerAtLeast(p: nat) returns (potencia_2: nat, ghost k: nat)
    requires p >= 1
    ensures potencia_2 == Pow2(k) && p <= potencia_2
    ensures forall j :: p <= Pow2(j) ==> potencia_2 <= Pow2(j)
  {
    potencia_2 := 1;
    k := 0;
    while potencia_2 < p
      invariant potencia_2 == Pow2(k)
      invariant k > 0 ==> Pow2(k - 1) < p
      decreases p - potencia_2
    {
      potencia_2 := potencia_2 * 2;
      k := k + 1;
    }
    forall j: nat | p <= Pow2(j)
      ensures potencia_2 <= Pow2(j)
    {
      if j < k {
        Pow2Monotone(j, k - 1);
      } else {
        Pow2Monotone(k, j);
      }
    }
  }

  /** One round: rank r adds the value of its partner r XOR paso, taken
      from before the round, when the partner exists, and otherwise keeps
      its value. */
  function ExchangeRound(s: seq<int>, paso: nat): (t: seq<int>)
    ensures |t| == |s|
  {
    seq(|s|, r requires 0 <= r < |s| =>
      if Xor(r, paso) < |s| then s[r] + s[Xor(r, paso)] else s[r])
  }

  /** Partners are distinct and pair up with each other, so after a round
      both hold the sum of their two previous values; a rank without a
      partner keeps its value. */
  lemma ExchangePairs(s: seq<int>, paso: nat, r: nat)
    requires paso >= 1 && r < |s|
    ensures Xor(r, paso) != r && Xor(Xor(r, paso), paso) == r
    ensures Xor(r, paso) < |s| ==>
      ExchangeRound(s, paso)[r] == ExchangeRound(s, paso)[Xor(r, paso)] == s[r] + s[Xor(r, paso)]
    ensures Xor(r, paso) >= |s| ==> ExchangeRound(s, paso)[r] == s[r]
  {
    XorNoFixedPoint(r, paso);
    XorInvolution(r, paso);
  }

  /** The rounds with steps paso, 2 * paso, ... below limite. */
  function Rounds(s: seq<int>, paso: nat, limite: nat): (t: seq<int>)
    requires paso >= 1
    ensures |t| == |s|
    decreases limite - paso
  {
    if paso >= limite then s else Rounds(ExchangeRound(s, paso), 2 * paso, limite)
  }

  /** One round in place: every rank sends its current value and adds the
      value it receives from its partner. */
  method Exchange(suma: array<int>, paso: nat)
    modifies suma
    ensures suma[..] == ExchangeRound(old(suma[..]), paso)
  {
    var anterior := suma[..];
    for r := 0 to suma.Length
      invariant forall u :: 0 <= u < r ==> suma[u] == ExchangeRound(anterior, paso)[u]
      invariant forall u :: r <= u < suma.Length ==> suma[u] == anterior[u]
    {
      var socio := Xor(r, paso);
      if socio < suma.Length {
        var valor_recibido := anterior[socio];
        suma[r] := suma[r] + valor_recibido;
      }
    }
  }

  /** Multiples of d below a multiple of d leave room for one more d. */
  lemma MultipleBelow(b: nat, p: nat, d: nat)
    requires d >= 1 && b % d == 0 && p % d == 0 && b < p
    ensures b + d <= p
  {
    var i, j := b / d, p / d;
    if j <= i {
      MulLe(j, i, d);
    }
    MulLe(i + 1, j, d);
  }

  /** Adding or removing one d keeps the remainder and moves the
      quotient by one. */
  lemma ModShift(x: nat, d: nat)
    requires d >= 1
    ensures (x + d) % d == x % d && (x + d) / d == x / d + 1
    ensures x >= d ==> (x - d) % d == x % d && (x - d) / d == x / d - 1
  {
    var q, m := x / d, x % d;
    assert x == d * q + m;
    assert x + d == d * (q + 1) + m;
    DivModUnique(x + d, d, q + 1, m);
    if x >= d {
      assert x - d == d * (q - 1) + m;
      DivModUnique(x - d, d, q - 1, m);
    }
  }

  /** The start of the aligned window of width w that contains r. */
  function Aligned(r: nat, w: nat): nat
    requires w >= 1
  {
    Flat(r / w, 0, w)
  }

  lemma AlignedIs(r: nat, w: nat)
    requires w >= 1
    ensures Aligned(r, w) + r % w == r
    ensures Aligned(r, w) % w == 0
  {
    FlatIsProduct(r / w, 0, w);
    DivModUnique(Aligned(r, w), w, r / w, 0);
  }

  /** The only aligned window of width w below w starts at 0. */
  lemma AlignedBelow(r: nat, w: nat)
    requires r < w
    ensures Aligned(r, w) == 0
  {
    DivModUnique(r, w, 0, r);
    FlatIsProduct(0, 0, w);
  }

  /** Every rank that is a multiple of w holds the sum of the initial
      values in its window of width w. */
  predicate BaseSums(v: seq<int>, s: seq<int>, w: nat)
    requires w >= 1
  {
    |s| == |v| && forall b :: 0 <= b < |s| && b % w == 0 ==> s[b] == WindowSum(v, b, w)
  }

  /** Every rank holds the sum of the initial values in the aligned
      window of width w that contains it. */
  predicate AlignedSums(v: seq<int>, s: seq<int>, w: nat)
    requires w >= 1
  {
    |s| == |v| && forall r :: 0 <= r < |s| ==> s[r] == WindowSum(v, Aligned(r, w), w)
  }

  /** Before the first round every rank holds its own value, the sum of
      its window of width 1. */
  lemma InitialSums(v: seq<int>)
    ensures BaseSums(v, v, 1) && AlignedSums(v, v, 1)
  {
    forall u | 0 <= u < |v|
      ensures u % 1 == 0 && Aligned(u, 1) == u && v[u] == WindowSum(v, u, 1)
    {
      FlatIsProduct(u, 0, 1);
      WindowSumOne(v, u);
    }
  }

  /** Once the window width reaches the number of ranks, rank 0 holds the
      sum of everything. */
  lemma BaseTotal(v: seq<int>, s: seq<int>, w: nat)
    requires 1 <= |v| <= w && BaseSums(v, s, w)
    ensures s[0] == Sum(v)
  {
    DivModUnique(0, w, 0, 0);
    WindowSumWhole(v, w);
  }

  /** Once the window width reaches the number of ranks, a rank that
      holds the sum of its aligned window holds the sum of everything. */
  lemma WholeWindows(v: seq<int>, s: seq<int>, w: nat)
    requires |v| <= w && w >= 1 && AlignedSums(v, s, w)
    ensures forall r :: 0 <= r < |s| ==> s[r] == Sum(v)
  {
    forall r | 0 <= r < |s|
      ensures s[r] == Sum(v)
    {
      AlignedBelow(r, w);
      WindowSumWhole(v, w);
    }
  }

  /** After the round with step paso = 2^k the ranks that are multiples
      of 2 * paso hold the sum of their window of width 2 * paso, provided
      the multiples of paso held the sum of their window of width paso:
      the partner of such a rank is the start of the upper half of its
      window, and when that rank does not exist neither does any of that
      half. */
  lemma RoundBases(v: seq<int>, s: seq<int>, paso: nat, k: nat)
    requires paso == Pow2(k) && BaseSums(v, s, paso)
    ensures BaseSums(v, ExchangeRound(s, paso), 2 * paso)
  {
    var t := ExchangeRound(s, paso);
    forall b | 0 <= b < |s| && b % (2 * paso) == 0
      ensures t[b] == WindowSum(v, b, 2 * paso)
    {
      ModDouble(b, paso);
      XorPow2(b, k);
      WindowSumDouble(v, b, paso);
      if b + paso < |s| {
        ModShift(b, paso);
      } else {
        WindowSumPast(v, b + paso, paso);
      }
    }
  }

  /** When the number of ranks is a multiple of 2 * paso, every partner of
      the round with step paso = 2^k exists, and if every rank held the
      sum of its aligned window of width paso, afterwards every rank holds
      the sum of its aligned window of width 2 * paso. */
  lemma RoundAll(v: seq<int>, s: seq<int>, paso: nat, k: nat)
    requires paso == Pow2(k) && |s| % (2 * paso) == 0 && AlignedSums(v, s, paso)
    ensures AlignedSums(v, ExchangeRound(s, paso), 2 * paso)
  {
    forall r | 0 <= r < |s|
      ensures ExchangeRound(s, paso)[r] == WindowSum(v, Aligned(r, 2 * paso), 2 * paso)
    {
      RoundAllAt(v, s, paso, k, r);
    }
  }

  lemma RoundAllAt(v: seq<int>, s: seq<int>, paso: nat, k: nat, r: nat)
    requires paso == Pow2(k) && |s| % (2 * paso) == 0 && r < |s| && AlignedSums(v, s, paso)
    ensures ExchangeRound(s, paso)[r] == WindowSum(v, Aligned(r, 2 * paso), 2 * paso)
  {
    if (r / paso) % 2 == 0 {
      LowerWindows(v, s, paso, r);
      LowerPartner(s, paso, k, r);
    } else {
      UpperWindows(v, s, paso, r);
      UpperPartner(s, paso, k, r);
    }
  }

  /** A rank in the lower half of its pair of windows adds the value of
      the rank paso above it. */
  lemma LowerPartner(s: seq<int>, paso: nat, k: nat, r: nat)
    requires paso == Pow2(k) && r + paso < |s| && (r / paso) % 2 == 0
    ensures ExchangeRound(s, paso)[r] == s[r] + s[r + paso]
  {
    XorPow2(r, k);
  }

  /** The windows of a lower rank and of its partner paso above it are
      adjacent and together form the window of width 2 * paso. */
  lemma LowerWindows(v: seq<int>, s: seq<int>, paso: nat, r: nat)
    requires paso >= 1 && |s| % (2 * paso) == 0 && r < |s| && AlignedSums(v, s, paso)
    requires (r / paso) % 2 == 0
    ensures r + paso < |s|
    ensures s[r] + s[r + paso] == WindowSum(v, Aligned(r, 2 * paso), 2 * paso)
  {
    var base := Aligned(r, paso);
    AlignedIs(r, paso);
    AlignedIs(r, 2 * paso);
    ModDouble(r, paso);
    MultipleBelow(Aligned(r, 2 * paso), |s|, 2 * paso);
    assert Aligned(r, 2 * paso) == base;
    ModShift(r, paso);
    AlignedIs(r + paso, paso);
    assert Aligned(r + paso, paso) == base + paso;
    WindowSumDouble(v, base, paso);
  }

  /** A rank in the upper half of its pair of windows adds the value of
      the rank paso below it. */
  lemma UpperPartner(s: seq<int>, paso: nat, k: nat, r: nat)
    requires paso == Pow2(k) && paso <= r < |s| && (r / paso) % 2 == 1
    ensures ExchangeRound(s, paso)[r] == s[r] + s[r - paso]
  {
    XorPow2(r, k);
  }

  /** The windows of an upper rank and of its partner paso below it are
      adjacent and together form the window of width 2 * paso. */
  lemma UpperWindows(v: seq<int>, s: seq<int>, paso: nat, r: nat)
    requires paso >= 1 && r < |s| && AlignedSums(v, s, paso)
    requires (r / paso) % 2 == 1
    ensures paso <= r
    ensures s[r] + s[r - paso] == WindowSum(v, Aligned(r, 2 * paso), 2 * paso)
  {
    var top := Aligned(r, 2 * paso);
    AlignedIs(r, paso);
    AlignedIs(r, 2 * paso);
    ModDouble(r, paso);
    assert top + paso == Aligned(r, paso);
    ModShift(r, paso);
    AlignedIs(r - paso, paso);
    assert Aligned(r - paso, paso) == top;
    WindowSumDouble(v, top, paso);
  }

  /** The round loop for a limit that is a power of two and at least p:
      it runs log2(limite) rounds, rank 0 ends with the sum of all values,
      and when p is the limit every rank does. */
  method ExchangeRounds(valores: seq<int>, limite: nat, ghost m: nat) returns (suma: seq<int>, rondas: nat)
    requires limite == Pow2(m) >= |valores| >= 1
    ensures Pow2(rondas) == limite
    ensures suma == Rounds(valores, 1, limite)
    ensures suma[0] == Sum(valores)
    ensures limite == |valores| ==> forall r :: 0 <= r < |valores| ==> suma[r] == Sum(valores)
  {
    var p := |valores|;
    var s := new int[p](r requires 0 <= r < p => valores[r]);
    assert s[..] == valores;
    InitialSums(valores);
    var paso := 1;
    rondas := 0;
    while paso < limite
      invariant paso == Pow2(rondas) <= limite
      invariant Rounds(s[..], paso, limite) == Rounds(valores, 1, limite)
      invariant BaseSums(valores, s[..], paso)
      invariant limite == p ==> AlignedSums(valores, s[..], paso)
      decreases limite - paso
    {
      ghost var antes := s[..];
      Exchange(s, paso);
      RoundBases(valores, antes, paso, rondas);
      if rondas >= m {
        Pow2Monotone(m, rondas);
      }
      Pow2Monotone(rondas, m);
      if limite == p {
        Pow2Divides(rondas + 1, m);
        RoundAll(valores, antes, paso, rondas);
      }
      paso := 2 * paso;
      rondas := rondas + 1;
    }
    assert paso == limite;
    suma := s[..];
    BaseTotal(valores, suma, paso);
    if limite == p {
      WholeWindows(valores, suma, paso);
    }
  }

  /** The butterfly for arbitrary initial values, one per rank. The step
      limit is p when the branch test finds p a power of two and
      potencia_2 otherwise; either way it is the smallest power of two
      that is at least p, and the number of rounds is its base-2
      logarithm. Rank 0 ends with the sum of all values, and when p is a
      power of two so does every rank. */
  method Butterfly(valores: seq<int>) returns (suma: seq<int>, rondas: nat)
    requires |valores| >= 1
    ensures suma == Rounds(valores, 1, Pow2(rondas))
    ensures |valores| <= Pow2(rondas) && forall j :: |valores| <= Pow2(j) ==> Pow2(rondas) <= Pow2(j)
    ensures IsPowerOfTwo(|valores|) ==> Pow2(rondas) == |valores|
    ensures suma[0] == Sum(valores)
    ensures IsPowerOfTwo(|valores|) ==> forall r :: 0 <= r < |valores| ==> suma[r] == Sum(valores)
  {
    var p := |valores|;
    PowerOfTwoTest(p);
    var limite: nat;
    ghost var m: nat;
    if BitAnd(p, p - 1) == 0 {
      limite, m := p, Log2(p);
      Log2Inverse(p);
      forall j: nat | p <= Pow2(j)
        ensures limite <= Pow2(j)
      {
      }
    } else {
      limite, m := PowerAtLeast(p);
    }
    suma, rondas := ExchangeRounds(valores, limite, m);
  }

  /** The program: every rank starts with rank + 1, and rank 0 ends with
      p(p+1)/2, the value it checks; when p is a power of two every rank
      ends with it. */
  method Run(p: nat) returns (suma: seq<int>, rondas: nat)
    requires p >= 1
    ensures |suma| == p
    ensures p <= Pow2(rondas) && forall j :: p <= Pow2(j) ==> Pow2(rondas) <= Pow2(j)
    ensures suma[0] * 2 == p * (p + 1)
    ensures IsPowerOfTwo(p) ==> forall r :: 0 <= r < p ==> suma[r] * 2 == p * (p + 1)
    ensures suma == Rounds(Ranks(p), 1, Pow2(rondas))
  {
    suma, rondas := Butterfly(Ranks(p));
    RanksSum(p);
  }

  /** With 5 processes the limit is 8, and after the three rounds ranks 0
      and 4 hold 15 while ranks 1 to 3 hold 10: outside powers of two only
      some ranks end with the total. */
  lemma FiveProcesses()
    ensures 5 <= Pow2(3) && forall j :: 5 <= Pow2(j) ==> Pow2(3) <= Pow2(j)
    ensures Rounds(Ranks(5), 1, Pow2(3)) == [15, 10, 10, 10, 15]
  {
    forall j: nat | 5 <= Pow2(j)
      ensures Pow2(3) <= Pow2(j)
    {
      if j < 3 {
        Pow2Monotone(j, 2);
      } else {
        Pow2Monotone(3, j);
      }
    }
    var r0 := Ranks(5);
    assert r0 == [1, 2, 3, 4, 5];
    var r1, r2, r3 := [3, 3, 7, 7, 5], [10, 10, 10, 10, 5], [15, 10, 10, 10, 15];
    FiveFirstRound();
    FiveSecondRound();
    FiveThirdRound();
    assert Rounds(r0, 1, 8) == Rounds(r1, 2, 8) == Rounds(r2, 4, 8) == Rounds(r3, 8, 8);
  }

  lemma FiveFirstRound()
    ensures ExchangeRound([1, 2, 3, 4, 5], 1) == [3, 3, 7, 7, 5]
  {
    assert Xor(0, 1) == 1 && Xor(1, 1) == 0 && Xor(2, 1) == 3 && Xor(3, 1) == 2 && Xor(4, 1) == 5;
  }

  lemma FiveSecondRound()
    ensures ExchangeRound([3, 3, 7, 7, 5], 2) == [10, 10, 10, 10, 5]
  {
    assert Xor(0, 2) == 2 && Xor(1, 2) == 3 && Xor(2, 2) == 0 && Xor(3, 2) == 1 && Xor(4, 2) == 6;
  }

  lemma FiveThirdRound()
    ensures ExchangeRound([10, 10, 10, 10, 5], 4) == [15, 10, 10, 10, 15]
  {
    assert Xor(0, 4) == 4 && Xor(1, 4) == 5 && Xor(2, 4) == 6 && Xor(3, 4) == 7 && Xor(4, 4) == 0;
  }
}

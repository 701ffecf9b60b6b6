// Bit operations the reduction programs apply to non-negative ranks and
// process counts: powers of two, bitwise AND (the power-of-two test
// `p & (p - 1)`) and exclusive OR (the butterfly partner `rank ^ paso`),
// defined bit by bit from the least significant bit up.

module Bits {
  import opened Arith

  function Pow2(k: nat): (r: nat)
    ensures r >= 1
  {
    if k == 0 then 1 else 2 * Pow2(k - 1)
  }

  /** n is one of 1, 2, 4, 8, ... */
  predicate IsPowerOfTwo(n: nat)
  {
    n == 1 || (n >= 2 && n % 2 == 0 && IsPowerOfTwo(n / 2))
  }

  lemma {:induction false} Pow2IsPowerOfTwo(k: nat)
    ensures IsPowerOfTwo(Pow2(k))
  {
    if k > 0 {
      Pow2IsPowerOfTwo(k - 1);
      assert Pow2(k) / 2 == Pow2(k - 1);
    }
  }

  /** The exponent of a power of two. */
  function Log2(n: nat): nat
    requires IsPowerOfTwo(n)
  {
    if n == 1 then 0 else 1 + Log2(n / 2)
  }

  lemma {:induction false} Log2Inverse(n: nat)
    requires IsPowerOfTwo(n)
    ensures Pow2(Log2(n)) == n
  {
    if n != 1 {
      Log2Inverse(n / 2);
    }
  }

  lemma {:induction false} Pow2Monotone(j: nat, k: nat)
    requires j <= k
    ensures Pow2(j) <= Pow2(k)
    ensures j < k ==> 2 * Pow2(j) <= Pow2(k)
    decreases k
  {
    if j < k {
      Pow2Monotone(j, k - 1);
    }
  }

  /** A smaller power of two divides a larger one. */
  lemma {:induction false} Pow2Divides(j: nat, k: nat)
    requires j <= k
    ensures Pow2(k) % Pow2(j) == 0
    decreases k
  {
    if j < k {
      Pow2Divides(j, k - 1);
      var d := Pow2(j);
      var q := Pow2(k - 1) / d;
      DivModUnique(Pow2(k - 1), d, q, 0);
      assert Pow2(k) == 2 * (d * q) == d * (2 * q);
      DivModUnique(Pow2(k), d, 2 * q, 0);
    } else {
      DivModUnique(Pow2(k), Pow2(k), 1, 0);
    }
  }

  /** Bitwise AND of non-negative integers. */
  function BitAnd(a: nat, b: nat): nat
  {
    if a == 0 || b == 0 then 0
    else 2 * BitAnd(a / 2, b / 2) + (if a % 2 == 1 && b % 2 == 1 then 1 else 0)
  }

  lemma {:induction false} BitAndSelf(a: nat)
    ensures BitAnd(a, a) == a
  {
    if a > 0 {
      BitAndSelf(a / 2);
    }
  }

  /** The branch test `(p & (p - 1)) == 0` holds for p >= 1 exactly when
      p is a power of two. */
  lemma {:induction false} PowerOfTwoTest(p: nat)
    requires p >= 1
    ensures BitAnd(p, p - 1) == 0 <==> IsPowerOfTwo(p)
  {
    if p > 1 {
      var q := p / 2;
      if p % 2 == 0 {
        DivModUnique(p - 1, 2, q - 1, 1);
        PowerOfTwoTest(q);
      } else {
        DivModUnique(p - 1, 2, q, 0);
        BitAndSelf(q);
      }
    }
  }

  /** Bitwise exclusive OR of non-negative integers. */
  function Xor(a: nat, b: nat): nat
  {
    if a == 0 then b
    else if b == 0 then a
    else 2 * Xor(a / 2, b / 2) + (if a % 2 == b % 2 then 0 else 1)
  }

  /** XOR splits into its halves: the quotient by two and the low bit. */
  lemma XorHalves(a: nat, b: nat)
    ensures Xor(a, b) / 2 == Xor(a / 2, b / 2)
    ensures Xor(a, b) % 2 == if a % 2 == b % 2 then 0 else 1
  {
    if a == 0 {
      assert Xor(a / 2, b / 2) == b / 2;
    } else if b == 0 {
      assert Xor(a / 2, b / 2) == a / 2;
    } else {
      DivModUnique(Xor(a, b), 2, Xor(a / 2, b / 2), if a % 2 == b % 2 then 0 else 1);
    }
  }

  /** A number is determined by its half and its low bit. */
  lemma HalvesDetermine(x: nat, y: nat)
    requires x / 2 == y / 2 && x % 2 == y % 2
    ensures x == y
  {
  }

  /** The partner relation is an involution: the partner's partner is
      the rank itself. */
  lemma {:induction false} XorInvolution(a: nat, b: nat)
    ensures Xor(Xor(a, b), b) == a
    decreases a + b
  {
    if a != 0 && b != 0 {
      var c := Xor(a, b);
      XorInvolution(a / 2, b / 2);
      XorHalves(a, b);
      XorHalves(c, b);
      assert Xor(c, b) / 2 == a / 2;
      assert Xor(c, b) % 2 == a % 2;
      HalvesDetermine(Xor(c, b), a);
    } else if a == 0 {
      XorSelf(b);
    }
  }

  lemma {:induction false} XorSelf(b: nat)
    ensures Xor(b, b) == 0
  {
    if b != 0 {
      XorSelf(b / 2);
    }
  }

  /** A non-zero step never pairs a rank with itself. */
  lemma {:induction false} XorNoFixedPoint(a: nat, b: nat)
    requires b >= 1
    ensures Xor(a, b) != a
    decreases b
  {
    if a != 0 {
      XorHalves(a, b);
      if b % 2 == 0 {
        XorNoFixedPoint(a / 2, b / 2);
      }
    }
  }

  /** XOR with 2^k flips bit k: it adds 2^k when that bit of r is clear
      and subtracts it when the bit is set. */
  lemma {:induction false} XorPow2(r: nat, k: nat)
    ensures Xor(r, Pow2(k)) == if (r / Pow2(k)) % 2 == 0 then r + Pow2(k) else r - Pow2(k)
  {
    if k > 0 && r != 0 {
      var big, half := Pow2(k), Pow2(k - 1);
      assert big == 2 * half;
      XorPow2(r / 2, k - 1);
      DivDiv(r, 2, half);
      assert (r / 2) / half == r / big;
      XorHalves(r, big);
      assert big / 2 == half && big % 2 == 0;
      var x := if (r / big) % 2 == 0 then r + big else r - big;
      if (r / big) % 2 == 0 {
        DivModUnique(x, 2, r / 2 + half, r % 2);
      } else {
        assert r >= big by {
          if r < big {
            DivModUnique(r, big, 0, r);
          }
        }
        DivModUnique(x, 2, r / 2 - half, r % 2);
      }
      HalvesDetermine(Xor(r, big), x);
    } else if r == 0 {
      DivModUnique(0, Pow2(k), 0, 0);
    } else {
      assert r / 1 == r;
    }
  }

  /** Dividing by a and then by b is dividing by a * b. */
  lemma DivDiv(x: nat, a: nat, b: nat)
    requires a >= 1 && b >= 1
    ensures x / a / b == x / (a * b)
  {
    var q1 := x / a;
    var q2 := q1 / b;
    assert x == a * q1 + x % a;
    assert q1 == b * q2 + q1 % b;
    assert x == (a * b) * q2 + (a * (q1 % b) + x % a);
    MulLe(q1 % b + 1, b, a);
    DivModUnique(x, a * b, q2, a * (q1 % b) + x % a);
  }
}

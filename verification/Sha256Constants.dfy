/**
 Where SHA-256's constants come from, as sections 4.2.2 and 5.3.3 of FIPS 180-4 define
 them: the first 32 bits of the fractional parts of the cube roots of the first 64
 primes, and of the square roots of the first eight.
 */
module Sha256Constants {
  import opened Primes
  import opened Sha256

  const PRIMES: seq<nat> :=
    [2, 3, 5, 7, 11, 13, 17, 19]
    + [23, 29, 31, 37, 41, 43, 47, 53]
    + [59, 61, 67, 71, 73, 79, 83, 89]
    + [97, 101, 103, 107, 109, 113, 127, 131]
    + [137, 139, 149, 151, 157, 163, 167, 173]
    + [179, 181, 191, 193, 197, 199, 211, 223]
    + [227, 229, 233, 239, 241, 251, 257, 263]
    + [269, 271, 277, 281, 283, 293, 307, 311]

  // ---- these are the first primes -----------------------------------------------------------------

  /** n has one of the primes up to 17 as a proper factor. */
  predicate SmallFactor(n: nat) {
    || (2 < n && n % 2 == 0) || (3 < n && n % 3 == 0) || (5 < n && n % 5 == 0) || (7 < n && n % 7 == 0)
    || (11 < n && n % 11 == 0) || (13 < n && n % 13 == 0) || (17 < n && n % 17 == 0)
  }

  /** Below the square of 19 that is all there is to look for. */
  lemma PrimeExactly(n: nat)
    requires 2 <= n < 361
    ensures IsPrime(n) <==> !SmallFactor(n)
  {
    if SmallFactor(n) {
      assert Divides(2, n) || Divides(3, n) || Divides(5, n) || Divides(7, n) || Divides(11, n) || Divides(13, n) || Divides(17, n);
    } else {
      forall d | 2 <= d < n ensures !Divides(d, n) {
        if Divides(d, n) {
          SmallerFactor(n, d);
        }
      }
    }
  }

  lemma SmallerFactor(n: nat, d: nat)
    requires 2 <= d < n < 361 && Divides(d, n)
    ensures SmallFactor(n)
  {
    var e := n / d;
    assert n == d * e;
    if 19 <= d && 19 <= e {
      Product(d, e);
    } else if d < 19 {
      FactorBelow19(n, d, e);
    } else {
      assert n == e * d;
      BothProper(n, d, e);
      FactorBelow19(n, e, d);
    }
  }

  lemma Product(d: nat, e: nat)
    requires 19 <= d && 19 <= e
    ensures 361 <= d * e
  {
    assert d * e == 19 * 19 + 19 * (e - 19) + (d - 19) * e;
  }

  lemma BothProper(n: nat, d: nat, e: nat)
    requires 2 <= d < n && n == d * e
    ensures 2 <= e < n
  {}

  lemma FactorBelow19(n: nat, f: nat, g: nat)
    requires 2 <= f < 19 && f < n && n == f * g
    ensures SmallFactor(n)
  {
    var p := if f % 2 == 0 then 2 else if f % 3 == 0 then 3 else if f % 5 == 0 then 5 else f;
    var k := f / p;
    assert f == p * k;
    MultipleOf(n, p, k, g);
  }

  lemma MultipleOf(n: nat, p: nat, k: nat, g: nat)
    requires 1 <= p && n == p * k * g
    ensures n % p == 0
  {
    assert n == (k * g) * p;
    DividesWitness(p, n, k * g);
  }

  ghost predicate IsNextPrime(p: nat, next: nat) {
    p < next && IsPrime(next) && forall n :: p < n < next ==> !IsPrime(n)
  }

  /** Every number from n on, up to the bound, has a small factor. */
  predicate SmallFactors(n: nat, bound: nat)
    decreases bound - n
  {
    n >= bound || (SmallFactor(n) && SmallFactors(n + 1, bound))
  }

  lemma {:induction false} SmallFactorsMeans(n: nat, bound: nat, x: nat)
    requires SmallFactors(n, bound) && n <= x < bound
    ensures SmallFactor(x)
    decreases bound - n
  {
    hide SmallFactor;
    if n < x {
      SmallFactorsMeans(n + 1, bound, x);
    }
  }

  /** One prime is next to another if everything between has a small factor. */
  lemma Next(p: nat, after: nat, next: nat)
    requires 2 <= p < next < 361 && after == p + 1 && !SmallFactor(next) && SmallFactors(after, next)
    ensures IsNextPrime(p, next)
  {
    hide SmallFactor, SmallFactors;
    PrimeExactly(next);
    forall n | p < n < next ensures !IsPrime(n) {
      SmallFactorsMeans(after, next, n);
      PrimeExactly(n);
    }
  }

  lemma PrimesFrom0()
    ensures forall t :: 0 <= t < 8 ==> IsNextPrime(PRIMES[t], PRIMES[t + 1])
  {
    hide IsNextPrime;
    Next(2, 3, 3);
    Next(3, 4, 5);
    Next(5, 6, 7);
    Next(7, 8, 11);
    Next(11, 12, 13);
    Next(13, 14, 17);
    Next(17, 18, 19);
    Next(19, 20, 23);
  }

  lemma PrimesFrom8()
    ensures forall t :: 8 <= t < 16 ==> IsNextPrime(PRIMES[t], PRIMES[t + 1])
  {
    hide IsNextPrime;
    Next(23, 24, 29);
    Next(29, 30, 31);
    Next(31, 32, 37);
    Next(37, 38, 41);
    Next(41, 42, 43);
    Next(43, 44, 47);
    Next(47, 48, 53);
    Next(53, 54, 59);
  }

  lemma PrimesFrom16()
    ensures forall t :: 16 <= t < 24 ==> IsNextPrime(PRIMES[t], PRIMES[t + 1])
  {
    hide IsNextPrime;
    Next(59, 60, 61);
    Next(61, 62, 67);
    Next(67, 68, 71);
    Next(71, 72, 73);
    Next(73, 74, 79);
    Next(79, 80, 83);
    Next(83, 84, 89);
    Next(89, 90, 97);
  }

  lemma PrimesFrom24()
    ensures forall t :: 24 <= t < 32 ==> IsNextPrime(PRIMES[t], PRIMES[t + 1])
  {
    hide IsNextPrime;
    Next(97, 98, 101);
    Next(101, 102, 103);
    Next(103, 104, 107);
    Next(107, 108, 109);
    Next(109, 110, 113);
    Next(113, 114, 127);
    Next(127, 128, 131);
    Next(131, 132, 137);
  }

  lemma PrimesFrom32()
    ensures forall t :: 32 <= t < 40 ==> IsNextPrime(PRIMES[t], PRIMES[t + 1])
  {
    hide IsNextPrime;
    Next(137, 138, 139);
    Next(139, 140, 149);
    Next(149, 150, 151);
    Next(151, 152, 157);
    Next(157, 158, 163);
    Next(163, 164, 167);
    Next(167, 168, 173);
    Next(173, 174, 179);
  }

  lemma PrimesFrom40()
    ensures forall t :: 40 <= t < 48 ==> IsNextPrime(PRIMES[t], PRIMES[t + 1])
  {
    hide IsNextPrime;
    Next(179, 180, 181);
    Next(181, 182, 191);
    Next(191, 192, 193);
    Next(193, 194, 197);
    Next(197, 198, 199);
    Next(199, 200, 211);
    Next(211, 212, 223);
    Next(223, 224, 227);
  }

  lemma PrimesFrom48()
    ensures forall t :: 48 <= t < 56 ==> IsNextPrime(PRIMES[t], PRIMES[t + 1])
  {
    hide IsNextPrime;
    Next(227, 228, 229);
    Next(229, 230, 233);
    Next(233, 234, 239);
    Next(239, 240, 241);
    Next(241, 242, 251);
    Next(251, 252, 257);
    Next(257, 258, 263);
    Next(263, 264, 269);
  }

  lemma PrimesFrom56()
    ensures forall t :: 56 <= t < 63 ==> IsNextPrime(PRIMES[t], PRIMES[t + 1])
  {
    hide IsNextPrime;
    Next(269, 270, 271);
    Next(271, 272, 277);
    Next(277, 278, 281);
    Next(281, 282, 283);
    Next(283, 284, 293);
    Next(293, 294, 307);
    Next(307, 308, 311);
  }

  /** The list starts with the first prime, and goes on from each prime to the next. */
  lemma FirstPrimes()
    ensures |PRIMES| == 64 && PRIMES[0] == 2 && IsPrime(2)
    ensures forall t :: 0 <= t < 63 ==> IsNextPrime(PRIMES[t], PRIMES[t + 1])
  {
    PrimesFrom0();
    PrimesFrom8();
    PrimesFrom16();
    PrimesFrom24();
    PrimesFrom32();
    PrimesFrom40();
    PrimesFrom48();
    PrimesFrom56();
    PrimeExactly(2);
    hide IsNextPrime;
  }

  // ---- their roots ----------------------------------------------------------------------------------

  const TWO32: nat := 0x1_0000_0000
  const TWO64: nat := TWO32 * TWO32
  const TWO96: nat := TWO32 * TWO64

  function Square(x: nat): nat { x * x }
  function Cube(x: nat): nat { x * x * x }

  /** With the whole part c, the bits k are what of the cube root of p comes first after the point. */
  predicate CubeRootBits(k: Word32, p: nat, c: nat) {
    Cube(c * TWO32 + k as nat) <= p * TWO96 < Cube(c * TWO32 + k as nat + 1)
  }

  predicate SquareRootBits(k: Word32, p: nat, c: nat) {
    Square(c * TWO32 + k as nat) <= p * TWO64 < Square(c * TWO32 + k as nat + 1)
  }

  ghost predicate CubeRootFraction(k: Word32, p: nat) {
    exists c :: CubeRootBits(k, p, c)
  }

  ghost predicate SquareRootFraction(k: Word32, p: nat) {
    exists c :: SquareRootBits(k, p, c)
  }

  lemma RootsFrom0()
    ensures CubeRootBits(0x428a2f98, 2, 1) && CubeRootBits(0x71374491, 3, 1)
    ensures CubeRootBits(0xb5c0fbcf, 5, 1) && CubeRootBits(0xe9b5dba5, 7, 1)
    ensures CubeRootBits(0x3956c25b, 11, 2) && CubeRootBits(0x59f111f1, 13, 2)
    ensures CubeRootBits(0x923f82a4, 17, 2) && CubeRootBits(0xab1c5ed5, 19, 2)
  {}

  lemma RootsFrom8()
    ensures CubeRootBits(0xd807aa98, 23, 2) && CubeRootBits(0x12835b01, 29, 3)
    ensures CubeRootBits(0x243185be, 31, 3) && CubeRootBits(0x550c7dc3, 37, 3)
    ensures CubeRootBits(0x72be5d74, 41, 3) && CubeRootBits(0x80deb1fe, 43, 3)
    ensures CubeRootBits(0x9bdc06a7, 47, 3) && CubeRootBits(0xc19bf174, 53, 3)
  {}

  lemma RootsFrom16()
    ensures CubeRootBits(0xe49b69c1, 59, 3) && CubeRootBits(0xefbe4786, 61, 3)
    ensures CubeRootBits(0x0fc19dc6, 67, 4) && CubeRootBits(0x240ca1cc, 71, 4)
    ensures CubeRootBits(0x2de92c6f, 73, 4) && CubeRootBits(0x4a7484aa, 79, 4)
    ensures CubeRootBits(0x5cb0a9dc, 83, 4) && CubeRootBits(0x76f988da, 89, 4)
  {}

  lemma RootsFrom24()
    ensures CubeRootBits(0x983e5152, 97, 4) && CubeRootBits(0xa831c66d, 101, 4)
    ensures CubeRootBits(0xb00327c8, 103, 4) && CubeRootBits(0xbf597fc7, 107, 4)
    ensures CubeRootBits(0xc6e00bf3, 109, 4) && CubeRootBits(0xd5a79147, 113, 4)
    ensures CubeRootBits(0x06ca6351, 127, 5) && CubeRootBits(0x14292967, 131, 5)
  {}

  lemma RootsFrom32()
    ensures CubeRootBits(0x27b70a85, 137, 5) && CubeRootBits(0x2e1b2138, 139, 5)
    ensures CubeRootBits(0x4d2c6dfc, 149, 5) && CubeRootBits(0x53380d13, 151, 5)
    ensures CubeRootBits(0x650a7354, 157, 5) && CubeRootBits(0x766a0abb, 163, 5)
    ensures CubeRootBits(0x81c2c92e, 167, 5) && CubeRootBits(0x92722c85, 173, 5)
  {}

  lemma RootsFrom40()
    ensures CubeRootBits(0xa2bfe8a1, 179, 5) && CubeRootBits(0xa81a664b, 181, 5)
    ensures CubeRootBits(0xc24b8b70, 191, 5) && CubeRootBits(0xc76c51a3, 193, 5)
    ensures CubeRootBits(0xd192e819, 197, 5) && CubeRootBits(0xd6990624, 199, 5)
    ensures CubeRootBits(0xf40e3585, 211, 5) && CubeRootBits(0x106aa070, 223, 6)
  {}

  lemma RootsFrom48()
    ensures CubeRootBits(0x19a4c116, 227, 6) && CubeRootBits(0x1e376c08, 229, 6)
    ensures CubeRootBits(0x2748774c, 233, 6) && CubeRootBits(0x34b0bcb5, 239, 6)
    ensures CubeRootBits(0x391c0cb3, 241, 6) && CubeRootBits(0x4ed8aa4a, 251, 6)
    ensures CubeRootBits(0x5b9cca4f, 257, 6) && CubeRootBits(0x682e6ff3, 263, 6)
  {}

  lemma RootsFrom56()
    ensures CubeRootBits(0x748f82ee, 269, 6) && CubeRootBits(0x78a5636f, 271, 6)
    ensures CubeRootBits(0x84c87814, 277, 6) && CubeRootBits(0x8cc70208, 281, 6)
    ensures CubeRootBits(0x90befffa, 283, 6) && CubeRootBits(0xa4506ceb, 293, 6)
    ensures CubeRootBits(0xbef9a3f7, 307, 6) && CubeRootBits(0xc67178f2, 311, 6)
  {}

  lemma ConstantsFrom0()
    ensures RoundConstant(0) == 0x428a2f98 && RoundConstant(1) == 0x71374491 && RoundConstant(2) == 0xb5c0fbcf && RoundConstant(3) == 0xe9b5dba5
    ensures RoundConstant(4) == 0x3956c25b && RoundConstant(5) == 0x59f111f1 && RoundConstant(6) == 0x923f82a4 && RoundConstant(7) == 0xab1c5ed5
  {}

  lemma ConstantsFrom8()
    ensures RoundConstant(8) == 0xd807aa98 && RoundConstant(9) == 0x12835b01 && RoundConstant(10) == 0x243185be && RoundConstant(11) == 0x550c7dc3
    ensures RoundConstant(12) == 0x72be5d74 && RoundConstant(13) == 0x80deb1fe && RoundConstant(14) == 0x9bdc06a7 && RoundConstant(15) == 0xc19bf174
  {}

  lemma ConstantsFrom16()
    ensures RoundConstant(16) == 0xe49b69c1 && RoundConstant(17) == 0xefbe4786 && RoundConstant(18) == 0x0fc19dc6 && RoundConstant(19) == 0x240ca1cc
    ensures RoundConstant(20) == 0x2de92c6f && RoundConstant(21) == 0x4a7484aa && RoundConstant(22) == 0x5cb0a9dc && RoundConstant(23) == 0x76f988da
  {}

  lemma ConstantsFrom24()
    ensures RoundConstant(24) == 0x983e5152 && RoundConstant(25) == 0xa831c66d && RoundConstant(26) == 0xb00327c8 && RoundConstant(27) == 0xbf597fc7
    ensures RoundConstant(28) == 0xc6e00bf3 && RoundConstant(29) == 0xd5a79147 && RoundConstant(30) == 0x06ca6351 && RoundConstant(31) == 0x14292967
  {}

  lemma ConstantsFrom32()
    ensures RoundConstant(32) == 0x27b70a85 && RoundConstant(33) == 0x2e1b2138 && RoundConstant(34) == 0x4d2c6dfc && RoundConstant(35) == 0x53380d13
    ensures RoundConstant(36) == 0x650a7354 && RoundConstant(37) == 0x766a0abb && RoundConstant(38) == 0x81c2c92e && RoundConstant(39) == 0x92722c85
  {}

  lemma ConstantsFrom40()
    ensures RoundConstant(40) == 0xa2bfe8a1 && RoundConstant(41) == 0xa81a664b && RoundConstant(42) == 0xc24b8b70 && RoundConstant(43) == 0xc76c51a3
    ensures RoundConstant(44) == 0xd192e819 && RoundConstant(45) == 0xd6990624 && RoundConstant(46) == 0xf40e3585 && RoundConstant(47) == 0x106aa070
  {}

  lemma ConstantsFrom48()
    ensures RoundConstant(48) == 0x19a4c116 && RoundConstant(49) == 0x1e376c08 && RoundConstant(50) == 0x2748774c && RoundConstant(51) == 0x34b0bcb5
    ensures RoundConstant(52) == 0x391c0cb3 && RoundConstant(53) == 0x4ed8aa4a && RoundConstant(54) == 0x5b9cca4f && RoundConstant(55) == 0x682e6ff3
  {}

  lemma ConstantsFrom56()
    ensures RoundConstant(56) == 0x748f82ee && RoundConstant(57) == 0x78a5636f && RoundConstant(58) == 0x84c87814 && RoundConstant(59) == 0x8cc70208
    ensures RoundConstant(60) == 0x90befffa && RoundConstant(61) == 0xa4506ceb && RoundConstant(62) == 0xbef9a3f7 && RoundConstant(63) == 0xc67178f2
  {}

  lemma CubeRootsFrom0()
    ensures forall t :: 0 <= t < 8 ==> CubeRootFraction(RoundConstant(t), PRIMES[t])
  {
    hide RoundConstant, CubeRootBits;
    RootsFrom0();
    ConstantsFrom0();
  }

  lemma CubeRootsFrom8()
    ensures forall t :: 8 <= t < 16 ==> CubeRootFraction(RoundConstant(t), PRIMES[t])
  {
    hide RoundConstant, CubeRootBits;
    RootsFrom8();
    ConstantsFrom8();
  }

  lemma CubeRootsFrom16()
    ensures forall t :: 16 <= t < 24 ==> CubeRootFraction(RoundConstant(t), PRIMES[t])
  {
    hide RoundConstant, CubeRootBits;
    RootsFrom16();
    ConstantsFrom16();
  }

  lemma CubeRootsFrom24()
    ensures forall t :: 24 <= t < 32 ==> CubeRootFraction(RoundConstant(t), PRIMES[t])
  {
    hide RoundConstant, CubeRootBits;
    RootsFrom24();
    ConstantsFrom24();
  }

  lemma CubeRootsFrom32()
    ensures forall t :: 32 <= t < 40 ==> CubeRootFraction(RoundConstant(t), PRIMES[t])
  {
    hide RoundConstant, CubeRootBits;
    RootsFrom32();
    ConstantsFrom32();
  }

  lemma CubeRootsFrom40()
    ensures forall t :: 40 <= t < 48 ==> CubeRootFraction(RoundConstant(t), PRIMES[t])
  {
    hide RoundConstant, CubeRootBits;
    RootsFrom40();
    ConstantsFrom40();
  }

  lemma CubeRootsFrom48()
    ensures forall t :: 48 <= t < 56 ==> CubeRootFraction(RoundConstant(t), PRIMES[t])
  {
    hide RoundConstant, CubeRootBits;
    RootsFrom48();
    ConstantsFrom48();
  }

  lemma CubeRootsFrom56()
    ensures forall t :: 56 <= t < 64 ==> CubeRootFraction(RoundConstant(t), PRIMES[t])
  {
    hide RoundConstant, CubeRootBits;
    RootsFrom56();
    ConstantsFrom56();
  }

  /** Every round constant comes from its prime. */
  lemma RoundConstants(t: nat)
    requires t < 64
    ensures CubeRootFraction(RoundConstant(t), PRIMES[t])
  {
    hide CubeRootFraction, RoundConstant;
    CubeRootsFrom0();
    CubeRootsFrom8();
    CubeRootsFrom16();
    CubeRootsFrom24();
    CubeRootsFrom32();
    CubeRootsFrom40();
    CubeRootsFrom48();
    CubeRootsFrom56();
  }

  /** So does every word of the initial hash value. */
  lemma InitialWords(i: nat)
    requires i < 8
    ensures SquareRootFraction(Nth(INITIAL, i), PRIMES[i])
  {
    assert SquareRootBits(0x6a09e667, 2, 1);
    assert SquareRootBits(0xbb67ae85, 3, 1);
    assert SquareRootBits(0x3c6ef372, 5, 2);
    assert SquareRootBits(0xa54ff53a, 7, 2);
    assert SquareRootBits(0x510e527f, 11, 3);
    assert SquareRootBits(0x9b05688c, 13, 3);
    assert SquareRootBits(0x1f83d9ab, 17, 4);
    assert SquareRootBits(0x5be0cd19, 19, 4);
  }
}

/**
 Divisibility, greatest common divisors, primes, Fermat's little theorem and
 modular inverses: the mathematical meaning of mpz_gcd, mpz_lcm, mpz_invert and
 mpz_nextprime.
 */
module Primes {
  import opened Arithmetic

  // ---- divisibility ----------------------------------------------------------

  predicate Divides(d: int, n: int)
    requires 0 < d
  {
    n % d == 0
  }

  lemma DividesWitness(d: int, n: int, k: int)
    requires 0 < d && n == k * d
    ensures Divides(d, n)
  {
    DivModUnique(n, d, k, 0);
  }

  lemma DividesFactor(d: int, n: int) returns (k: int)
    requires 0 < d && Divides(d, n)
    ensures n == k * d && k == n / d
  {
    k := n / d;
    assert n == (n / d) * d + n % d;
  }

  lemma DividesTrans(d: int, m: int, n: int)
    requires 0 < d && 0 < m && Divides(d, m) && Divides(m, n)
    ensures Divides(d, n)
  {
    var k := DividesFactor(d, m);
    var l := DividesFactor(m, n);
    MulAssoc(l, k, d);
    DividesWitness(d, n, l * k);
  }

  lemma DividesLinear(d: int, a: int, b: int, x: int, y: int)
    requires 0 < d && Divides(d, a) && Divides(d, b)
    ensures Divides(d, a * x + b * y)
  {
    var k := DividesFactor(d, a);
    var l := DividesFactor(d, b);
    assert a * x + b * y == (k * x + l * y) * d;
    DividesWitness(d, a * x + b * y, k * x + l * y);
  }

  lemma DividesBound(d: int, n: int)
    requires 0 < d && 0 < n && Divides(d, n)
    ensures d <= n
  {
    var k := DividesFactor(d, n);
    if k <= 0 {
      MulMono(k, 0, d);
    } else {
      MulMono(1, k, d);
    }
  }

  /** mpz_gcd. */
  function Gcd(a: nat, b: nat): nat
    decreases b
  {
    if b == 0 then a else Gcd(b, a % b)
  }

  lemma {:induction false} Bezout(a: nat, b: nat) returns (x: int, y: int)
    requires 0 < a || 0 < b
    ensures 0 < Gcd(a, b) == a * x + b * y
    ensures Divides(Gcd(a, b), a) && Divides(Gcd(a, b), b)
    decreases b
  {
    if b == 0 {
      x, y := 1, 0;
      DividesWitness(a, a, 1);
      DividesWitness(a, 0, 0);
    } else {
      var u, v := Bezout(b, a % b);
      var d := Gcd(a, b);
      var k := a / b;
      assert a == k * b + a % b;
      x, y := v, u - k * v;
      BezoutStep(a, b, k, u, v);
      DividesLinear(d, b, a % b, k, 1);
    }
  }

  lemma BezoutStep(a: int, b: int, k: int, u: int, v: int)
    ensures b * u + (a - k * b) * v == a * v + b * (u - k * v)
  {}

  /** mpz_lcm of two positive numbers. */
  function Lcm(a: nat, b: nat): nat
    requires 0 < a && 0 < b
  {
    var x, y := a, Gcd(a, b);
    if y == 0 then 0 else
      MulNonNeg(x / y, b);
      (x / y) * b
  }

  lemma LcmIsCommonMultiple(a: nat, b: nat)
    requires 0 < a && 0 < b
    ensures 0 < Lcm(a, b) && Divides(a, Lcm(a, b)) && Divides(b, Lcm(a, b))
    ensures Divides(Gcd(a, b), a) && Lcm(a, b) == (a / Gcd(a, b)) * b
  {
    var x, y := Bezout(a, b);
    var d := Gcd(a, b);
    var k := DividesFactor(d, a);
    var l := DividesFactor(d, b);
    if k <= 0 { MulMono(k, 0, d); }
    MulMono(1, k, b);
    assert Lcm(a, b) == k * b;
    DividesWitness(b, k * b, k);
    assert k * b == k * (l * d) == l * (k * d) == l * a;
    DividesWitness(a, k * b, l);
  }

  // ---- primes ------------------------------------------------------------------

  predicate IsPrime(n: int) {
    2 <= n && forall d :: 2 <= d < n ==> !Divides(d, n)
  }

  lemma PrimeGcd(p: int, a: int)
    requires IsPrime(p) && !Divides(p, a)
    ensures 0 <= a % p && Gcd(a % p, p) == 1
  {
    CongMod(a, p);
    var u, v := Bezout(a % p, p);
    var d := Gcd(a % p, p);
    DividesBound(d, p);
    if d != 1 {
      assert a % p != 0;
      DividesBound(d, a % p);
    }
  }

  /** A number a prime does not divide has an inverse modulo the prime. */
  lemma PrimeCoprime(p: int, a: int) returns (x: int)
    requires IsPrime(p) && !Divides(p, a)
    ensures 0 <= x < p && Cong(a * x, 1, p)
  {
    PrimeGcd(p, a);
    CongMod(a, p);
    var u, v := Bezout(a % p, p);
    x := u % p;
    CongMod(u, p);
    hide Divides, IsPrime, Gcd;
    CongMul(a, a % p, x, u, p);
    MulNeg(v, p);
    MulComm(a % p, u);
    CongWitness((a % p) * u, 1, p, -v);
  }

  /** Euclid's lemma. */
  lemma PrimeDividesProduct(p: int, a: int, b: int)
    requires IsPrime(p) && Divides(p, a * b)
    ensures Divides(p, a) || Divides(p, b)
  {
    if !Divides(p, a) {
      var x := PrimeCoprime(p, a);
      var k := DividesFactor(p, a * b);
      var l := CongFactor(a * x, 1, p);
      assert b == (k * x - l * b) * p by {
        assert (a * x) * b == b + l * p * b;
        assert (a * x) * b == (a * b) * x == (k * p) * x;
        assert (k * x - l * b) * p == (k * p) * x - l * p * b;
      }
      DividesWitness(p, b, k * x - l * b);
    }
  }

  /** Cancelling a factor the prime does not divide. */
  lemma CongCancel(a: int, b: int, c: int, p: int)
    requires IsPrime(p) && !Divides(p, c) && Cong(a * c, b * c, p)
    ensures Cong(a, b, p)
  {
    CongZero(a * c, b * c, p);
    assert (a - b) * c == a * c - b * c;
    PrimeDividesProduct(p, a - b, c);
    CongZero(a, b, p);
  }

  lemma PrimeNotDividesSmall(p: int, a: int)
    requires IsPrime(p) && 0 < (if a < 0 then -a else a) < p
    ensures !Divides(p, a)
  {
    if Divides(p, a) {
      var k := DividesFactor(p, a);
      if 1 <= k { MulMono(1, k, p); } else if k <= -1 { MulMono(k, -1, p); }
    }
  }

  // ---- Fermat's little theorem ---------------------------------------------------

  function Choose(n: nat, k: nat): nat {
    if k == 0 then 1
    else if n == 0 then 0
    else Choose(n - 1, k - 1) + Choose(n - 1, k)
  }

  lemma {:induction false} ChooseAbsorb(n: nat, k: nat)
    requires 1 <= n && 1 <= k
    ensures k * Choose(n, k) == n * Choose(n - 1, k - 1)
  {
    if n == 1 {
      assert Choose(0, k) == 0;
      if k > 1 { assert Choose(0, k - 1) == 0; }
    } else {
      var c, d := Choose(n - 1, k - 1), Choose(n - 1, k);
      ChooseAbsorb(n - 1, k);
      assert k * d == (n - 1) * Choose(n - 2, k - 1);
      if k == 1 {
        assert c == 1 && Choose(n - 2, 0) == 1;
      } else {
        ChooseAbsorb(n - 1, k - 1);
        MulDistrib(n - 1, Choose(n - 2, k - 2), Choose(n - 2, k - 1));
        assert k * c == (k - 1) * c + c;
        MulDistrib(k, c, d);
        assert n * c == (n - 1) * c + c;
      }
    }
  }

  lemma {:induction false} ChooseBeyond(n: nat, k: nat)
    requires n < k
    ensures Choose(n, k) == 0
  {
    if n != 0 {
      ChooseBeyond(n - 1, k - 1);
      ChooseBeyond(n - 1, k);
    }
  }

  lemma PrimeDividesChoose(p: int, k: int)
    requires IsPrime(p) && 0 < k < p
    ensures Divides(p, Choose(p, k))
  {
    hide Choose, Divides, IsPrime;
    ChooseAbsorb(p, k);
    DividesWitness(p, k * Choose(p, k), Choose(p - 1, k - 1));
    PrimeDividesProduct(p, k, Choose(p, k));
    PrimeNotDividesSmall(p, k);
  }

  /** The first k terms of the binomial expansion of (x + 1) to the n. */
  function BinomialTerms(x: int, n: nat, k: nat): int {
    if k == 0 then 0 else BinomialTerms(x, n, k - 1) + Choose(n, k - 1) * Pow(x, k - 1)
  }

  lemma BinomialAlgebra(a: int, b: int, x: int, y: int, t: int)
    ensures (a + b) * (x * y) + x * t == b * (x * y) + x * (t + a * y)
  {
    MulDistrib(x, t, a * y);
    assert (a + b) * (x * y) == a * (x * y) + b * (x * y);
    assert x * (a * y) == a * (x * y);
  }

  lemma {:induction false} BinomialStep(x: int, n: nat, k: nat)
    ensures BinomialTerms(x, n + 1, k + 1) == BinomialTerms(x, n, k + 1) + x * BinomialTerms(x, n, k)
  {
    if k == 0 {
      assert BinomialTerms(x, n + 1, 1) == BinomialTerms(x, n + 1, 0) + Choose(n + 1, 0) * Pow(x, 0);
      assert BinomialTerms(x, n, 1) == BinomialTerms(x, n, 0) + Choose(n, 0) * Pow(x, 0);
    } else {
      BinomialStep(x, n, k - 1);
      var a, b, y, t := Choose(n, k - 1), Choose(n, k), Pow(x, k - 1), BinomialTerms(x, n, k - 1);
      assert Choose(n + 1, k) == a + b;
      assert Pow(x, k) == x * y;
      assert BinomialTerms(x, n, k) == t + a * y;
      assert BinomialTerms(x, n, k + 1) == t + a * y + b * (x * y);
      assert BinomialTerms(x, n + 1, k + 1) == BinomialTerms(x, n + 1, k) + (a + b) * (x * y);
      hide *;
      BinomialAlgebra(a, b, x, y, t);
    }
  }

  /** The term beyond the last one is zero. */
  lemma LastTermZero(x: int, n: nat)
    ensures BinomialTerms(x, n, n + 2) == BinomialTerms(x, n, n + 1)
  {
    ChooseBeyond(n, n + 1);
    hide Choose, Pow;
    var y := Pow(x, n + 1);
    assert Choose(n, n + 1) * y == 0;
  }

  lemma SuccTimes(x: int, s: int)
    ensures (x + 1) * s == s + x * s
  {}

  lemma {:induction false} BinomialTheorem(x: int, n: nat)
    ensures Pow(x + 1, n) == BinomialTerms(x, n, n + 1)
  {
    if n == 0 {
      assert BinomialTerms(x, 0, 1) == BinomialTerms(x, 0, 0) + Choose(0, 0) * Pow(x, 0);
    } else {
      hide BinomialTerms, Choose;
      BinomialTheorem(x, n - 1);
      BinomialStep(x, n - 1, n);
      LastTermZero(x, n - 1);
      SuccTimes(x, BinomialTerms(x, n - 1, n));
    }
  }

  lemma {:induction false} BinomialMiddleVanishes(x: int, p: int, k: nat)
    requires IsPrime(p) && 1 <= k <= p
    ensures Cong(BinomialTerms(x, p, k), 1, p)
  {
    if k == 1 {
      assert BinomialTerms(x, p, 1) == BinomialTerms(x, p, 0) + Choose(p, 0) * Pow(x, 0);
    } else {
      BinomialMiddleVanishes(x, p, k - 1);
      PrimeDividesChoose(p, k - 1);
      var c, y := Choose(p, k - 1), Pow(x, k - 1);
      CongMod(0, p);
      CongMul(c, 0, y, y, p);
      CongAdd(BinomialTerms(x, p, k - 1), 1, c * y, 0, p);
    }
  }

  lemma {:induction false} FermatAll(a: nat, p: int)
    requires IsPrime(p)
    ensures Cong(Pow(a, p), a, p)
  {
    if a == 0 {
      assert Pow(0, p) == 0 * Pow(0, p - 1) == 0;
    } else {
      FermatAll(a - 1, p);
      BinomialTheorem(a - 1, p);
      BinomialMiddleVanishes(a - 1, p, p);
      ChooseAbsorb(p, p);
      ChooseTop(p);
      var s := BinomialTerms(a - 1, p, p);
      assert Pow(a, p) == s + Choose(p, p) * Pow(a - 1, p);
      CongAdd(s, 1, Pow(a - 1, p), a - 1, p);
    }
  }

  lemma {:induction false} ChooseTop(n: nat)
    ensures Choose(n, n) == 1
  {
    if n != 0 {
      ChooseTop(n - 1);
      ChooseBeyond(n - 1, n);
    }
  }

  /** a^(p-1) = 1 modulo a prime p not dividing a. */
  lemma Fermat(a: nat, p: int)
    requires IsPrime(p) && !Divides(p, a)
    ensures Cong(Pow(a, p - 1), 1, p)
  {
    FermatAll(a, p);
    assert Pow(a, p - 1) * a == Pow(a, p);
    CongCancel(Pow(a, p - 1), 1, a, p);
  }

  // ---- mpz_invert ------------------------------------------------------------------

  /**
   The inverse of a modulo m. GMP leaves the result undefined when there is none;
   this is 0 then.
   */
  function Invert(a: int, m: int): int
    requires 0 < m
  {
    InvertFrom(a, m, 0)
  }

  function InvertFrom(a: int, m: int, x: nat): int
    requires 0 < m
    decreases m - x
  {
    if m <= x then 0
    else if Cong(a * x, 1, m) then x
    else InvertFrom(a, m, x + 1)
  }

  lemma {:induction false} InvertFromFinds(a: int, m: int, x: nat, y: int)
    requires 0 < m && x <= y < m && Cong(a * y, 1, m)
    ensures x <= InvertFrom(a, m, x) < m && Cong(a * InvertFrom(a, m, x), 1, m)
    decreases m - x
  {
    if !Cong(a * x, 1, m) { InvertFromFinds(a, m, x + 1, y); }
  }

  /** Whenever some y is an inverse of a, so is the number mpz_invert returns. */
  lemma InvertFinds(a: int, m: int, y: int)
    requires 0 < m && Cong(a * y, 1, m)
    ensures 0 <= Invert(a, m) < m && Cong(a * Invert(a, m), 1, m)
  {
    CongMod(y, m);
    CongMul(a, a, y % m, y, m);
    InvertFromFinds(a, m, 0, y % m);
  }

  lemma InvertPrime(a: int, p: int)
    requires IsPrime(p) && !Divides(p, a)
    ensures 0 <= Invert(a, p) < p && Cong(a * Invert(a, p), 1, p)
  {
    var x := PrimeCoprime(p, a);
    InvertFinds(a, p, x);
  }

  // ---- there is always a next prime --------------------------------------------------

  function Factorial(n: nat): nat {
    if n == 0 then 1 else MulNonNeg(n, Factorial(n - 1)); n * Factorial(n - 1)
  }

  lemma {:induction false} FactorialDivisible(n: nat, d: nat)
    requires 1 <= d <= n
    ensures Divides(d, Factorial(n)) && 1 <= Factorial(n)
  {
    MulMono(1, n, Factorial(n - 1));
    if n == d {
      if n > 1 { FactorialDivisible(n - 1, 1); }
      DividesWitness(d, Factorial(n), Factorial(n - 1));
    } else {
      FactorialDivisible(n - 1, d);
      var k := DividesFactor(d, Factorial(n - 1));
      MulAssoc(n, k, d);
      DividesWitness(d, Factorial(n), n * k);
    }
  }

  lemma ProductTwoModThree(d: int, k: int)
    requires (d * k) % 3 == 2
    ensures d % 3 == 2 || k % 3 == 2
  {
    CongMod(d, 3);
    CongMod(k, 3);
    CongMul(d, d % 3, k, k % 3, 3);
  }

  /** Every number that is not prime splits into two smaller factors. */
  lemma Composite(m: nat) returns (d: nat, k: nat)
    requires 2 <= m && !IsPrime(m)
    ensures 2 <= d < m && 2 <= k < m && m == d * k && Divides(d, m) && Divides(k, m)
  {
    var c :| 2 <= c < m && Divides(c, m);
    d := c;
    var j := DividesFactor(d, m);
    if j <= 0 { MulMono(j, 0, d); }
    assert j != 1;
    k := j;
    MulMono(2, d, k);
    DividesWitness(k, m, d);
  }

  /** A number that leaves 2 modulo 3 has a prime factor that leaves 2 modulo 3. */
  lemma {:induction false} PrimeFactorTwoModThree(m: nat) returns (f: nat)
    requires 2 <= m && m % 3 == 2
    ensures IsPrime(f) && f % 3 == 2 && Divides(f, m)
    decreases m
  {
    if IsPrime(m) {
      f := m;
      DividesWitness(m, m, 1);
    } else {
      hide IsPrime, Divides;
      var d, k := Composite(m);
      ProductTwoModThree(d, k);
      if d % 3 == 2 {
        f := PrimeFactorTwoModThree(d);
        DividesTrans(f, d, m);
      } else {
        f := PrimeFactorTwoModThree(k);
        DividesTrans(f, k, m);
      }
    }
  }

  /** Primes that leave 2 modulo 3 do not run out. */
  lemma PrimeTwoModThreeAbove(n: nat) returns (f: nat)
    ensures n < f && IsPrime(f) && f % 3 == 2
  {
    var k := n + 3;
    FactorialDivisible(k, 3);
    var m := 3 * Factorial(k) - 1;
    f := PrimeFactorTwoModThree(m);
    if f <= k {
      FactorialDivisible(k, f);
      DividesLinear(f, Factorial(k), m, 3, -1);
      DividesBound(f, 1);
    }
  }
}

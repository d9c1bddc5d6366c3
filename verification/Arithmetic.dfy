/**
 Integer arithmetic modulo m, powers and primes: the facts the election
 protocol, RSA and the fixed-width arithmetic rest on.

 Dafny's % is Euclidean, which is also what mpz_mod computes: the remainder is
 never negative.
 */
module Arithmetic {

  // ---- powers -------------------------------------------------------------

  function Pow(b: int, e: nat): int {
    if e == 0 then 1 else b * Pow(b, e - 1)
  }

  lemma {:induction false} PowAdd(b: int, x: nat, y: nat)
    ensures Pow(b, x + y) == Pow(b, x) * Pow(b, y)
  {
    if x == 0 {
    } else {
      PowAdd(b, x - 1, y);
      assert Pow(b, x + y) == b * (Pow(b, x - 1) * Pow(b, y));
      MulAssoc(b, Pow(b, x - 1), Pow(b, y));
    }
  }

  lemma {:induction false} PowMul(b: int, x: nat, y: nat)
    ensures 0 <= x * y && Pow(Pow(b, x), y) == Pow(b, x * y)
  {
    MulNonNeg(x, y);
    if y == 0 {
      assert x * y == 0;
    } else {
      PowMul(b, x, y - 1);
      MulDistrib(x, y - 1, 1);
      PowAdd(b, x, x * (y - 1));
    }
  }

  lemma {:induction false} PowDistrib(a: int, b: int, e: nat)
    ensures Pow(a * b, e) == Pow(a, e) * Pow(b, e)
  {
    if e != 0 {
      PowDistrib(a, b, e - 1);
      var x, y := Pow(a, e - 1), Pow(b, e - 1);
      MulSwap(a, b, x, y);
    }
  }

  lemma {:induction false} PowOne(e: nat)
    ensures Pow(1, e) == 1
  {
    if e != 0 { PowOne(e - 1); }
  }

  lemma {:induction false} PowPositive(b: int, e: nat)
    requires 1 <= b
    ensures 1 <= Pow(b, e)
  {
    if e != 0 {
      PowPositive(b, e - 1);
      MulMono(1, Pow(b, e - 1), b);
    }
  }

  lemma {:induction false} PowMono(b: int, x: nat, y: nat)
    requires 1 <= b && x <= y
    ensures Pow(b, x) <= Pow(b, y)
    decreases y
  {
    if x < y {
      PowMono(b, x, y - 1);
      PowPositive(b, y - 1);
      MulMono(1, b, Pow(b, y - 1));
    }
  }

  // ---- products, kept away from the solver's nonlinear heuristics ----------

  lemma MulAssoc(a: int, b: int, c: int)
    ensures a * (b * c) == (a * b) * c
  {}

  lemma MulComm(a: int, b: int)
    ensures a * b == b * a
  {}

  lemma MulExchange(n: int, x: int, y: int)
    ensures n * x * y == n * y * x
  {}

  lemma MulDistrib(a: int, b: int, c: int)
    ensures a * (b + c) == a * b + a * c && a * (b - c) == a * b - a * c
  {}

  lemma MulLeft(a: int, b: int, c: int)
    ensures a * (b * c) == b * (a * c)
  {
    MulAssoc(a, b, c);
    MulComm(a, b);
    MulAssoc(b, a, c);
  }

  lemma MulNeg(a: int, b: int)
    ensures (-a) * b == -(a * b)
  {}

  lemma MulSwap(a: int, b: int, x: int, y: int)
    ensures (a * b) * (x * y) == (a * x) * (b * y)
  {}

  lemma MulNonNeg(a: int, b: int)
    requires 0 <= a && 0 <= b
    ensures 0 <= a * b
  {}

  lemma MulMono(a: int, b: int, c: int)
    requires a <= b && 0 <= c
    ensures a * c <= b * c && c * a <= c * b
  {}

  lemma MulCancelLess(a: int, b: int, c: int)
    requires 0 < c && a * c < b * c
    ensures a < b
  {
    if b <= a { MulMono(b, a, c); }
  }

  // ---- quotient and remainder ----------------------------------------------

  lemma DivModUnique(x: int, m: int, k: int, r: int)
    requires 0 < m && x == k * m + r && 0 <= r < m
    ensures x / m == k && x % m == r
  {
    var k', r' := x / m, x % m;
    assert x == k' * m + r';
    assert (k' - k) * m == r - r';
    if k < k' {
      MulMono(1, k' - k, m);
    } else if k' < k {
      MulMono(k' - k, -1, m);
    }
  }

  /** a and b leave the same remainder. */
  predicate Cong(a: int, b: int, m: int)
    requires 0 < m
  {
    a % m == b % m
  }

  lemma CongWitness(a: int, b: int, m: int, k: int)
    requires 0 < m && a == b + k * m
    ensures Cong(a, b, m)
  {
    var q, r := b / m, b % m;
    assert b == q * m + r;
    assert (q + k) * m == q * m + k * m;
    DivModUnique(a, m, q + k, r);
  }

  lemma CongFactor(a: int, b: int, m: int) returns (k: int)
    requires 0 < m && Cong(a, b, m)
    ensures a == b + k * m
  {
    k := a / m - b / m;
    assert a == (a / m) * m + a % m && b == (b / m) * m + b % m;
    assert (a / m - b / m) * m == (a / m) * m - (b / m) * m;
  }

  lemma CongMod(a: int, m: int)
    requires 0 < m
    ensures 0 <= a % m < m && Cong(a % m, a, m) && (0 <= a < m ==> a % m == a)
  {
    assert a == (a / m) * m + a % m;
    CongWitness(a % m, a, m, -(a / m));
    if 0 <= a < m { DivModUnique(a, m, 0, a); }
  }

  lemma CongAdd(a: int, b: int, c: int, d: int, m: int)
    requires 0 < m && Cong(a, b, m) && Cong(c, d, m)
    ensures Cong(a + c, b + d, m) && Cong(a - c, b - d, m)
  {
    var k := CongFactor(a, b, m);
    var l := CongFactor(c, d, m);
    assert (k + l) * m == k * m + l * m && (k - l) * m == k * m - l * m;
    CongWitness(a + c, b + d, m, k + l);
    CongWitness(a - c, b - d, m, k - l);
  }

  lemma ProductOfShifted(b: int, d: int, k: int, l: int, m: int)
    ensures (b + k * m) * (d + l * m) == b * d + (b * l + k * d + k * (l * m)) * m
  {
    var x, y := k * m, l * m;
    assert (b + x) * (d + y) == b * d + b * y + x * d + x * y;
    MulAssoc(b, l, m);
    assert x * d == (k * d) * m;
    assert x * y == (k * y) * m;
    MulDistrib(m, b * l + k * d, k * y);
    MulDistrib(m, b * l, k * d);
  }

  lemma CongMul(a: int, b: int, c: int, d: int, m: int)
    requires 0 < m && Cong(a, b, m) && Cong(c, d, m)
    ensures Cong(a * c, b * d, m)
  {
    var k := CongFactor(a, b, m);
    var l := CongFactor(c, d, m);
    ProductOfShifted(b, d, k, l, m);
    CongWitness(a * c, b * d, m, b * l + k * d + k * (l * m));
  }

  lemma CongScale(k: int, a: int, b: int, m: int)
    requires 0 < m && Cong(a, b, m)
    ensures Cong(k * a, k * b, m) && Cong(a * k, b * k, m)
  {
    CongMul(k, k, a, b, m);
    CongMul(a, b, k, k, m);
  }

  lemma CongTrans(a: int, b: int, c: int, m: int)
    requires 0 < m && Cong(a, b, m) && Cong(b, c, m)
    ensures Cong(a, c, m) && Cong(c, a, m)
  {}

  lemma {:induction false} CongPow(a: int, b: int, e: nat, m: int)
    requires 0 < m && Cong(a, b, m)
    ensures Cong(Pow(a, e), Pow(b, e), m)
  {
    if e != 0 {
      CongPow(a, b, e - 1, m);
      CongMul(a, b, Pow(a, e - 1), Pow(b, e - 1), m);
    }
  }

  lemma CongSmall(a: int, b: int, m: int)
    requires 0 <= a < m && 0 <= b < m && Cong(a, b, m)
    ensures a == b
  {
    CongMod(a, m);
    CongMod(b, m);
  }

  lemma CongZero(a: int, b: int, m: int)
    requires 0 < m
    ensures Cong(a, b, m) <==> (a - b) % m == 0
  {
    CongMod(0, m);
    if Cong(a, b, m) {
      CongAdd(a, b, b, b, m);
    }
    if (a - b) % m == 0 {
      CongAdd(a - b, 0, b, b, m);
    }
  }
}

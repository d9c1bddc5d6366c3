/**
 The group the protocol computes in: the globals p, q and generator of bignum.c
 and the modular operations on them.

 The facts about the concrete constants that the protocol needs (p and q prime,
 generator of order q modulo p) are the predicate Valid.
 */
module Group {
  import opened Arithmetic
  import opened Primes

  datatype Group = Group(p: int, q: int, g: int) {
    ghost predicate Valid() {
      && IsPrime(p) && IsPrime(q)
      && 1 < g < p
      && Cong(Pow(g, q), 1, p)
    }

    predicate Positive() { 0 < p && 0 < q }

    function PowModP(b: int, e: nat): int requires Positive() { Pow(b, e) % p }
    function PowModQ(b: int, e: nat): int requires Positive() { Pow(b, e) % q }
    function MulModP(a: int, b: int): int requires Positive() { (a * b) % p }
    function AddModQ(a: int, b: int): (r: nat) requires Positive() { (a + b) % q }
    function SubModQ(a: int, b: int): (r: nat) requires Positive() { (a - b) % q }
    function MulModQ(a: int, b: int): (r: nat) requires Positive() { (a * b) % q }
    function DivModP(a: int, b: int): int requires Positive() { MulModP(a, Invert(b, p)) }
    function DivModQ(a: int, b: int): (r: nat) requires Positive() { MulModQ(a, Invert(b, q)) }

    /** x raised to any integer, by reducing the exponent: meant for x with x^q = 1. */
    function Exp(x: int, e: int): int requires Positive() { Pow(x, e % q) % p }

    /** x is a reduced element whose order divides q. */
    ghost predicate OrderQ(x: int) requires Positive() {
      0 <= x < p && Cong(Pow(x, q), 1, p)
    }

    /** x is a power of the generator. */
    ghost predicate InSubgroup(x: int) requires Positive() {
      exists e: int :: x == Exp(g, e)
    }
  }

  // ---- laws of Exp -------------------------------------------------------------

  lemma ExpCong(G: Group, x: int, a: int, b: int)
    requires G.Positive() && Cong(a, b, G.q)
    ensures G.Exp(x, a) == G.Exp(x, b)
  {}

  lemma ExpRange(G: Group, x: int, a: int)
    requires G.Positive()
    ensures 0 <= G.Exp(x, a) < G.p
  {
    CongMod(Pow(x, a % G.q), G.p);
  }

  /** pow_mod_p agrees with Exp on elements of order q. */
  lemma PowModPIsExp(G: Group, x: int, e: nat)
    requires G.Positive() && Cong(Pow(x, G.q), 1, G.p)
    ensures G.PowModP(x, e) == G.Exp(x, e)
  {
    var k, r := e / G.q, e % G.q;
    assert e == G.q * k + r;
    assert 0 <= k by { if k < 0 { MulMono(k, -1, G.q); } }
    PowMul(x, G.q, k);
    PowAdd(x, G.q * k, r);
    CongPow(Pow(x, G.q), 1, k, G.p);
    PowOne(k);
    CongMul(Pow(x, G.q * k), 1, Pow(x, r), Pow(x, r), G.p);
  }

  lemma ExpAdd(G: Group, x: int, a: int, b: int)
    requires G.Positive() && Cong(Pow(x, G.q), 1, G.p)
    ensures G.MulModP(G.Exp(x, a), G.Exp(x, b)) == G.Exp(x, a + b)
  {
    var a', b' := a % G.q, b % G.q;
    PowAdd(x, a', b');
    CongMod(Pow(x, a'), G.p);
    CongMod(Pow(x, b'), G.p);
    CongMul(G.Exp(x, a), Pow(x, a'), G.Exp(x, b), Pow(x, b'), G.p);
    PowModPIsExp(G, x, a' + b');
    CongMod(a, G.q);
    CongMod(b, G.q);
    CongAdd(a', a, b', b, G.q);
    ExpCong(G, x, a' + b', a + b);
  }

  lemma ExpOrderQ(G: Group, x: int, a: int)
    requires G.Positive() && Cong(Pow(x, G.q), 1, G.p)
    ensures G.OrderQ(G.Exp(x, a))
  {
    var a' := a % G.q;
    ExpRange(G, x, a);
    CongMod(Pow(x, a'), G.p);
    CongPow(G.Exp(x, a), Pow(x, a'), G.q, G.p);
    PowMul(x, a', G.q);
    PowMul(x, G.q, a');
    assert a' * G.q == G.q * a';
    CongPow(Pow(x, G.q), 1, a', G.p);
    PowOne(a');
  }

  lemma ExpMul(G: Group, x: int, a: int, b: int)
    requires G.Positive() && Cong(Pow(x, G.q), 1, G.p)
    ensures G.Exp(G.Exp(x, a), b) == G.Exp(x, a * b)
  {
    var a', b' := a % G.q, b % G.q;
    CongMod(Pow(x, a'), G.p);
    CongPow(G.Exp(x, a), Pow(x, a'), b', G.p);
    PowMul(x, a', b');
    PowModPIsExp(G, x, a' * b');
    CongMod(a, G.q);
    CongMod(b, G.q);
    CongMul(a', a, b', b, G.q);
    ExpCong(G, x, a' * b', a * b);
  }

  lemma ExpProduct(G: Group, x: int, y: int, a: int)
    requires G.Positive()
    ensures G.Exp(G.MulModP(x, y), a) == G.MulModP(G.Exp(x, a), G.Exp(y, a))
  {
    var a' := a % G.q;
    CongMod(x * y, G.p);
    CongPow(G.MulModP(x, y), x * y, a', G.p);
    PowDistrib(x, y, a');
    CongMod(Pow(x, a'), G.p);
    CongMod(Pow(y, a'), G.p);
    CongMul(G.Exp(x, a), Pow(x, a'), G.Exp(y, a), Pow(y, a'), G.p);
  }

  lemma ExpOne(G: Group, x: int)
    requires G.Positive() && 1 < G.p && 0 <= x < G.p && 1 < G.q
    ensures G.Exp(x, 1) == x && G.Exp(x, 0) == 1
  {
    CongMod(1, G.q);
    CongMod(0, G.q);
    assert Pow(x, 1) == x * Pow(x, 0) == x;
    CongMod(x, G.p);
    CongMod(1, G.p);
  }

  // ---- division ----------------------------------------------------------------

  lemma ExpInverse(G: Group, x: int, a: int)
    requires G.Positive() && 1 < G.p && 1 < G.q && Cong(Pow(x, G.q), 1, G.p)
    ensures Cong(G.Exp(x, a) * G.Exp(x, -a), 1, G.p)
  {
    ExpAdd(G, x, a, -a);
    CongMod(0, G.q);
    CongMod(G.Exp(x, a) * G.Exp(x, -a), G.p);
  }

  /** Multiplication by an invertible element can be cancelled. */
  lemma MulCancelP(G: Group, x: int, x': int, y: int, z: int)
    requires G.Positive() && Cong(x * x', 1, G.p)
    requires Cong(x * y, x * z, G.p)
    ensures Cong(y, z, G.p)
  {
    CongMul(x', x', x * y, x * z, G.p);
    MulAssoc(x', x, y);
    MulAssoc(x', x, z);
    assert x' * x == x * x';
    CongMul(x * x', 1, y, y, G.p);
    CongMul(x * x', 1, z, z, G.p);
  }

  /** div_mod_p on elements of order q multiplies by the opposite power. */
  lemma DivModPIsExp(G: Group, y: int, x: int, a: int)
    requires G.Positive() && 1 < G.p && 1 < G.q && Cong(Pow(x, G.q), 1, G.p)
    ensures G.DivModP(y, G.Exp(x, a)) == G.MulModP(y, G.Exp(x, -a))
  {
    var d := G.Exp(x, a);
    ExpInverse(G, x, a);
    InvertFinds(d, G.p, G.Exp(x, -a));
    MulCancelP(G, d, G.Exp(x, -a), Invert(d, G.p), G.Exp(x, -a));
    CongMul(y, y, Invert(d, G.p), G.Exp(x, -a), G.p);
  }

  lemma ExpDiv(G: Group, x: int, a: int, b: int)
    requires G.Positive() && 1 < G.p && 1 < G.q && Cong(Pow(x, G.q), 1, G.p)
    ensures G.DivModP(G.Exp(x, a), G.Exp(x, b)) == G.Exp(x, a - b)
  {
    DivModPIsExp(G, G.Exp(x, a), x, b);
    ExpAdd(G, x, a, -b);
  }

  // ---- the generator has order exactly q ------------------------------------------

  lemma GeneratorInjective(G: Group, a: int, b: int)
    requires G.Valid()
    ensures G.Exp(G.g, a) == G.Exp(G.g, b) <==> Cong(a, b, G.q)
  {
    if Cong(a, b, G.q) {
      ExpCong(G, G.g, a, b);
    } else if G.Exp(G.g, a) == G.Exp(G.g, b) {
      ExpDiv(G, G.g, a, b);
      ExpDiv(G, G.g, b, b);
      var d := a - b;
      CongMod(0, G.q);
      assert G.Exp(G.g, d) == 1 by { ExpOne(G, G.g); }
      CongZero(a, b, G.q);
      var u := PrimeCoprime(G.q, d);
      ExpMul(G, G.g, d, u);
      ExpCong(G, G.g, d * u, 1);
      ExpOne(G, G.g);
      PowOne(u % G.q);
      assert false;
    }
  }

  lemma ExpInSubgroup(G: Group, e: int)
    requires G.Valid()
    ensures G.InSubgroup(G.Exp(G.g, e)) && G.OrderQ(G.Exp(G.g, e))
  {
    ExpOrderQ(G, G.g, e);
  }

  lemma GeneratorPower(G: Group, e: nat)
    requires G.Valid()
    ensures G.PowModP(G.g, e) == G.Exp(G.g, e)
  {
    PowModPIsExp(G, G.g, e);
  }
}

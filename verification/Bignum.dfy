/**
 The parts of bignum.c that are more than one modular operation: the discrete
 logarithm by search, and which numbers the fixed-width exports accept.
 */
module Bignum {
  import opened Arithmetic
  import opened Primes
  import opened Group

  const WORD: nat := 0x1_0000_0000_0000_0000
  const WORDS_4096: nat := 64
  const WORDS_256: nat := 4

  /** The literal that log_generator_mod_p compares its argument with. */
  const MAX_DECRYPTION: int := 5000000

  /** export_to_64_t succeeds: the number fills exactly ct 64-bit words. */
  predicate Fills(v: int, ct: nat) {
    1 <= ct && Pow(WORD, ct - 1) <= v < Pow(WORD, ct)
  }

  /** export_to_64_t_pad succeeds: the number needs at most ct words. */
  predicate FillsPadded(v: int, ct: nat) {
    0 <= v < Pow(WORD, ct)
  }

  /** The exponent below q of a power of the generator. */
  ghost function DiscreteLog(G: Group, a: int): (e: nat)
    requires G.Valid() && G.InSubgroup(a)
    ensures e < G.q && G.Exp(G.g, e) == a
  {
    ExponentBelowQ(G, a);
    var e :| 0 <= e < G.q && G.Exp(G.g, e) == a;
    e
  }

  lemma ExponentBelowQ(G: Group, a: int)
    requires G.Valid() && G.InSubgroup(a)
    ensures exists e :: 0 <= e < G.q && G.Exp(G.g, e) == a
  {
    var x: int :| a == G.Exp(G.g, x);
    CongMod(x, G.q);
    ExpCong(G, G.g, x % G.q, x);
    assert G.Exp(G.g, x % G.q) == a;
  }

  lemma DiscreteLogUnique(G: Group, e: int)
    requires G.Valid() && 0 <= e < G.q
    ensures G.InSubgroup(G.Exp(G.g, e)) && DiscreteLog(G, G.Exp(G.g, e)) == e
  {
    var l := DiscreteLog(G, G.Exp(G.g, e));
    GeneratorInjective(G, l, e);
    CongSmall(l, e, G.q);
  }

  /**
   log_generator_mod_p. For an argument that is neither a power of the generator
   nor the compared literal the search never ends, so callers may not pass one.
   */
  method LogGeneratorModP(G: Group, a: int) returns (ok: bool, result: nat)
    requires G.Valid()
    requires G.InSubgroup(a) || a == MAX_DECRYPTION
    ensures ok <==> a == 1 || a != MAX_DECRYPTION
    ensures ok ==> G.InSubgroup(a) && result == DiscreteLog(G, a)
  {
    result := 0;
    var powmod := 1;
    ExpOne(G, G.g);
    while powmod != a
      invariant powmod == G.Exp(G.g, result) && result < G.q
      invariant result == 0 || a != MAX_DECRYPTION
      invariant G.InSubgroup(a) ==> result <= DiscreteLog(G, a)
      decreases G.q - result
    {
      result := result + 1;
      ExpAdd(G, G.g, result - 1, 1);
      powmod := G.MulModP(powmod, G.g);
      if a == MAX_DECRYPTION {
        return false, result;
      }
    }
    ok := true;
    ExpInSubgroup(G, result);
    DiscreteLogUnique(G, result);
  }
}

/**
 Keys, shares and ciphertexts (crypto.c): trustee polynomials, the check of a
 share against its commitments, the joint key, and additively homomorphic ElGamal.
 */
module Crypto {
  import opened Arithmetic
  import opened Primes
  import opened Group
  import opened Interpolation
  import Rsa

  datatype Encryption = Encryption(nonceEncoding: int, messageEncoding: int)

  // ---- polynomial shares ------------------------------------------------------------

  method ComputeTrusteePolynomial(G: Group, coefficients: seq<nat>, index: nat) returns (out: nat)
    requires G.Valid()
    ensures out == Poly(coefficients, index) % G.q
  {
    out := 0;
    CongMod(0, G.q);
    for i := 0 to |coefficients|
      invariant out == PolyTerms(coefficients, index, i) % G.q
    {
      var t1 := G.PowModQ(index, i);
      var t2 := G.MulModQ(coefficients[i], t1);
      PolynomialStep(G, coefficients[i], index, i, out, PolyTerms(coefficients, index, i));
      out := G.AddModQ(out, t2);
    }
  }

  lemma PolynomialStep(G: Group, a: int, x: int, i: nat, out: int, sum: int)
    requires G.Valid() && out == sum % G.q
    ensures G.AddModQ(out, G.MulModQ(a, G.PowModQ(x, i))) == (sum + a * Pow(x, i)) % G.q
  {
    var q, y := G.q, Pow(x, i);
    CongMod(y, q);
    CongScale(a, y % q, y, q);
    CongMod(a * (y % q), q);
    CongMod(sum, q);
    CongAdd(out, sum, G.MulModQ(a, G.PowModQ(x, i)), a * y, q);
  }

  /** A share of the polynomial for the trustee at this index, wrapped in its key. */
  method CreateEncryptedKeyShare(G: Group, rsaKey: Rsa.PublicKey, coefficients: seq<nat>, index: nat)
    returns (encrypted: nat)
    requires G.Valid() && 0 < rsaKey.n
    ensures encrypted == Rsa.Encrypt(Rsa.Residue(Poly(coefficients, index + 1), G.q), rsaKey)
  {
    var out := ComputeTrusteePolynomial(G, coefficients, index + 1);
    encrypted := Rsa.Encrypt(out, rsaKey);
  }

  /** Commitments to coefficients: generator powers, as gen_keypair publishes them. */
  ghost predicate Commits(G: Group, commitments: seq<int>, coefficients: seq<nat>)
    requires G.Positive()
  {
    && |commitments| == |coefficients|
    && forall i :: 0 <= i < |commitments| ==> commitments[i] == G.PowModP(G.g, coefficients[i])
  }

  /** The commitments combined at x: the product of commitment i to the x^i. */
  function CombinedCommitment(G: Group, commitments: seq<int>, x: nat, k: nat): int
    requires G.Positive() && k <= |commitments|
  {
    if k == 0 then
      1
    else (
      PowNonNeg(x, k - 1);
      G.MulModP(CombinedCommitment(G, commitments, x, k - 1), G.PowModP(commitments[k - 1], Pow(x, k - 1)))
    )
  }

  lemma {:induction false} PowNonNeg(x: nat, e: nat)
    ensures 0 <= Pow(x, e)
  {
    if e != 0 {
      PowNonNeg(x, e - 1);
      MulNonNeg(x, Pow(x, e - 1));
    }
  }

  method CheckShareAgainstPublicKeys(G: Group, share: nat, commitments: seq<int>, key: Rsa.PrivateKey, myIndex: nat)
    returns (isValid: bool)
    requires G.Valid() && 0 < key.n
    ensures isValid == (CombinedCommitment(G, commitments, myIndex + 1, |commitments|)
                        == G.PowModP(G.g, Rsa.Decrypt(share, key)))
  {
    var out1 := 1;
    for i := 0 to |commitments|
      invariant out1 == CombinedCommitment(G, commitments, myIndex + 1, i)
    {
      PowNonNeg(myIndex + 1, i);
      var exp := Pow(myIndex + 1, i);
      out1 := G.MulModP(out1, G.PowModP(commitments[i], exp));
    }
    var origin := Rsa.Decrypt(share, key);
    var out2 := G.PowModP(G.g, origin);
    isValid := out1 == out2;
  }

  /** For honest commitments the combination is the generator to the polynomial's value. */
  lemma {:induction false} CombinedCommitmentIsPower(G: Group, commitments: seq<int>, c: seq<nat>, x: nat, k: nat)
    requires G.Valid() && Commits(G, commitments, c) && k <= |c|
    ensures CombinedCommitment(G, commitments, x, k) == G.Exp(G.g, PolyTerms(c, x, k))
  {
    if k == 0 {
      ExpOne(G, G.g);
    } else {
      CombinedCommitmentIsPower(G, commitments, c, x, k - 1);
      PowNonNeg(x, k - 1);
      var y := Pow(x, k - 1);
      GeneratorPower(G, c[k - 1]);
      ExpOrderQ(G, G.g, c[k - 1]);
      PowModPIsExp(G, commitments[k - 1], y);
      ExpMul(G, G.g, c[k - 1], y);
      ExpAdd(G, G.g, PolyTerms(c, x, k - 1), c[k - 1] * y);
    }
  }

  /**
   Verifiable sharing: against honest commitments the check accepts exactly the
   shares that decrypt to the polynomial's value modulo q.
   */
  lemma ShareCheckExact(G: Group, share: nat, commitments: seq<int>, c: seq<nat>, key: Rsa.PrivateKey, myIndex: nat)
    requires G.Valid() && 0 < key.n && Commits(G, commitments, c)
    ensures CombinedCommitment(G, commitments, myIndex + 1, |commitments|) == G.PowModP(G.g, Rsa.Decrypt(share, key))
       <==> Cong(Rsa.Decrypt(share, key), Poly(c, myIndex + 1), G.q)
  {
    CombinedCommitmentIsPower(G, commitments, c, myIndex + 1, |c|);
    GeneratorPower(G, Rsa.Decrypt(share, key));
    GeneratorInjective(G, Rsa.Decrypt(share, key), Poly(c, myIndex + 1));
  }

  /** An honestly created share decrypts to the value and passes the check. */
  lemma HonestShareAccepted(G: Group, commitments: seq<int>, c: seq<nat>, key: Rsa.PrivateKey, myIndex: nat)
    requires G.Valid() && Rsa.ValidKey(key) && G.q <= key.n && Commits(G, commitments, c)
    ensures
      var value := Rsa.Residue(Poly(c, myIndex + 1), G.q);
      var share := Rsa.Encrypt(value, Rsa.PublicKey(key.n, key.e));
      && Rsa.Decrypt(share, key) == value
      && CombinedCommitment(G, commitments, myIndex + 1, |commitments|) == G.PowModP(G.g, Rsa.Decrypt(share, key))
  {
    var value := Rsa.Residue(Poly(c, myIndex + 1), G.q);
    CongMod(Poly(c, myIndex + 1), G.q);
    Rsa.DecryptEncrypt(value, key);
    ShareCheckExact(G, Rsa.Encrypt(value, Rsa.PublicKey(key.n, key.e)), commitments, c, key, myIndex);
  }

  // ---- the joint key -------------------------------------------------------------------

  function ProductModP(G: Group, xs: seq<int>): int
    requires G.Positive()
  {
    if xs == [] then 1 else G.MulModP(ProductModP(G, xs[..|xs| - 1]), xs[|xs| - 1])
  }

  method GenerateJointPublicKey(G: Group, publicKeys: seq<seq<int>>) returns (key: int)
    requires G.Positive() && forall k :: k in publicKeys ==> 0 < |k|
    ensures key == ProductModP(G, seq(|publicKeys|, i requires 0 <= i < |publicKeys| => publicKeys[i][0]))
  {
    key := 1;
    ghost var firsts := seq(|publicKeys|, i requires 0 <= i < |publicKeys| => publicKeys[i][0]);
    for i := 0 to |publicKeys|
      invariant key == ProductModP(G, firsts[..i])
    {
      assert firsts[..i + 1][..i] == firsts[..i];
      key := G.MulModP(key, publicKeys[i][0]);
    }
    assert firsts[..|publicKeys|] == firsts;
  }

  function Sum(xs: seq<int>): int {
    if xs == [] then 0 else Sum(xs[..|xs| - 1]) + xs[|xs| - 1]
  }

  /** A product of generator powers is the generator to the sum. */
  lemma {:induction false} ProductOfPowers(G: Group, xs: seq<int>, es: seq<int>)
    requires G.Valid() && |xs| == |es| && forall i :: 0 <= i < |xs| ==> xs[i] == G.Exp(G.g, es[i])
    ensures ProductModP(G, xs) == G.Exp(G.g, Sum(es))
  {
    if xs == [] {
      ExpOne(G, G.g);
    } else {
      var n := |xs| - 1;
      ProductOfPowers(G, xs[..n], es[..n]);
      ExpAdd(G, G.g, Sum(es[..n]), es[n]);
    }
  }

  // ---- ElGamal --------------------------------------------------------------------------

  /** The encryption of a group element under the joint key with this nonce. */
  function Encrypt(G: Group, key: int, nonce: nat, message: int): Encryption
    requires G.Positive()
  {
    Encryption(G.PowModP(G.g, nonce), G.MulModP(G.PowModP(key, nonce), message))
  }

  const ZERO := Encryption(1, 1)

  function HomomorphicAdd(G: Group, a: Encryption, b: Encryption): Encryption
    requires G.Positive()
  {
    Encryption(G.MulModP(a.nonceEncoding, b.nonceEncoding), G.MulModP(a.messageEncoding, b.messageEncoding))
  }

  /** e encrypts g^t with nonce r under the key whose secret is s. */
  ghost predicate Encrypts(G: Group, s: int, e: Encryption, r: int, t: int)
    requires G.Positive()
  {
    e.nonceEncoding == G.Exp(G.g, r) && e.messageEncoding == G.Exp(G.g, s * r + t)
  }

  lemma EncryptEncrypts(G: Group, s: int, nonce: nat, t: int)
    requires G.Valid()
    ensures Encrypts(G, s, Encrypt(G, G.Exp(G.g, s), nonce, G.Exp(G.g, t)), nonce, t)
  {
    GeneratorPower(G, nonce);
    ExpOrderQ(G, G.g, s);
    PowModPIsExp(G, G.Exp(G.g, s), nonce);
    ExpMul(G, G.g, s, nonce);
    ExpAdd(G, G.g, s * nonce, t);
  }

  lemma ZeroEncrypts(G: Group, s: int)
    requires G.Valid()
    ensures Encrypts(G, s, ZERO, 0, 0)
  {
    ExpOne(G, G.g);
  }

  /** Adding ciphertexts adds what they encrypt. */
  lemma AddEncrypts(G: Group, s: int, a: Encryption, ra: int, ta: int, b: Encryption, rb: int, tb: int)
    requires G.Valid() && Encrypts(G, s, a, ra, ta) && Encrypts(G, s, b, rb, tb)
    ensures Encrypts(G, s, HomomorphicAdd(G, a, b), ra + rb, ta + tb)
  {
    ExpAdd(G, G.g, ra, rb);
    ExpAdd(G, G.g, s * ra + ta, s * rb + tb);
    MulDistrib(s, ra, rb);
  }

  /** Dividing out the key's power of the nonce leaves the plaintext. */
  lemma DecryptEncrypts(G: Group, s: int, e: Encryption, r: int, t: int, d: int)
    requires G.Valid() && Encrypts(G, s, e, r, t)
    ensures G.DivModP(e.messageEncoding, G.Exp(G.g, d)) == G.Exp(G.g, t + (s * r - d))
  {
    ExpDiv(G, G.g, s * r + t, d);
  }
}

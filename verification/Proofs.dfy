/**
 The zero-knowledge proofs of crypto.c: Schnorr proofs for trustee keys,
 Chaum-Pedersen proofs for decryptions and for a ballot's total, and the
 disjunctive proof that a selection is zero or one.

 Challenges come from an oracle standing for the SHA-256 digest reduced modulo q.
 */
module Proofs {
  import opened Arithmetic
  import opened Primes
  import opened Group
  import opened Crypto

  type Oracle = seq<int> -> nat

  datatype PublicKey = PublicKey(coefCommitments: seq<int>, proof: SchnorrProof)
  datatype SchnorrProof = SchnorrProof(commitments: seq<int>, challenge: nat, responses: seq<nat>)
  datatype CpProof = CpProof(commitment: Encryption, challenge: nat, response: nat)
  datatype DisProof = DisProof(
    commitment0: Encryption, commitment1: Encryption, challenge: nat,
    challenge0: nat, challenge1: nat, response0: nat, response1: nat)

  ghost predicate OracleInRange(G: Group, hash: Oracle) {
    forall s :: hash(s) < G.q
  }

  // ---- the equation every proof rests on ------------------------------------------------

  /** x^response = commitment * y^challenge modulo p. */
  predicate Verifies(G: Group, x: int, y: int, commitment: int, challenge: nat, response: nat)
    requires G.Positive()
  {
    G.PowModP(x, response) == G.MulModP(commitment, G.PowModP(y, challenge))
  }

  /** The response a prover that knows the secret gives. */
  function Respond(G: Group, u: nat, challenge: nat, secret: int): nat
    requires G.Positive()
  {
    G.AddModQ(u, G.MulModQ(challenge, secret))
  }

  lemma RespondIs(G: Group, u: nat, challenge: nat, secret: int)
    requires G.Positive()
    ensures Cong(Respond(G, u, challenge, secret), u + challenge * secret, G.q)
  {
    CongMod(challenge * secret, G.q);
    CongMod(u + G.MulModQ(challenge, secret), G.q);
    CongAdd(u, u, G.MulModQ(challenge, secret), challenge * secret, G.q);
  }

  /** Completeness of one equation: knowing y = x^secret is enough. */
  lemma HonestVerifies(G: Group, x: int, secret: int, u: nat, challenge: nat, response: nat)
    requires G.Positive() && Cong(Pow(x, G.q), 1, G.p)
    requires Cong(response, u + challenge * secret, G.q)
    ensures Verifies(G, x, G.Exp(x, secret), G.PowModP(x, u), challenge, response)
  {
    PowModPIsExp(G, x, response);
    PowModPIsExp(G, x, u);
    ExpCong(G, x, response, u + challenge * secret);
    ExpOrderQ(G, x, secret);
    PowModPIsExp(G, G.Exp(x, secret), challenge);
    ExpMul(G, x, secret, challenge);
    assert secret * challenge == challenge * secret;
    ExpAdd(G, x, u, challenge * secret);
  }

  /** Simulation of one equation: any challenge and response, with the commitment solved for. */
  lemma SimulatedVerifies(G: Group, x: int, y: int, challenge: nat, response: nat)
    requires G.Valid() && G.OrderQ(y)
    ensures Verifies(G, x, y, G.DivModP(G.PowModP(x, response), G.PowModP(y, challenge)), challenge, response)
  {
    QuotientTimesDivisor(G, G.PowModP(x, response), y, challenge);
    CongMod(Pow(x, response), G.p);
  }

  lemma QuotientTimesDivisor(G: Group, n: int, y: int, c: nat)
    requires G.Positive() && 1 < G.p && 1 < G.q && G.OrderQ(y) && 0 <= n < G.p
    ensures G.MulModP(G.DivModP(n, G.PowModP(y, c)), G.PowModP(y, c)) == n
  {
    hide G.Exp, G.MulModP, G.DivModP, Cong, Pow;
    var k: int := c;
    PowModPIsExp(G, y, c);
    DivModPIsExp(G, n, y, k);
    ExpInverse(G, y, k);
    MulModPInverse(G, n, G.Exp(y, -k), G.Exp(y, k));
  }

  lemma MulModPInverse(G: Group, n: int, b: int, a: int)
    requires 0 < G.p && 0 < G.q && 0 <= n < G.p && Cong(a * b, 1, G.p)
    ensures G.MulModP(G.MulModP(n, b), a) == n
  {
    CongMod(n * b, G.p);
    CongScale(a, (n * b) % G.p, n * b, G.p);
    MulAssoc(n, b, a);
    assert b * a == a * b;
    CongScale(n, a * b, 1, G.p);
    CongMod(n, G.p);
  }

  /**
   Special soundness of one equation: two responses to different challenges for
   the same commitment give away the secret.
   */
  lemma ExtractSecret(G: Group, x: int, y: int, commitment: int,
                      challenge: nat, response: nat, challenge': nat, response': nat) returns (r: int)
    requires G.Valid() && Cong(Pow(x, G.q), 1, G.p) && G.OrderQ(y)
    requires Verifies(G, x, y, commitment, challenge, response)
    requires Verifies(G, x, y, commitment, challenge', response')
    requires !Cong(challenge, challenge', G.q)
    ensures y == G.Exp(x, r)
    ensures r == (response - response') * InverseModQ(G, challenge - challenge')
  {
    var c, d := challenge - challenge', response - response';
    DividedEquations(G, x, y, commitment, challenge, response, challenge', response');
    CongZero(challenge, challenge', G.q);
    var inverse := InverseModQ(G, c);
    InvertPrime(c, G.q);
    r := d * inverse;
    hide Verifies;
    ExpMul(G, y, c, inverse);
    ExpMul(G, x, d, inverse);
    ExpCong(G, y, c * inverse, 1);
    ExpOne(G, y);
  }

  /** The inverse of a challenge difference. */
  function InverseModQ(G: Group, c: int): int
    requires G.Positive()
  {
    Invert(c, G.q)
  }

  lemma DividedEquations(G: Group, x: int, y: int, commitment: int,
                         challenge: nat, response: nat, challenge': nat, response': nat)
    requires G.Positive() && 1 < G.p && 1 < G.q && Cong(Pow(x, G.q), 1, G.p) && G.OrderQ(y)
    requires Verifies(G, x, y, commitment, challenge, response)
    requires Verifies(G, x, y, commitment, challenge', response')
    ensures G.Exp(y, challenge - challenge') == G.Exp(x, response - response')
  {
    hide G.Exp, G.MulModP, Cong, Pow;
    var c: int, c': int, r: int, r': int := challenge, challenge', response, response';
    var a, a' := G.Exp(x, r), G.Exp(x, r');
    var b, b' := G.Exp(y, -c), G.Exp(y, -c');
    var e, f := G.Exp(x, -r'), G.Exp(y, c);
    PowModPIsExp(G, x, response);
    PowModPIsExp(G, y, challenge);
    PowModPIsExp(G, x, response');
    PowModPIsExp(G, y, challenge');
    ExpInverse(G, y, c);
    ExpInverse(G, y, c');
    ExpInverse(G, x, r');
    SolveFactor(G, commitment, f, b, a);
    SolveFactor(G, commitment, G.Exp(y, c'), b', a');
    ExpAdd(G, x, -r', r);
    ExpAdd(G, y, c, -c');
    ExpRange(G, x, r - r');
    ExpRange(G, y, c - c');
    CongTrans(G.MulModP(a, b), commitment, G.MulModP(a', b'), G.p);
    CrossMultiply(G, a, b, a', b', e, f, G.Exp(x, r - r'), G.Exp(y, c - c'));
  }

  /** From a*b = a'*b', e*a' = 1 and f*b = 1 to e*a = f*b'. */
  lemma CrossMultiply(G: Group, a: int, b: int, a': int, b': int, e: int, f: int, ea: int, fb: int)
    requires 0 < G.p && 0 < G.q && Cong(G.MulModP(a, b), G.MulModP(a', b'), G.p)
    requires G.MulModP(e, a) == ea && G.MulModP(f, b') == fb
    requires Cong(a' * e, 1, G.p) && Cong(f * b, 1, G.p)
    requires 0 <= ea < G.p && 0 <= fb < G.p
    ensures fb == ea
  {
    var p := G.p;
    CongMod(e * a, p);
    CongMod(f * b', p);
    CongMod(a * b, p);
    CongMod(a' * b', p);
    assert Cong(ea, e * a, p) && Cong(fb, f * b', p) && Cong(a * b, a' * b', p);
    hide *;
    assert e * a' == a' * e;
    CongScale(e * f, a * b, a' * b', p);
    MulSwap(e, f, a, b);
    MulSwap(e, f, a', b');
    CongScale(e * a, f * b, 1, p);
    CongScale(f * b', a' * e, 1, p);
    CongTrans(ea, e * a, (e * a) * (f * b), p);
    CongTrans(fb, f * b', (a' * e) * (f * b'), p);
    CongTrans(ea, (e * a) * (f * b), (a' * e) * (f * b'), p);
    CongTrans(ea, (a' * e) * (f * b'), fb, p);
    CongSmall(ea, fb, p);
  }

  lemma SolveFactor(G: Group, n: int, f: int, b: int, a: int)
    requires 0 < G.p && 0 < G.q && G.MulModP(n, f) == a && Cong(f * b, 1, G.p)
    ensures Cong(n, G.MulModP(a, b), G.p) && Cong(G.MulModP(a, b), n, G.p)
  {
    CongMod(n * f, G.p);
    CongScale(b, n * f, a, G.p);
    MulAssoc(n, f, b);
    CongScale(n, f * b, 1, G.p);
    CongMod(a * b, G.p);
  }

  // ---- Schnorr proofs for a trustee's key ---------------------------------------------------

  /** What check_keypair_proof accepts. */
  ghost predicate KeypairProofHolds(G: Group, key: PublicKey)
    requires G.Positive()
  {
    && |key.coefCommitments| == |key.proof.commitments| == |key.proof.responses|
    && forall i :: 0 <= i < |key.coefCommitments| ==>
        Verifies(G, G.g, key.coefCommitments[i], key.proof.commitments[i], key.proof.challenge, key.proof.responses[i])
  }

  method CheckKeypairProof(G: Group, key: PublicKey) returns (result: bool)
    requires G.Positive() && 0 <= G.g
    requires |key.coefCommitments| == |key.proof.commitments| == |key.proof.responses|
    ensures result <==> KeypairProofHolds(G, key)
  {
    result := true;
    for i := 0 to |key.proof.commitments|
      invariant result <==> forall j :: 0 <= j < i ==>
          Verifies(G, G.g, key.coefCommitments[j], key.proof.commitments[j], key.proof.challenge, key.proof.responses[j])
    {
      var gu := G.PowModP(G.g, key.proof.responses[i]);
      var hkc := G.PowModP(key.coefCommitments[i], key.proof.challenge);
      hkc := G.MulModP(key.proof.commitments[i], hkc);
      result := result && gu == hkc;
    }
  }

  function Powers(G: Group, es: seq<nat>): seq<int>
    requires G.Positive()
  {
    seq(|es|, i requires 0 <= i < |es| => G.PowModP(G.g, es[i]))
  }

  /** The key made from these draws. */
  function KeypairOf(G: Group, hash: Oracle, baseHash: int, coefficients: seq<nat>, nonces: seq<nat>): PublicKey
    requires G.Positive() && |coefficients| == |nonces|
  {
    var commitments := Powers(G, nonces);
    var challenge := hash([baseHash] + Powers(G, coefficients) + commitments);
    PublicKey(Powers(G, coefficients), SchnorrProof(commitments, challenge,
      seq(|nonces|, i requires 0 <= i < |nonces| => Respond(G, nonces[i], challenge, coefficients[i]))))
  }

  /**
   gen_keypair: the coefficients and the proofs' nonces are the random draws.
   The key it publishes always passes the check.
   */
  method GenKeypair(G: Group, hash: Oracle, baseHash: int, coefficients: seq<nat>, nonces: seq<nat>)
    returns (key: PublicKey)
    requires G.Valid() && |coefficients| == |nonces|
    ensures Commits(G, key.coefCommitments, coefficients)
    ensures key == KeypairOf(G, hash, baseHash, coefficients, nonces)
    ensures KeypairProofHolds(G, key)
    ensures Commits(G, key.proof.commitments, nonces)
    ensures key.proof.challenge == hash([baseHash] + key.coefCommitments + key.proof.commitments)
  {
    var k := |coefficients|;
    var coefCommitments: seq<int> := [];
    for i := 0 to k
      invariant |coefCommitments| == i
      invariant forall j :: 0 <= j < i ==> coefCommitments[j] == G.PowModP(G.g, coefficients[j])
    {
      coefCommitments := coefCommitments + [G.PowModP(G.g, coefficients[i])];
    }
    var responses := nonces;
    var commitments: seq<int> := [];
    for i := 0 to k
      invariant |commitments| == i
      invariant forall j :: 0 <= j < i ==> commitments[j] == G.PowModP(G.g, nonces[j])
    {
      commitments := commitments + [G.PowModP(G.g, responses[i])];
    }
    assert coefCommitments == Powers(G, coefficients) && commitments == Powers(G, nonces);
    var challenge := hash([baseHash] + coefCommitments + commitments);
    for i := 0 to k
      invariant |responses| == k
      invariant forall j :: 0 <= j < i ==> responses[j] == Respond(G, nonces[j], challenge, coefficients[j])
      invariant forall j :: i <= j < k ==> responses[j] == nonces[j]
    {
      var product := G.MulModQ(challenge, coefficients[i]);
      responses := responses[i := G.AddModQ(responses[i], product)];
    }
    key := PublicKey(coefCommitments, SchnorrProof(commitments, challenge, responses));
    forall i | 0 <= i < k
      ensures Verifies(G, G.g, coefCommitments[i], commitments[i], challenge, responses[i])
    {
      RespondIs(G, nonces[i], challenge, coefficients[i]);
      GeneratorPower(G, coefficients[i]);
      HonestVerifies(G, G.g, coefficients[i], nonces[i], challenge, responses[i]);
    }
  }

  /**
   Two accepted proofs for one key with the same commitments and different challenges
   give away every one of its coefficients' logarithms, not only the first.
   */
  lemma KeypairProofSound(G: Group, a: PublicKey, b: PublicKey) returns (secrets: seq<int>)
    requires G.Valid() && KeypairProofHolds(G, a) && KeypairProofHolds(G, b)
    requires a.coefCommitments == b.coefCommitments && a.proof.commitments == b.proof.commitments
    requires !Cong(a.proof.challenge, b.proof.challenge, G.q)
    requires forall i :: 0 <= i < |a.coefCommitments| ==> G.OrderQ(a.coefCommitments[i])
    ensures |secrets| == |a.coefCommitments|
    ensures forall i :: 0 <= i < |secrets| ==> a.coefCommitments[i] == G.Exp(G.g, secrets[i])
  {
    hide Verifies, G.Exp, Cong;
    secrets := [];
    for i := 0 to |a.coefCommitments|
      invariant |secrets| == i
      invariant forall j :: 0 <= j < i ==> a.coefCommitments[j] == G.Exp(G.g, secrets[j])
    {
      var s := ExtractSecret(G, G.g, a.coefCommitments[i], a.proof.commitments[i],
                             a.proof.challenge, a.proof.responses[i], b.proof.challenge, b.proof.responses[i]);
      secrets := secrets + [s];
    }
  }

  // ---- what a challenge is bound to ----------------------------------------------------------------

  /** Different things with the same hash. */
  ghost predicate Collides(hash: Oracle) {
    exists x, y :: x != y && hash(x) == hash(y)
  }

  /**
   Unless the hash has a collision, a key's challenge belongs to one base hash, one
   list of coefficients' commitments and one list of the proof's commitments.
   */
  lemma KeyChallengeBinds(G: Group, hash: Oracle, b: int, b': int, c: seq<nat>, c': seq<nat>, n: seq<nat>, n': seq<nat>)
    requires G.Positive() && |c| == |n| == |c'| == |n'|
    ensures
      var key, key' := KeypairOf(G, hash, b, c, n), KeypairOf(G, hash, b', c', n');
      key.proof.challenge == key'.proof.challenge ==>
        || Collides(hash)
        || (b == b' && key.coefCommitments == key'.coefCommitments && key.proof.commitments == key'.proof.commitments)
  {
    var key, key' := KeypairOf(G, hash, b, c, n), KeypairOf(G, hash, b', c', n');
    var hashed := [b] + key.coefCommitments + key.proof.commitments;
    var hashed' := [b'] + key'.coefCommitments + key'.proof.commitments;
    if hashed == hashed' {
      var k := |c|;
      assert hashed[0] == b && hashed'[0] == b';
      assert hashed[1..k + 1] == key.coefCommitments && hashed'[1..k + 1] == key'.coefCommitments;
      assert hashed[k + 1..] == key.proof.commitments && hashed'[k + 1..] == key'.proof.commitments;
    } else if hash(hashed) == hash(hashed') {
      assert Collides(hash);
    }
  }

  /** The challenge of a decryption's proof, to the tally entry, the proof's commitment and the share. */
  lemma DecryptionChallengeBinds(G: Group, hash: Oracle, b: int, b': int, u: nat, u': nat, key: nat, key': nat,
                                 partial: int, partial': int, e: Encryption, e': Encryption)
    requires G.Positive()
    ensures
      var proof := GenerateDecryptionCpProof(G, hash, b, u, key, partial, e);
      var proof' := GenerateDecryptionCpProof(G, hash, b', u', key', partial', e');
      proof.challenge == proof'.challenge ==>
        || Collides(hash)
        || (b == b' && e == e' && partial == partial' && proof.commitment == proof'.commitment)
  {
    var c := GenerateDecryptionCpProof(G, hash, b, u, key, partial, e).commitment;
    var c' := GenerateDecryptionCpProof(G, hash, b', u', key', partial', e').commitment;
    hide G.PowModP;
    var hashed := [b, e.nonceEncoding, e.messageEncoding, c.nonceEncoding, c.messageEncoding, partial];
    var hashed' := [b', e'.nonceEncoding, e'.messageEncoding, c'.nonceEncoding, c'.messageEncoding, partial'];
    if hashed == hashed' {
      assert forall i :: 0 <= i < 6 ==> hashed[i] == hashed'[i];
      assert hashed[0] == b && hashed[1] == e.nonceEncoding && hashed[2] == e.messageEncoding;
      assert hashed[3] == c.nonceEncoding && hashed[4] == c.messageEncoding && hashed[5] == partial;
    } else if hash(hashed) == hash(hashed') {
      assert Collides(hash);
    }
  }

  /** The challenge of a total's proof, to the ciphertext and the proof's commitment. */
  lemma AggregateChallengeBinds(hash: Oracle, b: int, b': int, e: Encryption, e': Encryption, c: Encryption, c': Encryption)
    ensures AggregateChallenge(hash, b, e, c) == AggregateChallenge(hash, b', e', c') ==>
      Collides(hash) || (b == b' && e == e' && c == c')
  {
    var hashed := [b, e.nonceEncoding, e.messageEncoding, c.nonceEncoding, c.messageEncoding];
    var hashed' := [b', e'.nonceEncoding, e'.messageEncoding, c'.nonceEncoding, c'.messageEncoding];
    if hashed == hashed' {
      assert forall i :: 0 <= i < 5 ==> hashed[i] == hashed'[i];
      assert hashed[0] == b && hashed[1] == e.nonceEncoding && hashed[2] == e.messageEncoding;
      assert hashed[3] == c.nonceEncoding && hashed[4] == c.messageEncoding;
    } else if hash(hashed) == hash(hashed') {
      assert Collides(hash);
    }
  }

  /** The challenge of a selection's proof, to the ciphertext and both commitments in their order. */
  lemma DisChallengeBinds(hash: Oracle, b: int, b': int, e: Encryption, e': Encryption,
                          c0: Encryption, c0': Encryption, c1: Encryption, c1': Encryption)
    ensures DisChallenge(hash, b, e, c0, c1) == DisChallenge(hash, b', e', c0', c1') ==>
      Collides(hash) || (b == b' && e == e' && c0 == c0' && c1 == c1')
  {
    var hashed := [b, e.nonceEncoding, e.messageEncoding,
                   c0.nonceEncoding, c0.messageEncoding, c1.nonceEncoding, c1.messageEncoding];
    var hashed' := [b', e'.nonceEncoding, e'.messageEncoding,
                    c0'.nonceEncoding, c0'.messageEncoding, c1'.nonceEncoding, c1'.messageEncoding];
    if hashed == hashed' {
      assert forall i :: 0 <= i < 7 ==> hashed[i] == hashed'[i];
      assert hashed[0] == b && hashed[1] == e.nonceEncoding && hashed[2] == e.messageEncoding;
      assert hashed[3] == c0.nonceEncoding && hashed[4] == c0.messageEncoding;
      assert hashed[5] == c1.nonceEncoding && hashed[6] == c1.messageEncoding;
    } else if hash(hashed) == hash(hashed') {
      assert Collides(hash);
    }
  }

  // ---- Chaum-Pedersen proof of a decryption -----------------------------------------------------

  function GenerateDecryptionCpProof(G: Group, hash: Oracle, baseHash: int, u: nat, secretKey: nat,
                                     partialDecryption: int, aggregate: Encryption): CpProof
    requires G.Positive()
  {
    var commitment := Encryption(G.PowModP(G.g, u), G.PowModP(aggregate.nonceEncoding, u));
    var challenge := hash([baseHash, aggregate.nonceEncoding, aggregate.messageEncoding,
                           commitment.nonceEncoding, commitment.messageEncoding, partialDecryption]);
    CpProof(commitment, challenge, Respond(G, u, challenge, secretKey))
  }

  predicate CheckDecryptionCpProof(G: Group, proof: CpProof, publicKey: int, partialDecryption: int, aggregate: Encryption)
    requires G.Positive()
  {
    && Verifies(G, G.g, publicKey, proof.commitment.nonceEncoding, proof.challenge, proof.response)
    && Verifies(G, aggregate.nonceEncoding, partialDecryption, proof.commitment.messageEncoding, proof.challenge, proof.response)
  }

  /** The proof a trustee makes for its own share of a tally is accepted. */
  lemma DecryptionProofComplete(G: Group, hash: Oracle, baseHash: int, u: nat, secretKey: nat, aggregate: Encryption)
    requires G.Valid() && G.OrderQ(aggregate.nonceEncoding)
    ensures
      var partial := G.PowModP(aggregate.nonceEncoding, secretKey);
      CheckDecryptionCpProof(G, GenerateDecryptionCpProof(G, hash, baseHash, u, secretKey, partial, aggregate),
                             G.PowModP(G.g, secretKey), partial, aggregate)
    ensures
      var proof := GenerateDecryptionCpProof(G, hash, baseHash, u, secretKey,
                                             G.PowModP(aggregate.nonceEncoding, secretKey), aggregate);
      proof.commitment == Encryption(G.Exp(G.g, u), G.Exp(aggregate.nonceEncoding, u))
  {
    var a := aggregate.nonceEncoding;
    var partial := G.PowModP(a, secretKey);
    var proof := GenerateDecryptionCpProof(G, hash, baseHash, u, secretKey, partial, aggregate);
    RespondIs(G, u, proof.challenge, secretKey);
    GeneratorPower(G, secretKey);
    GeneratorPower(G, u);
    PowModPIsExp(G, a, u);
    PowModPIsExp(G, a, secretKey);
    HonestVerifies(G, G.g, secretKey, u, proof.challenge, proof.response);
    HonestVerifies(G, a, secretKey, u, proof.challenge, proof.response);
  }

  /**
   Two accepted proofs with the same commitment and different challenges are for
   a decryption made with the secret key behind the public key.
   */
  lemma DecryptionProofSound(G: Group, publicKey: int, partial: int, aggregate: Encryption, a: CpProof, b: CpProof)
    returns (s: int)
    requires G.Valid() && G.OrderQ(publicKey) && G.OrderQ(partial) && G.OrderQ(aggregate.nonceEncoding)
    requires CheckDecryptionCpProof(G, a, publicKey, partial, aggregate)
    requires CheckDecryptionCpProof(G, b, publicKey, partial, aggregate)
    requires a.commitment == b.commitment && !Cong(a.challenge, b.challenge, G.q)
    ensures publicKey == G.Exp(G.g, s) && partial == G.Exp(aggregate.nonceEncoding, s)
  {
    hide Verifies, G.Exp, Cong;
    s := ExtractSecret(G, G.g, publicKey, a.commitment.nonceEncoding,
                       a.challenge, a.response, b.challenge, b.response);
    var s' := ExtractSecret(G, aggregate.nonceEncoding, partial, a.commitment.messageEncoding,
                            a.challenge, a.response, b.challenge, b.response);
  }

  lemma KeyPower(G: Group, s: int, u: nat)
    requires G.Valid()
    ensures G.PowModP(G.g, u) == G.Exp(G.g, u) && G.PowModP(G.Exp(G.g, s), u) == G.Exp(G.g, s * u)
  {
    GeneratorPower(G, u);
    ExpOrderQ(G, G.g, s);
    PowModPIsExp(G, G.Exp(G.g, s), u);
    ExpMul(G, G.g, s, u);
  }

  // ---- Chaum-Pedersen proof of a ballot's total -------------------------------------------------

  function GenerateAggregateCpProof(G: Group, hash: Oracle, baseHash: int, u: nat, nonce: nat,
                                    encryption: Encryption, publicKey: int): CpProof
    requires G.Positive()
  {
    var commitment := Encryption(G.PowModP(G.g, u), G.PowModP(publicKey, u));
    var challenge := AggregateChallenge(hash, baseHash, encryption, commitment);
    CpProof(commitment, challenge, Respond(G, u, challenge, nonce))
  }

  function AggregateChallenge(hash: Oracle, baseHash: int, encryption: Encryption, commitment: Encryption): nat {
    hash([baseHash, encryption.nonceEncoding, encryption.messageEncoding,
          commitment.nonceEncoding, commitment.messageEncoding])
  }

  predicate CheckAggregateCpProof(G: Group, hash: Oracle, proof: CpProof, encryption: Encryption,
                                  baseHash: int, publicKey: int, l: nat)
    requires G.Positive()
  {
    var c := AggregateChallenge(hash, baseHash, encryption, proof.commitment);
    && c == proof.challenge
    && Verifies(G, G.g, encryption.nonceEncoding, proof.commitment.nonceEncoding, c, proof.response)
    && VerifiesShifted(G, publicKey, encryption.messageEncoding, proof.commitment.messageEncoding,
                       c, proof.response, G.MulModQ(l, c))
  }

  /** g^shift * K^response = commitment * y^challenge modulo p. */
  predicate VerifiesShifted(G: Group, key: int, y: int, commitment: int, challenge: nat, response: nat, shift: nat)
    requires G.Positive()
  {
    G.MulModP(G.PowModP(G.g, shift), G.PowModP(key, response)) == G.MulModP(commitment, G.PowModP(y, challenge))
  }

  /** A shifted equation with an honest response: y = K^secret * g^l. */
  lemma HonestVerifiesShifted(G: Group, s: int, secret: int, l: int, u: nat, challenge: nat, response: nat, shift: nat)
    requires G.Valid()
    requires Cong(response, u + challenge * secret, G.q) && Cong(shift, l * challenge, G.q)
    ensures VerifiesShifted(G, G.Exp(G.g, s), G.Exp(G.g, s * secret + l), G.PowModP(G.Exp(G.g, s), u),
                            challenge, response, shift)
  {
    var key, y := G.Exp(G.g, s), G.Exp(G.g, s * secret + l);
    ExpOrderQ(G, G.g, s);
    ExpOrderQ(G, G.g, s * secret + l);
    hide G.Exp, G.MulModP, Pow, Cong, IsPrime, Divides;
    PowModPIsExp(G, key, response);
    PowModPIsExp(G, key, u);
    PowModPIsExp(G, y, challenge);
    GeneratorPower(G, shift);
    ExpMul(G, G.g, s, response);
    ExpMul(G, G.g, s, u);
    ExpMul(G, G.g, s * secret + l, challenge);
    ExpAdd(G, G.g, shift, s * response);
    ExpAdd(G, G.g, s * u, (s * secret + l) * challenge);
    ShiftedExponents(G, s, secret, l, u, challenge, response, shift);
    ExpCong(G, G.g, shift + s * response, s * u + (s * secret + l) * challenge);
  }

  lemma ShiftedExponents(G: Group, s: int, secret: int, l: int, u: nat, challenge: nat, response: nat, shift: nat)
    requires G.Positive()
    requires Cong(response, u + challenge * secret, G.q) && Cong(shift, l * challenge, G.q)
    ensures Cong(shift + s * response, s * u + (s * secret + l) * challenge, G.q)
  {
    hide Cong;
    CongScale(s, response, u + challenge * secret, G.q);
    CongAdd(shift, l * challenge, s * response, s * (u + challenge * secret), G.q);
    MulDistrib(s, u, challenge * secret);
    assert s * (challenge * secret) == (s * secret) * challenge;
    MulDistrib(challenge, s * secret, l);
  }

  /** The proof for a ballot's total is accepted whenever the total is the announced one. */
  lemma AggregateProofComplete(G: Group, hash: Oracle, baseHash: int, u: nat, nonce: nat,
                               s: int, r: int, l: nat, encryption: Encryption)
    requires G.Valid() && Encrypts(G, s, encryption, r, l) && Cong(nonce, r, G.q)
    ensures CheckAggregateCpProof(G, hash,
              GenerateAggregateCpProof(G, hash, baseHash, u, nonce, encryption, G.Exp(G.g, s)),
              encryption, baseHash, G.Exp(G.g, s), l)
    ensures GenerateAggregateCpProof(G, hash, baseHash, u, nonce, encryption, G.Exp(G.g, s)).commitment
         == Encryption(G.Exp(G.g, u), G.Exp(G.g, s * u))
  {
    KeyPower(G, s, u);
    var proof := GenerateAggregateCpProof(G, hash, baseHash, u, nonce, encryption, G.Exp(G.g, s));
    var c := proof.challenge;
    RespondIs(G, u, c, nonce);
    CongScale(c, nonce, r, G.q);
    CongAdd(u, u, c * nonce, c * r, G.q);
    HonestVerifies(G, G.g, r, u, c, proof.response);
    CongMod(l * c, G.q);
    HonestVerifiesShifted(G, s, r, l, u, c, proof.response, G.MulModQ(l, c));
  }

  // ---- disjunctive proof of zero or one -----------------------------------------------------------

  /** The random draws of one disjunctive proof. */
  datatype DisDraws = DisDraws(u: nat, fakeChallenge: nat, fakeResponse: nat)

  function DisChallenge(hash: Oracle, baseHash: int, e: Encryption, c0: Encryption, c1: Encryption): nat {
    hash([baseHash, e.nonceEncoding, e.messageEncoding,
          c0.nonceEncoding, c0.messageEncoding, c1.nonceEncoding, c1.messageEncoding])
  }

  function GenerateDisProof(G: Group, hash: Oracle, baseHash: int, draws: DisDraws, selected: bool,
                            publicKey: int, encryption: Encryption, nonce: nat): DisProof
    requires G.Positive()
  {
    var DisDraws(u, fakeChallenge, fakeResponse) := draws;
    var honest := Encryption(G.PowModP(G.g, u), G.PowModP(publicKey, u));
    var scratch := G.PowModP(publicKey, fakeResponse);
    var fake := Encryption(
      G.DivModP(G.PowModP(G.g, fakeResponse), G.PowModP(encryption.nonceEncoding, fakeChallenge)),
      G.DivModP(if selected then scratch else G.MulModP(scratch, G.PowModP(G.g, fakeChallenge)),
                G.PowModP(encryption.messageEncoding, fakeChallenge)));
    var challenge := if selected then DisChallenge(hash, baseHash, encryption, fake, honest)
                     else DisChallenge(hash, baseHash, encryption, honest, fake);
    var realChallenge := G.SubModQ(challenge, fakeChallenge);
    var realResponse := Respond(G, u, realChallenge, nonce);
    if selected then DisProof(fake, honest, challenge, fakeChallenge, realChallenge, fakeResponse, realResponse)
    else DisProof(honest, fake, challenge, realChallenge, fakeChallenge, realResponse, fakeResponse)
  }

  predicate CheckDisProof(G: Group, proof: DisProof, encryption: Encryption, publicKey: int)
    requires G.Positive()
  {
    && proof.challenge == G.AddModQ(proof.challenge0, proof.challenge1)
    && Verifies(G, G.g, encryption.nonceEncoding, proof.commitment0.nonceEncoding, proof.challenge0, proof.response0)
    && Verifies(G, G.g, encryption.nonceEncoding, proof.commitment1.nonceEncoding, proof.challenge1, proof.response1)
    && Verifies(G, publicKey, encryption.messageEncoding, proof.commitment0.messageEncoding, proof.challenge0, proof.response0)
    && VerifiesShifted(G, publicKey, encryption.messageEncoding, proof.commitment1.messageEncoding,
                       proof.challenge1, proof.response1, proof.challenge1)
  }

  lemma ChallengesAddUp(G: Group, challenge: nat, fake: nat)
    requires G.Positive() && challenge < G.q
    ensures challenge == G.AddModQ(G.SubModQ(challenge, fake), fake) == G.AddModQ(fake, G.SubModQ(challenge, fake))
  {
    CongMod(challenge - fake, G.q);
    CongAdd(G.SubModQ(challenge, fake), challenge - fake, fake, fake, G.q);
    CongMod(challenge, G.q);
  }

  /** The simulated half for the value one: the commitment absorbs g^challenge. */
  lemma SimulatedVerifiesShifted(G: Group, key: int, y: int, challenge: nat, response: nat)
    requires G.Valid() && G.OrderQ(y)
    ensures VerifiesShifted(G, key, y,
              G.DivModP(G.MulModP(G.PowModP(key, response), G.PowModP(G.g, challenge)), G.PowModP(y, challenge)),
              challenge, response, challenge)
  {
    var n := G.MulModP(G.PowModP(key, response), G.PowModP(G.g, challenge));
    CongMod(G.PowModP(key, response) * G.PowModP(G.g, challenge), G.p);
    QuotientTimesDivisor(G, n, y, challenge);
  }

  /**
   Completeness: for either value of the selection and every random draw, the
   proof made for an honest encryption is accepted.
   */
  lemma DisProofComplete(G: Group, hash: Oracle, baseHash: int, draws: DisDraws, selected: bool,
                         s: int, encryption: Encryption, nonce: nat)
    requires G.Valid() && OracleInRange(G, hash)
    requires Encrypts(G, s, encryption, nonce, if selected then 1 else 0)
    ensures CheckDisProof(G,
              GenerateDisProof(G, hash, baseHash, draws, selected, G.Exp(G.g, s), encryption, nonce),
              encryption, G.Exp(G.g, s))
    ensures
      var proof := GenerateDisProof(G, hash, baseHash, draws, selected, G.Exp(G.g, s), encryption, nonce);
      && proof.challenge == DisChallenge(hash, baseHash, encryption, proof.commitment0, proof.commitment1)
      && (if selected then proof.commitment1 else proof.commitment0)
        == Encryption(G.Exp(G.g, draws.u), G.Exp(G.g, s * draws.u))
      && (if selected then (proof.challenge0, proof.response0) else (proof.challenge1, proof.response1))
        == (draws.fakeChallenge, draws.fakeResponse)
  {
    KeyPower(G, s, draws.u);
    var key := G.Exp(G.g, s);
    var proof := GenerateDisProof(G, hash, baseHash, draws, selected, key, encryption, nonce);
    var realChallenge := G.SubModQ(proof.challenge, draws.fakeChallenge);
    var realResponse := Respond(G, draws.u, realChallenge, nonce);
    var t := if selected then 1 else 0;
    assert proof.challenge < G.q;
    ChallengesAddUp(G, proof.challenge, draws.fakeChallenge);
    RespondIs(G, draws.u, realChallenge, nonce);
    ExpOrderQ(G, G.g, nonce);
    ExpOrderQ(G, G.g, s);
    ExpOrderQ(G, G.g, s * nonce + t);
    HonestVerifies(G, G.g, nonce, draws.u, realChallenge, realResponse);
    SimulatedVerifies(G, G.g, encryption.nonceEncoding, draws.fakeChallenge, draws.fakeResponse);
    if selected {
      SimulatedVerifies(G, key, encryption.messageEncoding, draws.fakeChallenge, draws.fakeResponse);
      HonestVerifiesShifted(G, s, nonce, 1, draws.u, realChallenge, realResponse, realChallenge);
    } else {
      ExpMul(G, G.g, s, nonce);
      HonestVerifies(G, key, nonce, draws.u, realChallenge, realResponse);
      SimulatedVerifiesShifted(G, key, encryption.messageEncoding, draws.fakeChallenge, draws.fakeResponse);
    }
  }

  // ---- special soundness of the shifted equations ---------------------------------------------------

  lemma ProductOrderQ(G: Group, x: int, y: int)
    requires G.Positive() && G.OrderQ(x) && G.OrderQ(y)
    ensures G.OrderQ(G.MulModP(x, y))
  {
    CongMod(x * y, G.p);
    CongPow(G.MulModP(x, y), x * y, G.q, G.p);
    PowDistrib(x, y, G.q);
    CongMul(Pow(x, G.q), 1, Pow(y, G.q), 1, G.p);
  }

  /** Moving g^shift to the other side: an equation about y / g^l. */
  lemma ShiftedAsPlain(G: Group, key: int, y: int, commitment: int, challenge: nat, response: nat, shift: nat, l: int)
    requires G.Valid() && G.OrderQ(y) && Cong(shift, l * challenge, G.q)
    requires VerifiesShifted(G, key, y, commitment, challenge, response, shift)
    ensures Verifies(G, key, G.MulModP(y, G.Exp(G.g, -l)), commitment, challenge, response)
    ensures G.OrderQ(G.MulModP(y, G.Exp(G.g, -l)))
  {
    var c: int := challenge;
    var k: int := l * c;
    var z := G.MulModP(y, G.Exp(G.g, -l));
    ExpOrderQ(G, G.g, -l);
    ProductOrderQ(G, y, G.Exp(G.g, -l));
    CongMod(Pow(key, response), G.p);
    hide G.Exp, G.MulModP, Pow, Cong, IsPrime, Divides;
    GeneratorPower(G, shift);
    ExpCong(G, G.g, shift, k);
    PowModPIsExp(G, y, challenge);
    PowModPIsExp(G, z, challenge);
    ExpProduct(G, y, G.Exp(G.g, -l), c);
    ExpMul(G, G.g, -l, c);
    MulNeg(l, c);
    ExpInverse(G, G.g, k);
    MoveFactor(G, G.Exp(G.g, k), G.Exp(G.g, -k), G.PowModP(key, response), commitment, G.Exp(y, c));
  }

  /** From f*k = n*y and f*i = 1 to k = n*(y*i). */
  lemma MoveFactor(G: Group, f: int, i: int, k: int, n: int, y: int)
    requires 0 < G.p && 0 < G.q && 0 <= k < G.p
    requires G.MulModP(f, k) == G.MulModP(n, y) && Cong(f * i, 1, G.p)
    ensures k == G.MulModP(n, G.MulModP(y, i))
  {
    var p := G.p;
    CongScale(i, f * k, n * y, p);
    MulLeft(i, f, k);
    MulComm(i, k);
    MulLeft(f, k, i);
    MulLeft(i, n, y);
    MulComm(i, y);
    CongScale(k, f * i, 1, p);
    CongMod(y * i, p);
    CongScale(n, G.MulModP(y, i), y * i, p);
    CongMod(n * G.MulModP(y, i), p);
    CongMod(k, p);
  }

  lemma MoveGeneratorBack(G: Group, y: int, l: int, k: int)
    requires G.Valid() && G.OrderQ(y) && G.MulModP(y, G.Exp(G.g, -l)) == k
    ensures y == G.MulModP(G.Exp(G.g, l), k)
  {
    ExpInverse(G, G.g, l);
    MulModPUndo(G, y, G.Exp(G.g, l), G.Exp(G.g, -l));
  }

  lemma MulModPUndo(G: Group, y: int, f: int, i: int)
    requires 0 < G.p && 0 < G.q && 0 <= y < G.p && Cong(f * i, 1, G.p)
    ensures y == G.MulModP(f, G.MulModP(y, i))
  {
    CongMod(y * i, G.p);
    CongScale(f, G.MulModP(y, i), y * i, G.p);
    MulLeft(f, y, i);
    CongScale(y, f * i, 1, G.p);
    CongMod(y, G.p);
  }

  /**
   Special soundness of the disjunctive check: two accepted proofs with the same
   commitments and different challenges modulo q are for an encryption of zero or
   of one, and the nonce r can be computed from them.
   */
  lemma DisProofSound(G: Group, publicKey: int, e: Encryption, a: DisProof, b: DisProof) returns (r: int)
    requires G.Valid() && G.OrderQ(publicKey) && G.OrderQ(e.nonceEncoding) && G.OrderQ(e.messageEncoding)
    requires CheckDisProof(G, a, e, publicKey) && CheckDisProof(G, b, e, publicKey)
    requires a.commitment0 == b.commitment0 && a.commitment1 == b.commitment1
    requires !Cong(a.challenge, b.challenge, G.q)
    ensures e.nonceEncoding == G.Exp(G.g, r)
    ensures e.messageEncoding == G.Exp(publicKey, r)
         || e.messageEncoding == G.MulModP(G.g, G.Exp(publicKey, r))
  {
    OneHalfDiffers(G, a, b);
    hide Verifies, VerifiesShifted, G.Exp, G.MulModP;
    if !Cong(a.challenge0, b.challenge0, G.q) {
      r := ExtractSecret(G, G.g, e.nonceEncoding, a.commitment0.nonceEncoding,
                         a.challenge0, a.response0, b.challenge0, b.response0);
      var r' := ExtractSecret(G, publicKey, e.messageEncoding, a.commitment0.messageEncoding,
                              a.challenge0, a.response0, b.challenge0, b.response0);
    } else {
      r := ExtractSecret(G, G.g, e.nonceEncoding, a.commitment1.nonceEncoding,
                         a.challenge1, a.response1, b.challenge1, b.response1);
      ShiftedAsPlain(G, publicKey, e.messageEncoding, a.commitment1.messageEncoding,
                     a.challenge1, a.response1, a.challenge1, 1);
      ShiftedAsPlain(G, publicKey, e.messageEncoding, b.commitment1.messageEncoding,
                     b.challenge1, b.response1, b.challenge1, 1);
      var y := G.MulModP(e.messageEncoding, G.Exp(G.g, -1));
      var r' := ExtractSecret(G, publicKey, y, a.commitment1.messageEncoding,
                              a.challenge1, a.response1, b.challenge1, b.response1);
      MoveGeneratorBack(G, e.messageEncoding, 1, y);
      ExpOne(G, G.g);
    }
  }

  lemma OneHalfDiffers(G: Group, a: DisProof, b: DisProof)
    requires G.Positive() && !Cong(a.challenge, b.challenge, G.q)
    requires a.challenge == G.AddModQ(a.challenge0, a.challenge1)
    requires b.challenge == G.AddModQ(b.challenge0, b.challenge1)
    ensures !Cong(a.challenge0, b.challenge0, G.q) || !Cong(a.challenge1, b.challenge1, G.q)
  {
    if Cong(a.challenge0, b.challenge0, G.q) && Cong(a.challenge1, b.challenge1, G.q) {
      CongAdd(a.challenge0, b.challenge0, a.challenge1, b.challenge1, G.q);
    }
  }

  /**
   Special soundness of the total: two accepted proofs with the same commitment
   and different challenges are for an encryption of exactly l.
   */
  lemma AggregateProofSound(G: Group, hash: Oracle, hash': Oracle, baseHash: int, publicKey: int, e: Encryption, l: nat,
                            a: CpProof, b: CpProof) returns (r: int)
    requires G.Valid() && G.OrderQ(publicKey) && G.OrderQ(e.nonceEncoding) && G.OrderQ(e.messageEncoding)
    requires CheckAggregateCpProof(G, hash, a, e, baseHash, publicKey, l)
    requires CheckAggregateCpProof(G, hash', b, e, baseHash, publicKey, l)
    requires a.commitment == b.commitment && !Cong(a.challenge, b.challenge, G.q)
    ensures e.nonceEncoding == G.Exp(G.g, r)
    ensures e.messageEncoding == G.MulModP(G.Exp(G.g, l), G.Exp(publicKey, r))
  {
    CongMod(l * a.challenge, G.q);
    CongMod(l * b.challenge, G.q);
    r := ExtractSecret(G, G.g, e.nonceEncoding, a.commitment.nonceEncoding,
                       a.challenge, a.response, b.challenge, b.response);
    ShiftedAsPlain(G, publicKey, e.messageEncoding, a.commitment.messageEncoding,
                   a.challenge, a.response, G.MulModQ(l, a.challenge), l);
    ShiftedAsPlain(G, publicKey, e.messageEncoding, b.commitment.messageEncoding,
                   b.challenge, b.response, G.MulModQ(l, b.challenge), l);
    var k: int := l;
    var y := G.MulModP(e.messageEncoding, G.Exp(G.g, -k));
    hide Verifies, VerifiesShifted, G.Exp, G.MulModP;
    var r' := ExtractSecret(G, publicKey, y, a.commitment.messageEncoding,
                            a.challenge, a.response, b.challenge, b.response);
    MoveGeneratorBack(G, e.messageEncoding, l, y);
  }
}

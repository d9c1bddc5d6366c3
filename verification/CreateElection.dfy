/**
 API_CreateElection (api/create_election.c): the key ceremony step by step,
 stopping at the first failure.
 */
module CreateElection {
  import opened Arithmetic
  import opened Primes
  import opened Group
  import opened Bignum
  import opened Interpolation
  import opened Crypto
  import opened Proofs
  import opened DecryptionMessages
  import opened DecryptionCoordinator
  import opened TallyTheorem
  import opened KeyCeremonyCoordinator
  import opened KeyCeremonyTrustee
  import Rsa

  // ---- what a ceremony makes of its draws ---------------------------------------------------

  /** The election's parameters and every trustee's draws. */
  datatype Ceremony = Ceremony(G: Group, n: nat, k: nat, hash: Oracle, baseHash: int, draws: seq<Draws>)
  {
    ghost predicate Usable() {
      && G.Valid() && |draws| == n
      && forall i :: 0 <= i < n ==> UsableDraws(G, draws[i], k)
    }

    function Key(i: nat): PublicKey
      requires G.Positive() && i < |draws| && |draws[i].coefficients| == |draws[i].nonces|
    {
      KeypairOf(G, hash, baseHash, draws[i].coefficients, draws[i].nonces)
    }

    ghost function Keys(): (r: seq<PublicKey>)
      requires Usable()
      ensures |r| == n && forall i :: 0 <= i < n ==> r[i] == Key(i) && KeyOfThreshold(r[i], k)
    {
      seq(n, i requires 0 <= i < n => Key(i))
    }

    function RsaKeys(): (r: seq<Rsa.PublicKey>)
      ensures |r| == |draws|
    {
      seq(|draws|, i requires 0 <= i < |draws| => RsaPublic(draws[i].rsaKey))
    }

    ghost function Dealt(i: nat): (r: seq<nat>)
      requires Usable() && i < n
      ensures |r| == n && forall j :: 0 <= j < n ==> r[j] == DealtShare(G, draws[i].coefficients, RsaKeys()[j], j)
    {
      DealtShares(G, draws[i].coefficients, RsaKeys())
    }

    /** The shares dealt to trustee i. */
    ghost function Received(i: nat): (r: seq<nat>)
      requires Usable() && i < n
      ensures |r| == n && forall m :: 0 <= m < n ==> r[m] == Dealt(m)[i]
    {
      seq(n, m requires 0 <= m < n => Dealt(m)[i])
    }

    ghost function StateOf(i: nat): TrusteeState
      requires Usable() && i < n
    {
      TrusteeState(i, draws[i].coefficients, Received(i), draws[i].rsaKey)
    }

    ghost function JointKey(): int
      requires Usable() && 1 <= k
    {
      ProductModP(G, FirstCommitments(Keys()))
    }

    ghost predicate ParametersAccepted() {
      1 <= k <= n <= MAX_TRUSTEES
    }

    /** The numbers that have to fill their words for the ceremony to go through. */
    ghost predicate Succeeds()
      requires Usable()
    {
      && ParametersAccepted()
      && (forall i :: 0 <= i < n ==> KeyGeneratedFits(KeyGenerated(i, Key(i), RsaKeys()[i])))
      && (forall i :: 0 <= i < n ==> SharesFill(Dealt(i)))
      && Fills(JointKey(), WORDS_4096)
      && forall i :: 0 <= i < n ==> StateFits(StateOf(i))
    }

    function Polynomials(): seq<seq<nat>> {
      seq(|draws|, i requires 0 <= i < |draws| => draws[i].coefficients)
    }
  }

  /** A share dealt by these draws decrypts to the polynomial's value, and agrees with the commitments. */
  lemma DealtShareAgrees(C: Ceremony, i: nat, m: nat)
    requires C.Usable() && i < C.n && m < C.n
    ensures Rsa.Decrypt(C.Dealt(m)[i], C.draws[i].rsaKey)
         == Rsa.Residue(Poly(C.draws[m].coefficients, i + 1), C.G.q)
    ensures ShareAgrees(C.G, C.Key(m), C.Dealt(m)[i], C.draws[i].rsaKey, i)
  {
    assert Commits(C.G, C.Key(m).coefCommitments, C.draws[m].coefficients);
    HonestShareAccepted(C.G, C.Key(m).coefCommitments, C.draws[m].coefficients, C.draws[i].rsaKey, i);
    assert C.draws[i].rsaKey.e == 3;
  }

  // ---- what the ceremony leaves behind --------------------------------------------------------

  /** The election whose polynomials these are, with nothing tallied yet. */
  function BareElection(C: Ceremony): Election {
    Election(C.G, C.n, C.k, C.Polynomials(), [], [], [])
  }

  /** Every exported state is one that decryption can rely on. */
  lemma ExportedStatesAreHonest(C: Ceremony, E: Election, i: nat)
    requires C.Usable() && E.Valid() && i < C.n
    requires E.G == C.G && E.n == C.n && E.k == C.k && E.polys == C.Polynomials()
    ensures HonestState(E, C.StateOf(i))
  {
    var s := C.StateOf(i);
    forall m | 0 <= m < E.n
      ensures Cong(Rsa.Decrypt(s.myKeyShares[m], s.rsaKey), E.ShareValue(m, s.index), E.G.q)
    {
      DealtShareAgrees(C, i, m);
      CongMod(Poly(C.draws[m].coefficients, i + 1), C.G.q);
    }
  }

  lemma {:induction false} SumIsFlagSum(xs: seq<int>, f: nat -> int)
    requires forall i :: 0 <= i < |xs| ==> xs[i] == f(i)
    ensures Sum(xs) == FlagSum(Repeated(true, |xs|), f)
  {
    if xs != [] {
      var n := |xs| - 1;
      SumIsFlagSum(xs[..n], f);
      assert Repeated(true, |xs|)[..n] == Repeated(true, n);
    }
  }

  /** The joint key is the generator to the sum of the trustees' secrets. */
  lemma JointKeyIsPowerOfSecrets(C: Ceremony)
    requires C.Usable() && 1 <= C.k
    ensures C.JointKey() == C.G.Exp(C.G.g, BareElection(C).Secret())
  {
    var E := BareElection(C);
    var secrets := seq(C.n, i requires 0 <= i < C.n => C.draws[i].coefficients[0] as int);
    forall i | 0 <= i < C.n ensures FirstCommitments(C.Keys())[i] == C.G.Exp(C.G.g, secrets[i]) {
      GeneratorPower(C.G, C.draws[i].coefficients[0]);
    }
    ProductOfPowers(C.G, FirstCommitments(C.Keys()), secrets);
    SumIsFlagSum(secrets, (i: nat) => E.SecretOf(i));
  }
}

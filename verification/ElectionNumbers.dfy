/**
 When a whole election goes through, in its draws, votes and parameters alone: every
 number that has to be written fills its words. Nothing else makes an election fail.
 */
module ElectionNumbers {
  import opened Arithmetic
  import opened Group
  import opened Bignum
  import opened Interpolation
  import opened Crypto
  import opened Proofs
  import opened DecryptionMessages
  import opened DecryptionCoordinator
  import opened TallyTheorem
  import opened Threshold
  import opened Publication
  import opened TallyVotes
  import opened TallyDriver
  import opened TallyEndToEnd
  import opened KeyCeremonyCoordinator
  import opened KeyCeremonyTrustee
  import opened CreateElection
  import opened Encrypter
  import opened WholeElection
  import opened RunNumbers
  import Rsa

  // ---- the ceremony's numbers -------------------------------------------------------------------

  /** Trustee i's key: the commitments, the proof's commitments, challenge and responses, and the RSA modulus. */
  ghost predicate KeyNumbersFit(C: Ceremony, i: nat)
    requires C.Usable() && i < C.n
  {
    var d, challenge := C.draws[i], C.Key(i).proof.challenge;
    && Fills(challenge, WORDS_256) && Fills(d.rsaKey.n, WORDS_4096)
    && forall t :: 0 <= t < C.k ==>
        && PowerFits(C.G, d.coefficients[t]) && PowerFits(C.G, d.nonces[t])
        && Fills((d.nonces[t] + challenge * d.coefficients[t]) % C.G.q, WORDS_256)
  }

  /** The share that trustee i deals to trustee l: the cube of its polynomial's value modulo q. */
  ghost predicate DealtNumberFits(C: Ceremony, i: nat, l: nat)
    requires C.Usable() && i < C.n && l < C.n
  {
    Fills(Pow(Poly(C.draws[i].coefficients, l + 1) % C.G.q, 3) % C.draws[l].rsaKey.n, WORDS_SHARE)
  }

  /** What trustee i keeps besides: its coefficients, and its private RSA key. */
  ghost predicate StateNumbersFit(C: Ceremony, i: nat)
    requires C.Usable() && i < C.n
  {
    var d := C.draws[i];
    && Fills(d.rsaKey.p, WORDS_PRIME) && Fills(d.rsaKey.q, WORDS_PRIME) && Fills(d.rsaKey.d, WORDS_4096)
    && forall t :: 0 <= t < C.k ==> Fills(d.coefficients[t], WORDS_4096)
  }

  ghost predicate KeysFit(C: Ceremony)
    requires C.Usable()
  {
    forall i :: 0 <= i < C.n ==> KeyNumbersFit(C, i)
  }

  ghost predicate DealtNumbersFit(C: Ceremony, i: nat)
    requires C.Usable() && i < C.n
  {
    forall l :: 0 <= l < C.n ==> DealtNumberFits(C, i, l)
  }

  ghost predicate DealtFit(C: Ceremony)
    requires C.Usable()
  {
    forall i :: 0 <= i < C.n ==> DealtNumbersFit(C, i)
  }

  ghost predicate StatesFit(C: Ceremony)
    requires C.Usable()
  {
    forall i :: 0 <= i < C.n ==> StateNumbersFit(C, i)
  }

  ghost predicate CeremonyNumbersFit(C: Ceremony)
    requires C.Usable()
  {
    KeysFit(C) && DealtFit(C) && StatesFit(C) && PowerFits(C.G, BareElection(C).Secret())
  }

  lemma ResponseIs(G: Group, u: nat, challenge: nat, secret: int)
    requires G.Positive()
    ensures Respond(G, u, challenge, secret) == (u + challenge * secret) % G.q
  {
    CongMod(challenge * secret, G.q);
    CongAdd(u, u, G.MulModQ(challenge, secret), challenge * secret, G.q);
  }

  /** The parts of a trustee's key, as powers of the generator. */
  lemma KeyParts(C: Ceremony, i: nat)
    requires C.Usable() && i < C.n
    ensures
      var d, key := C.draws[i], C.Key(i);
      && |d.coefficients| == |d.nonces| == C.k
      && |key.coefCommitments| == |key.proof.commitments| == |key.proof.responses| == C.k
      && C.RsaKeys()[i] == Rsa.PublicKey(d.rsaKey.n, 3)
      && forall t :: 0 <= t < C.k ==>
          && key.coefCommitments[t] == C.G.Exp(C.G.g, d.coefficients[t])
          && key.proof.commitments[t] == C.G.Exp(C.G.g, d.nonces[t])
          && key.proof.responses[t] == (d.nonces[t] + key.proof.challenge * d.coefficients[t]) % C.G.q
  {
    var d, key := C.draws[i], C.Key(i);
    forall t | 0 <= t < C.k
      ensures key.coefCommitments[t] == C.G.Exp(C.G.g, d.coefficients[t])
      ensures key.proof.commitments[t] == C.G.Exp(C.G.g, d.nonces[t])
      ensures key.proof.responses[t] == (d.nonces[t] + key.proof.challenge * d.coefficients[t]) % C.G.q
    {
      GeneratorPower(C.G, d.coefficients[t]);
      GeneratorPower(C.G, d.nonces[t]);
      ResponseIs(C.G, d.nonces[t], key.proof.challenge, d.coefficients[t]);
    }
  }

  lemma ThreeFits()
    ensures Fills(3, 1)
  {}

  lemma GroupOf(C: Ceremony)
    requires C.Usable()
    ensures C.G.Valid() && C.G.Positive() && |C.draws| == C.n
  {}

  lemma KeyFitsExactly(C: Ceremony, i: nat)
    requires C.Usable() && i < C.n
    ensures KeyGeneratedFits(KeyGenerated(i, C.Key(i), C.RsaKeys()[i])) <==> KeyNumbersFit(C, i)
  {
    hide C.Usable, C.Key, C.RsaKeys, C.G.Exp, Fills;
    GroupOf(C);
    KeyParts(C, i);
    ThreeFits();
    var d, key := C.draws[i], C.Key(i);
    if KeyGeneratedFits(KeyGenerated(i, key, C.RsaKeys()[i])) {
      forall t | 0 <= t < C.k
        ensures PowerFits(C.G, d.coefficients[t]) && PowerFits(C.G, d.nonces[t])
        ensures Fills((d.nonces[t] + key.proof.challenge * d.coefficients[t]) % C.G.q, WORDS_256)
      {
        assert Fills(key.coefCommitments[t], WORDS_4096) && Fills(key.proof.commitments[t], WORDS_4096);
        assert Fills(key.proof.responses[t], WORDS_256);
      }
    }
  }

  lemma DealtFitExactly(C: Ceremony, i: nat)
    requires C.Usable() && i < C.n
    ensures SharesFill(C.Dealt(i)) <==> DealtNumbersFit(C, i)
  {
    forall l | 0 <= l < C.n ensures Fills(C.Dealt(i)[l], WORDS_SHARE) <==> DealtNumberFits(C, i, l) {
      assert C.RsaKeys()[l].e == 3;
    }
    hide DealtNumberFits, Fills;
  }

  /** The shares a trustee keeps could be sent to it before. */
  lemma ReceivedFill(C: Ceremony, i: nat)
    requires C.Usable() && i < C.n && DealtFit(C)
    ensures SharesFill(C.Received(i))
  {
    forall m | 0 <= m < C.n ensures Fills(C.Received(i)[m], WORDS_SHARE) {
      assert DealtNumbersFit(C, m);
      assert DealtNumberFits(C, m, i) && C.RsaKeys()[i].e == 3;
    }
    hide Fills, C.Received;
  }

  lemma StateFitsExactly(C: Ceremony, i: nat)
    requires C.Usable() && i < C.n && Fills(C.draws[i].rsaKey.n, WORDS_4096) && SharesFill(C.Received(i))
    ensures StateFits(C.StateOf(i)) <==> StateNumbersFit(C, i)
  {
    ThreeFits();
    assert C.draws[i].rsaKey.e == 3;
    hide Fills, Rsa.ValidKey, SharesFill, C.Received;
  }

  lemma AllKeysFitExactly(C: Ceremony)
    requires C.Usable()
    ensures (forall i :: 0 <= i < C.n ==> KeyGeneratedFits(KeyGenerated(i, C.Key(i), C.RsaKeys()[i]))) <==> KeysFit(C)
  {
    hide KeyGeneratedFits, KeyNumbersFit;
    forall i | 0 <= i < C.n
      ensures KeyGeneratedFits(KeyGenerated(i, C.Key(i), C.RsaKeys()[i])) <==> KeyNumbersFit(C, i)
    {
      KeyFitsExactly(C, i);
    }
  }

  lemma AllDealtFitExactly(C: Ceremony)
    requires C.Usable()
    ensures (forall i :: 0 <= i < C.n ==> SharesFill(C.Dealt(i))) <==> DealtFit(C)
  {
    hide SharesFill, DealtNumbersFit;
    forall i | 0 <= i < C.n ensures SharesFill(C.Dealt(i)) <==> DealtNumbersFit(C, i) {
      DealtFitExactly(C, i);
    }
  }

  lemma AllStatesFitExactly(C: Ceremony)
    requires C.Usable() && KeysFit(C) && DealtFit(C)
    ensures (forall i :: 0 <= i < C.n ==> StateFits(C.StateOf(i))) <==> StatesFit(C)
  {
    hide StateFits, StateNumbersFit, DealtFit, SharesFill, Fills, C.StateOf;
    forall i | 0 <= i < C.n ensures StateFits(C.StateOf(i)) <==> StateNumbersFit(C, i) {
      assert KeyNumbersFit(C, i);
      ReceivedFill(C, i);
      StateFitsExactly(C, i);
    }
  }

  /** The ceremony goes through if and only if its parameters are accepted and its numbers fit. */
  lemma CeremonySucceedsExactly(C: Ceremony)
    requires C.Usable()
    ensures C.Succeeds() <==> 1 <= C.k <= C.n <= MAX_TRUSTEES && CeremonyNumbersFit(C)
  {
    hide KeyGeneratedFits, StateFits, SharesFill, Fills, KeysFit, DealtFit, StatesFit;
    hide C.Key, C.Dealt, C.StateOf, C.RsaKeys;
    AllKeysFitExactly(C);
    AllDealtFitExactly(C);
    if KeysFit(C) && DealtFit(C) {
      AllStatesFitExactly(C);
    }
    if 1 <= C.k {
      JointKeyIsPowerOfSecrets(C);
      JointKeyFits(C);
    }
  }

  lemma JointKeyFits(C: Ceremony)
    requires C.Usable() && 1 <= C.k && C.JointKey() == C.G.Exp(C.G.g, BareElection(C).Secret())
    ensures Fills(C.JointKey(), WORDS_4096) <==> PowerFits(C.G, BareElection(C).Secret())
  {
    hide Fills;
  }

  // ---- the ballots' numbers -----------------------------------------------------------------------

  /** Both halves of every ciphertext of this voter's ballot. */
  ghost predicate BallotNumbersFit(C: Ceremony, voter: Voter)
    requires C.Usable() && |voter.selections| == |voter.draws|
  {
    forall j :: 0 <= j < |voter.draws| ==>
      && PowerFits(C.G, voter.draws[j].nonce)
      && PowerFits(C.G, BareElection(C).Secret() * voter.draws[j].nonce + (if voter.selections[j] then 1 else 0))
  }

  lemma BallotFitsExactly(C: Ceremony, voter: Voter)
    requires C.Usable() && 1 <= C.k && |voter.selections| == |voter.draws|
    ensures BallotFits(EncryptAll(C.G, C.JointKey(), voter.selections, voter.draws)) <==> BallotNumbersFit(C, voter)
  {
    hide EncryptionFits, PowerFits, C.Usable, C.JointKey, EncryptSelection, EncryptAll, C.G.Exp, BareElection;
    GroupOf(C);
    JointKeyIsPowerOfSecrets(C);
    var s := BareElection(C).Secret();
    var encrypted := EncryptAll(C.G, C.JointKey(), voter.selections, voter.draws);
    forall j | 0 <= j < |encrypted|
      ensures EncryptionFits(encrypted[j]) <==>
        PowerFits(C.G, voter.draws[j].nonce) && PowerFits(C.G, s * voter.draws[j].nonce + Vote(voter.selections[j]))
    {
      SelectionFits(C.G, s, voter.selections[j], voter.draws[j].nonce);
    }
  }

  lemma SelectionFits(G: Group, s: int, selected: bool, nonce: nat)
    requires G.Valid()
    ensures EncryptionFits(EncryptSelection(G, G.Exp(G.g, s), selected, nonce)) <==>
      PowerFits(G, nonce) && PowerFits(G, s * nonce + Vote(selected))
  {
    hide Fills, EncryptSelection;
    SelectionEncrypts(G, s, selected, nonce);
  }

  // ---- the tally's numbers ------------------------------------------------------------------------

  /** The sum of the nonces of the cast ballots for j. */
  function NonceSum(voters: seq<Voter>, j: nat): nat {
    if voters == [] then 0
    else
      var last := voters[|voters| - 1];
      NonceSum(voters[..|voters| - 1], j) + (if last.cast && j < |last.draws| then last.draws[j].nonce else 0)
  }

  lemma {:induction false} CastSumIsNonceSum(ballots: seq<Ballot>, voters: seq<Voter>, j: nat)
    requires |ballots| == |voters| && forall b :: 0 <= b < |voters| ==> ballots[b].cast == voters[b].cast
    ensures CastSum(ballots, AllNonces(voters), j) == NonceSum(voters, j)
  {
    if voters != [] {
      var n := |voters| - 1;
      CastSumIsNonceSum(ballots[..n], voters[..n], j);
      assert AllNonces(voters)[..n] == AllNonces(voters[..n]);
    }
  }

  /**
   The numbers on the way to the result for selection j, when these trustees attend: the
   tally's two halves, the second one also with the joint secret in the exponent, a share
   of every attending trustee, and a fragment of every asked one for every missing one.
   The result is found unless g to the count is the literal the search stops at.
   */
  ghost predicate ResultNumbersFit(C: Ceremony, voters: seq<Voter>, attending: seq<bool>, j: nat)
    requires C.Usable() && 1 <= C.k && |attending| == C.n
  {
    var s, r, v := BareElection(C).Secret(), NonceSum(voters, j), VoteCount(voters, j);
    && PowerFits(C.G, s * r + v) && PowerFits(C.G, r * s)
    && (forall i :: 0 <= i < C.n && attending[i] ==> PowerFits(C.G, r * C.draws[i].coefficients[0]))
    && (forall l, i :: 0 <= l < C.n && 0 <= i < C.n && IsAsked(C.k, attending, l) && !attending[i] ==>
          PowerFits(C.G, r * Poly(C.draws[i].coefficients, l + 1)))
    && (C.G.Exp(C.G.g, v) == 1 || C.G.Exp(C.G.g, v) != MAX_DECRYPTION)
  }

  ghost predicate TallyNumbersFit(C: Ceremony, voters: seq<Voter>, m: nat, attending: seq<bool>)
    requires C.Usable() && 1 <= C.k && |attending| == C.n
  {
    CoefficientsFit(C.G, C.k, attending) && forall j :: 0 <= j < m ==> ResultNumbersFit(C, voters, attending, j)
  }

  /** A secret that is congruent to the joint one is as good. */
  lemma EntryFitsExactly(C: Ceremony, voters: seq<Voter>, attending: seq<bool>, d: int, j: nat)
    requires C.Usable() && 1 <= C.k && |attending| == C.n && Cong(d, BareElection(C).Secret(), C.G.q)
    ensures EntryFits(C.G, C.k, C.Polynomials(), attending, BareElection(C).Secret(), d,
                      NonceSum(voters, j), VoteCount(voters, j))
       <==> ResultNumbersFit(C, voters, attending, j)
  {
    hide Poly, BareElection, NonceSum, VoteCount, C.G.Exp, Cong, PowerFits, C.Usable, C.Polynomials, IsAsked;
    var s, r, v := BareElection(C).Secret(), NonceSum(voters, j), VoteCount(voters, j);
    PolynomialsAre(C);
    SamePowers(C.G, r, v, s, d);
  }

  lemma PolynomialsAre(C: Ceremony)
    requires C.Usable() && 1 <= C.k
    ensures C.G.Valid() && C.G.Positive() && |C.draws| == |C.Polynomials()| == C.n
    ensures forall i :: 0 <= i < C.n ==> C.Polynomials()[i] == C.draws[i].coefficients && 0 < |C.draws[i].coefficients|
  {}

  lemma SamePowers(G: Group, r: int, v: int, s: int, d: int)
    requires G.Valid() && Cong(d, s, G.q)
    ensures PowerFits(G, r * d) <==> PowerFits(G, r * s)
    ensures G.Exp(G.g, v + r * (s - d)) == G.Exp(G.g, v)
  {
    CongScale(r, d, s, G.q);
    ExpCong(G, G.g, r * d, r * s);
    assert v + r * (s - d) == v + r * s - r * d;
    CongAdd(r * s, r * d, v - r * d, v - r * d, G.q);
    ExpCong(G, G.g, v + r * (s - d), v);
  }

  /** The run by exactly the threshold or all of the trustees. */
  lemma RunFitsExactly(C: Ceremony, voters: seq<Voter>, record: VotingRecord, states: seq<TrusteeState>)
    requires Conducted(C, voters, record, states)
    requires
      var present := |Listed(Present(states, C.n))|;
      present == C.k || present == C.n
    ensures C.G.Valid() && UsableStates(ConfigOf(C, record), states) && UsableRecord(C.G, ConfigOf(C, record), record)
    ensures RunSucceeds(C.G, ConfigOf(C, record), states, record)
       <==> C.k <= |states| && TallyNumbersFit(C, voters, record.numSelections, Present(states, C.n))
  {
    ReadyToTally(C, voters, record, states);
    var E := ElectionBehind(C, voters, record, states);
    var attending, d := Present(states, C.n), E.Combined(Present(states, C.n), Present(states, C.n));
    assert C.Usable() && E.polys == C.Polynomials() && |E.tallies| == record.numSelections;
    JointSecretIs(E, ConfigOf(C, record));
    JointSecretIs(BareElection(C), ConfigOf(C, record));
    CombinedIsSecret(E, attending);
    hide Conducted, UsableStates, UsableRecord, E.Valid, RunSucceeds, FromCeremony, E.Combined, BallotsEncrypt;
    RunSucceedsExactly(E, ConfigOf(C, record), states, record);
    forall j | 0 <= j < record.numSelections
      ensures EntryFits(E.G, E.k, E.polys, attending, E.Secret(), d, E.nonces[j], E.votes[j])
         <==> ResultNumbersFit(C, voters, attending, j)
    {
      CastSumIsNonceSum(record.ballots, voters, j);
      EntryFitsExactly(C, voters, attending, d, j);
    }
    hide ResultNumbersFit, EntryFits, Present, CoefficientsFit, E.Secret;
  }
}

/**
 From ballots to the published number: what the tally of a voting record encrypts,
 and what the coordinator's final division decodes.
 */
module Publication {
  import opened Arithmetic
  import opened Primes
  import opened Group
  import opened Bignum
  import opened Crypto
  import opened Interpolation
  import opened DecryptionMessages
  import opened DecryptionTrustee
  import opened DecryptionCoordinator
  import opened TallyTheorem
  import opened Threshold
  import opened ThresholdExact

  // ---- the tally of a voting record -------------------------------------------------------

  /** The sum over the cast ballots of their j-th entry. */
  function CastSum(ballots: seq<Ballot>, entries: seq<seq<int>>, j: nat): int
    requires |ballots| == |entries|
  {
    if ballots == [] then 0
    else
      var n := |ballots| - 1;
      CastSum(ballots[..n], entries[..n], j)
        + (if ballots[n].cast && j < |entries[n]| then entries[n][j] else 0)
  }

  /** Every selection of the ballot encrypts its vote with its nonce. */
  ghost predicate BallotEncrypts(G: Group, s: int, ballot: Ballot, nonces: seq<int>, votes: seq<int>, m: nat)
    requires G.Positive()
  {
    && |ballot.selections| == |nonces| == |votes| == m
    && forall j :: 0 <= j < m ==> Encrypts(G, s, ballot.selections[j], nonces[j], votes[j])
  }

  ghost predicate BallotsEncrypt(G: Group, s: int, ballots: seq<Ballot>, nonces: seq<seq<int>>, votes: seq<seq<int>>, m: nat)
    requires G.Positive()
  {
    && |ballots| == |nonces| == |votes|
    && forall b :: 0 <= b < |ballots| ==> BallotEncrypts(G, s, ballots[b], nonces[b], votes[b], m)
  }

  lemma BallotsPrefix(G: Group, s: int, ballots: seq<Ballot>, nonces: seq<seq<int>>, votes: seq<seq<int>>, m: nat, n: nat)
    requires G.Positive() && BallotsEncrypt(G, s, ballots, nonces, votes, m) && n <= |ballots|
    ensures BallotsEncrypt(G, s, ballots[..n], nonces[..n], votes[..n], m)
  {
    hide BallotEncrypts;
    forall b | 0 <= b < n
      ensures BallotEncrypts(G, s, ballots[..n][b], nonces[..n][b], votes[..n][b], m)
    {
      assert BallotEncrypts(G, s, ballots[b], nonces[b], votes[b], m);
    }
  }

  /** The tally encrypts, selection by selection, the sum of the cast votes. */
  lemma {:induction false} TallyEncryptsSums(G: Group, s: int, ballots: seq<Ballot>, nonces: seq<seq<int>>, votes: seq<seq<int>>,
                                             m: nat, j: nat)
    requires G.Valid() && BallotsEncrypt(G, s, ballots, nonces, votes, m) && j < m
    requires forall b :: b in ballots ==> m <= |b.selections|
    ensures Encrypts(G, s, TallyOf(G, DecryptionTrustee.Zeros(m), ballots)[j], CastSum(ballots, nonces, j), CastSum(ballots, votes, j))
  {
    if ballots == [] {
      ZeroEncrypts(G, s);
    } else {
      var n := |ballots| - 1;
      BallotsPrefix(G, s, ballots, nonces, votes, m, n);
      TallyEncryptsSums(G, s, ballots[..n], nonces[..n], votes[..n], m, j);
      if ballots[n].cast {
        assert BallotEncrypts(G, s, ballots[n], nonces[n], votes[n], m);
        assert Encrypts(G, s, ballots[n].selections[j], nonces[n][j], votes[n][j]);
        hide Encrypts;
        AddEncrypts(G, s, TallyOf(G, DecryptionTrustee.Zeros(m), ballots[..n])[j],
                    CastSum(ballots[..n], nonces[..n], j), CastSum(ballots[..n], votes[..n], j),
                    ballots[n].selections[j], nonces[n][j], votes[n][j]);
      }
    }
  }

  // ---- what the coordinator decodes -----------------------------------------------------------

  /** The tally's entry in the coordinator once its nonce has been raised to d. */
  function Raised(E: Election, j: nat, d: int): Encryption
    requires E.G.Positive() && j < |E.tallies| == |E.nonces|
  {
    Encryption(E.G.Exp(E.G.g, E.nonces[j] * d), E.tallies[j].messageEncoding)
  }

  /** Decoding leaves the votes, off by the nonce times what is missing from the secret. */
  lemma DecodedTally(E: Election, j: nat, d: int)
    requires E.Valid() && j < |E.tallies|
    ensures Decoded(E.G, Raised(E, j, d)) == E.G.Exp(E.G.g, E.votes[j] + E.nonces[j] * (E.Secret() - d))
    ensures E.G.InSubgroup(Decoded(E.G, Raised(E, j, d)))
  {
    var r := E.nonces[j];
    assert Encrypts(E.G, E.Secret(), E.tallies[j], r, E.votes[j]);
    DecryptEncrypts(E.G, E.Secret(), E.tallies[j], r, E.votes[j], r * d);
    MulComm(E.Secret(), r);
    MulDistrib(r, E.Secret(), d);
  }

  /** The decoded element is the generator to the votes exactly when nothing is missing, up to the nonce. */
  lemma DecodedIsVotesExactly(E: Election, j: nat, d: int)
    requires E.Valid() && j < |E.tallies|
    ensures Decoded(E.G, Raised(E, j, d)) == E.G.Exp(E.G.g, E.votes[j])
       <==> Cong(E.nonces[j] * d, E.nonces[j] * E.Secret(), E.G.q)
  {
    DecodedTally(E, j, d);
    var r, t, s := E.nonces[j], E.votes[j], E.Secret();
    GeneratorInjective(E.G, t + r * (s - d), t);
    hide E.Valid, E.Secret, Encrypts;
    MulDistrib(r, s, d);
    if Cong(t + r * (s - d), t, E.G.q) {
      CongAdd(t + r * (s - d), t, t - r * d, t - r * d, E.G.q);
      CongAdd(t + r * (s - d), t, t, t, E.G.q);
      CongAdd(r * (s - d), 0, r * d, r * d, E.G.q);
    }
    if Cong(r * d, r * s, E.G.q) {
      CongAdd(r * s, r * d, r * d, r * d, E.G.q);
      CongAdd(t, t, r * (s - d), 0, E.G.q);
    }
  }

  /** With the whole secret the published number is the sum of the votes. */
  lemma PublishedIsVotes(E: Election, j: nat, d: int)
    requires E.Valid() && j < |E.tallies| && 0 <= E.votes[j] < E.G.q
    requires Cong(d, E.Secret(), E.G.q)
    ensures Decoded(E.G, Raised(E, j, d)) == E.G.Exp(E.G.g, E.votes[j])
    ensures E.G.InSubgroup(Decoded(E.G, Raised(E, j, d)))
    ensures PublishedTally(E.G, Raised(E, j, d)) == E.votes[j] % UINT32
  {
    CongScale(E.nonces[j], d, E.Secret(), E.G.q);
    DecodedIsVotesExactly(E, j, d);
    DecodedTally(E, j, d);
    DiscreteLogUnique(E.G, E.votes[j]);
  }

  /**
   The defect in numbers: three trustees, threshold one, the first two announce.
   The first one stands in for the third, but with weight two.
   */
  lemma TwoOfThreeFails(G: Group)
    requires G.Valid() && 27 < G.q
    ensures !Rebuilds(G, 3, 1, [[0], [0], [1]], [true, true, false])
  {
    var anounced := [true, true, false];
    var polys := [[0], [0], [1]];
    var E := WithKeys(G, 3, 1, polys);
    assert polys == SingleKey(3, 1, 2, [1]) by {
      assert ThresholdExact.Zeros(1) == [0];
    }
    TwoOfThreeListed();
    SingleKeySecrets(G, 3, 1, 2, [1], anounced);
    SingleKeyCombined(G, 3, 1, 2, [1], anounced);
    SingleKeyValues(G, 3, 1, 2, [1], anounced, 0);
    CombineFirst(G, [0, 1], [0], (l: nat) => E.MissingValue(anounced, l));
    PolyFirst([1], 1);
    TwoOfThreeWeight(G);
    CongMod(1, G.q);
    CongMod(2, G.q);
  }

  lemma TwoOfThreeListed()
    ensures Listed([true, true, false]) == [0, 1]
  {
    assert [true, true, false][..2] == [true, true] && [true, true][..1] == [true] && [true][..0] == [];
    assert Listed([true]) == [0];
    assert Listed([true, true]) == [0, 1];
  }

  lemma TwoOfThreeWeight(G: Group)
    requires G.Valid() && 27 < G.q
    ensures Cong(Weight(G, [0, 1], 0), 2, G.q)
  {
    WeightEquation(G, [0, 1], 0);
    assert [0, 1][..1] == [0] && [0][..0] == [];
    assert Numerator(0, [0]) == 1 && Denominator(0, [0]) == 1;
    assert Numerator(0, [0, 1]) == 2 && Denominator(0, [0, 1]) == 1;
  }
}

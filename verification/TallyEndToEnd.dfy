/**
 From ballots to published numbers: a decryption run of trustees that a key
 ceremony left behind publishes, for every selection, the sum of the cast votes.
 */
module TallyEndToEnd {
  import opened Arithmetic
  import opened Group
  import opened Bignum
  import opened Crypto
  import opened DecryptionMessages
  import opened DecryptionTrustee
  import opened DecryptionCoordinator
  import opened TallyTheorem
  import opened Threshold
  import opened Publication
  import opened TallyVotes
  import opened TallyDriver

  function Sums(ballots: seq<Ballot>, entries: seq<seq<int>>, m: nat): (r: seq<int>)
    requires |ballots| == |entries|
    ensures |r| == m && forall j :: 0 <= j < m ==> r[j] == CastSum(ballots, entries, j)
  {
    seq(m, (j: int) => if j >= 0 then CastSum(ballots, entries, j) else 0)
  }

  /** What the run decrypts, if the ballots' selections encrypt these votes with these nonces. */
  function ElectionOf(G: Group, config: Config, polys: seq<seq<nat>>, record: VotingRecord,
                      nonces: seq<seq<int>>, votes: seq<seq<int>>): Election
    requires G.Positive() && |record.ballots| == |nonces| == |votes|
    requires forall b :: b in record.ballots ==> config.numSelections <= |b.selections|
  {
    var m := config.numSelections;
    Election(G, config.numTrustees, config.threshold, polys, RunTally(G, config, record),
             Sums(record.ballots, nonces, m), Sums(record.ballots, votes, m))
  }

  /** Polynomials as a key ceremony with these parameters makes them. */
  predicate PolynomialsOf(G: Group, config: Config, polys: seq<seq<nat>>) {
    && 1 <= config.threshold <= config.numTrustees < G.q
    && |polys| == config.numTrustees
    && forall i :: 0 <= i < |polys| ==> |polys[i]| == config.threshold
  }

  /** The secret of the joint key of these polynomials. */
  function JointSecret(G: Group, config: Config, polys: seq<seq<nat>>): int {
    Election(G, config.numTrustees, config.threshold, polys, [], [], []).Secret()
  }

  lemma JointSecretIs(E: Election, config: Config)
    requires E.n == config.numTrustees && E.k == config.threshold
    ensures E.Secret() == JointSecret(E.G, config, E.polys)
  {
    var bare := Election(E.G, config.numTrustees, config.threshold, E.polys, [], [], []);
    FlagSumSame(Repeated(true, E.n), (i: nat) => E.SecretOf(i), (i: nat) => bare.SecretOf(i));
  }

  lemma ElectionIsValid(G: Group, config: Config, polys: seq<seq<nat>>, record: VotingRecord,
                        nonces: seq<seq<int>>, votes: seq<seq<int>>)
    requires G.Valid() && PolynomialsOf(G, config, polys)
    requires BallotsEncrypt(G, JointSecret(G, config, polys), record.ballots, nonces, votes, config.numSelections)
    requires forall b :: b in record.ballots ==> config.numSelections <= |b.selections|
    ensures ElectionOf(G, config, polys, record, nonces, votes).Valid()
  {
    var E := ElectionOf(G, config, polys, record, nonces, votes);
    JointSecretIs(E, config);
    hide Encrypts, FlagSum, BallotsEncrypt, TallyOf, CastSum;
    forall j | 0 <= j < |E.tallies| ensures Encrypts(G, E.Secret(), E.tallies[j], E.nonces[j], E.votes[j]) {
      TallyEncryptsSums(G, E.Secret(), record.ballots, nonces, votes, config.numSelections, j);
    }
  }

  /** The trustees whose states are given are all ones this ceremony left behind. */
  ghost predicate FromCeremony(E: Election, states: seq<TrusteeState>)
    requires E.Valid()
  {
    forall s :: s in states ==> HonestState(E, s)
  }

  lemma HonestTableOf(E: Election, config: Config, states: seq<TrusteeState>)
    requires E.Valid() && E.n == config.numTrustees && FromCeremony(E, states)
    ensures HonestTable(E, TableOf(states, config.numTrustees))
  {
    hide HonestState;
    forall i | 0 <= i < config.numTrustees && Latest(states, i).Some?
      ensures HonestState(E, Latest(states, i).value) && Latest(states, i).value.index == i
    {
      LatestIs(states, i);
    }
  }

  /**
   With exactly the threshold of trustees, or all of them, the run fails only on
   numbers it cannot write or a tally it takes for the end of its search; when it
   succeeds, what it published is the sums of the cast votes.
   */
  lemma VotesArePublished(G: Group, config: Config, polys: seq<seq<nat>>, states: seq<TrusteeState>,
                          record: VotingRecord, nonces: seq<seq<int>>, votes: seq<seq<int>>)
    requires G.Valid() && PolynomialsOf(G, config, polys) && config.numTrustees <= MAX_TRUSTEES
    requires UsableStates(config, states) && UsableRecord(G, config, record)
    requires record.numSelections == config.numSelections
    requires BallotsEncrypt(G, JointSecret(G, config, polys), record.ballots, nonces, votes, config.numSelections)
    requires (ElectionIsValid(G, config, polys, record, nonces, votes);
              FromCeremony(ElectionOf(G, config, polys, record, nonces, votes), states))
    requires
      var present := |Listed(Present(states, config.numTrustees))|;
      present == config.threshold || present == config.numTrustees
    requires forall j :: 0 <= j < config.numSelections ==> 0 <= CastSum(record.ballots, votes, j) < G.q
    ensures
      var c := RunFinal(G, config, states, record);
      && SeenOrCompensated(c)
      && |c.tallies| == config.numSelections
      && forall j :: 0 <= j < config.numSelections ==>
          && Decoded(G, c.tallies[j]) == G.Exp(G.g, CastSum(record.ballots, votes, j))
          && G.InSubgroup(Decoded(G, c.tallies[j]))
          && PublishedTally(G, c.tallies[j]) == CastSum(record.ballots, votes, j) % UINT32
    ensures (
      UsableTableOf(config, states);
      var t, tally := TableOf(states, config.numTrustees), RunTally(G, config, record);
      RunSucceeds(G, config, states, record) <==> (
        && config.threshold <= |states|
        && SharesFit(G, t, tally, |t|)
        && AnswersFit(G, AnnouncedState(G, config.threshold, t, tally), t, tally, |t|)
        && forall j :: 0 <= j < config.numSelections ==>
            Publishable(G, RunFinal(G, config, states, record).tallies[j])))
  {
    ElectionIsValid(G, config, polys, record, nonces, votes);
    var E := ElectionOf(G, config, polys, record, nonces, votes);
    var t := TableOf(states, config.numTrustees);
    UsableTableOf(config, states);
    HonestTableOf(E, config, states);
    assert Present(states, config.numTrustees) == Announcing(t);
    ZerosInGroup(G, config.numSelections);
    TallyInGroup(G, DecryptionTrustee.Zeros(config.numSelections), record.ballots);
    assert |Announcing(t)| == E.n;
    FlagsBound(Announcing(t));
    HonestRun(E, t);
    CombinedIsSecret(E, Announcing(t));
    var d := E.Combined(Announcing(t), Announcing(t));
    assert FinalState(G, E.k, t, E.tallies) == RunFinal(G, config, states, record);
    hide FinalState, RunFinal, E.Combined, E.Secret, Encrypts, G.Exp, CastSum, BallotsEncrypt, AllInGroup, FromCeremony;
    forall j | 0 <= j < config.numSelections
      ensures
        && Decoded(G, Raised(E, j, d)) == G.Exp(G.g, CastSum(record.ballots, votes, j))
        && G.InSubgroup(Decoded(G, Raised(E, j, d)))
        && PublishedTally(G, Raised(E, j, d)) == CastSum(record.ballots, votes, j) % UINT32
    {
      PublishedIsVotes(E, j, d);
    }
  }

  lemma FlagsBound(flags: seq<bool>)
    ensures |Listed(flags)| <= |flags|
  {
    ListedMembers(flags);
  }
}

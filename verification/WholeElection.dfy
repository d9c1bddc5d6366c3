/**
 A whole election: the key ceremony's joint key, the ballots encrypted under it,
 and a decryption run by trustees the ceremony left behind. What is published for
 a selection is how many cast ballots selected it.
 */
module WholeElection {
  import opened Arithmetic
  import opened Primes
  import opened Group
  import opened Bignum
  import opened Crypto
  import opened Proofs
  import opened DecryptionMessages
  import opened DecryptionTrustee
  import opened DecryptionCoordinator
  import opened TallyTheorem
  import opened Publication
  import opened TallyVotes
  import opened TallyDriver
  import opened TallyEndToEnd
  import opened KeyCeremonyTrustee
  import opened CreateElection
  import opened Encrypter

  /** A ballot as a voter marked it, and whether it is cast. */
  datatype Voter = Voter(cast: bool, selections: seq<bool>, draws: seq<SelectionDraws>)

  /** How many cast ballots select j. */
  function VoteCount(voters: seq<Voter>, j: nat): nat {
    if voters == [] then 0
    else
      var last := voters[|voters| - 1];
      VoteCount(voters[..|voters| - 1], j) + (if last.cast && j < |last.selections| && last.selections[j] then 1 else 0)
  }

  ghost predicate VotersMark(voters: seq<Voter>, m: nat) {
    forall b :: 0 <= b < |voters| ==> |voters[b].selections| == |voters[b].draws| == m
  }

  /** The record holds the voters' ballots, encrypted under the joint key. */
  ghost predicate RecordOf(C: Ceremony, voters: seq<Voter>, record: VotingRecord)
    requires C.Usable() && 1 <= C.k && VotersMark(voters, record.numSelections)
  {
    && |record.ballots| == |voters|
    && forall b :: 0 <= b < |voters| ==>
        record.ballots[b] == Ballot(voters[b].cast, EncryptAll(C.G, C.JointKey(), voters[b].selections, voters[b].draws))
  }

  function AllNonces(voters: seq<Voter>): seq<seq<int>> {
    seq(|voters|, b requires 0 <= b < |voters| => Nonces(voters[b].draws))
  }

  function AllVotes(voters: seq<Voter>): seq<seq<int>> {
    seq(|voters|, b requires 0 <= b < |voters| => Votes(voters[b].selections))
  }

  lemma {:induction false} CastSumIsVoteCount(ballots: seq<Ballot>, voters: seq<Voter>, j: nat)
    requires |ballots| == |voters| && forall b :: 0 <= b < |voters| ==> ballots[b].cast == voters[b].cast
    ensures CastSum(ballots, AllVotes(voters), j) == VoteCount(voters, j) <= |voters|
  {
    if voters != [] {
      var n := |voters| - 1;
      CastSumIsVoteCount(ballots[..n], voters[..n], j);
      assert AllVotes(voters)[..n] == AllVotes(voters[..n]);
    }
  }

  lemma EncryptsInGroup(G: Group, s: int, e: Encryption, r: int, t: int)
    requires G.Positive() && Encrypts(G, s, e, r, t)
    ensures InGroup(G, e)
  {}

  lemma BallotInGroup(G: Group, s: int, ballot: Ballot, nonces: seq<int>, votes: seq<int>, m: nat)
    requires G.Positive() && BallotEncrypts(G, s, ballot, nonces, votes, m)
    ensures AllInGroup(G, ballot.selections)
  {
    forall j | 0 <= j < m ensures InGroup(G, ballot.selections[j]) {
      EncryptsInGroup(G, s, ballot.selections[j], nonces[j], votes[j]);
    }
  }

  lemma RecordEncrypts(C: Ceremony, voters: seq<Voter>, record: VotingRecord)
    requires C.Usable() && 1 <= C.k && VotersMark(voters, record.numSelections) && RecordOf(C, voters, record)
    ensures BallotsEncrypt(C.G, BareElection(C).Secret(), record.ballots, AllNonces(voters), AllVotes(voters),
                           record.numSelections)
    ensures forall b :: b in record.ballots ==>
      |b.selections| == record.numSelections && AllInGroup(C.G, b.selections)
  {
    var s := BareElection(C).Secret();
    JointKeyIsPowerOfSecrets(C);
    hide BallotEncrypts, AllInGroup, EncryptAll;
    forall b | 0 <= b < |voters|
      ensures BallotEncrypts(C.G, s, record.ballots[b], AllNonces(voters)[b], AllVotes(voters)[b], record.numSelections)
      ensures |record.ballots[b].selections| == record.numSelections && AllInGroup(C.G, record.ballots[b].selections)
    {
      BallotEncryptsSelections(C.G, s, voters[b].cast, voters[b].selections, voters[b].draws);
      BallotInGroup(C.G, s, record.ballots[b], AllNonces(voters)[b], AllVotes(voters)[b], record.numSelections);
    }
  }

  /** The states given to the decryption run are ones that the ceremony exported. */
  ghost predicate ExportedStates(C: Ceremony, states: seq<TrusteeState>)
    requires C.Usable()
  {
    forall l :: 0 <= l < |states| ==> IsExported(C, states[l])
  }

  ghost predicate IsExported(C: Ceremony, s: TrusteeState)
    requires C.Usable()
  {
    exists i :: 0 <= i < C.n && s == C.StateOf(i)
  }

  lemma ExportedStatesUsable(C: Ceremony, config: Config, states: seq<TrusteeState>)
    requires C.Usable() && C.n == config.numTrustees <= MAX_TRUSTEES && 1 <= C.k && ExportedStates(C, states)
    ensures UsableStates(config, states)
  {
    forall s | s in states ensures UsableState(s, config.numTrustees) {
      var l :| 0 <= l < |states| && states[l] == s;
      var i :| 0 <= i < C.n && states[l] == C.StateOf(i);
    }
  }

  lemma ExportedFromCeremony(C: Ceremony, E: Election, states: seq<TrusteeState>)
    requires C.Usable() && E.Valid() && ExportedStates(C, states)
    requires E.G == C.G && E.n == C.n && E.k == C.k && E.polys == C.Polynomials()
    ensures FromCeremony(E, states)
  {
    hide HonestState, E.Valid;
    forall s | s in states ensures HonestState(E, s) {
      var l :| 0 <= l < |states| && states[l] == s;
      var i :| 0 <= i < C.n && states[l] == C.StateOf(i);
      ExportedStatesAreHonest(C, E, i);
    }
  }

  /** The ceremony has been held, the ballots are in the record, and the trustees are those who take part. */
  ghost predicate Conducted(C: Ceremony, voters: seq<Voter>, record: VotingRecord, states: seq<TrusteeState>) {
    && C.Usable() && 1 <= C.k <= C.n <= MAX_TRUSTEES && C.n < C.G.q
    && |voters| < C.G.q && VotersMark(voters, record.numSelections) && RecordOf(C, voters, record)
    && ExportedStates(C, states)
  }

  function ConfigOf(C: Ceremony, record: VotingRecord): Config {
    Config(C.n, C.k, record.numSelections)
  }

  /** What a decryption run needs of its inputs holds after a ceremony. */
  lemma ReadyToTally(C: Ceremony, voters: seq<Voter>, record: VotingRecord, states: seq<TrusteeState>)
    requires Conducted(C, voters, record, states)
    ensures C.G.Valid() && UsableStates(ConfigOf(C, record), states) && UsableRecord(C.G, ConfigOf(C, record), record)
  {
    ExportedStatesUsable(C, ConfigOf(C, record), states);
    hide UsableStates, ExportedStates;
    RecordEncrypts(C, voters, record);
  }

  /** The election that the run decrypts: its votes are the voters' counts. */
  lemma ElectionBehind(C: Ceremony, voters: seq<Voter>, record: VotingRecord, states: seq<TrusteeState>)
    returns (E: Election)
    requires Conducted(C, voters, record, states)
    ensures C.G.Valid() && UsableRecord(C.G, ConfigOf(C, record), record)
    ensures BallotsEncrypt(C.G, JointSecret(C.G, ConfigOf(C, record), C.Polynomials()), record.ballots,
                           AllNonces(voters), AllVotes(voters), record.numSelections)
    ensures PolynomialsOf(C.G, ConfigOf(C, record), C.Polynomials())
    ensures E == ElectionOf(C.G, ConfigOf(C, record), C.Polynomials(), record, AllNonces(voters), AllVotes(voters))
    ensures E.Valid() && FromCeremony(E, states)
    ensures forall j :: 0 <= j < record.numSelections ==>
      CastSum(record.ballots, AllVotes(voters), j) == VoteCount(voters, j) < C.G.q
  {
    var config := ConfigOf(C, record);
    RecordEncrypts(C, voters, record);
    JointSecretIs(BareElection(C), config);
    ElectionIsValid(C.G, config, C.Polynomials(), record, AllNonces(voters), AllVotes(voters));
    E := ElectionOf(C.G, config, C.Polynomials(), record, AllNonces(voters), AllVotes(voters));
    ExportedFromCeremony(C, E, states);
    forall j | 0 <= j < record.numSelections
      ensures CastSum(record.ballots, AllVotes(voters), j) == VoteCount(voters, j) <= |voters|
    {
      CastSumIsVoteCount(record.ballots, voters, j);
    }
    ReadyToTally(C, voters, record, states);
  }

  /**
   The promise of the whole system. When exactly the threshold of trustees, or all
   of them, take part and the run succeeds, the number published for selection j
   is the number of cast ballots that select j, modulo 2^32.
   */
  lemma PublishedCountsVotes(C: Ceremony, voters: seq<Voter>, record: VotingRecord,
                             states: seq<TrusteeState>, results: seq<nat>)
    requires Conducted(C, voters, record, states)
    requires
      var present := |Listed(Present(states, C.n))|;
      present == C.k || present == C.n
    requires (ReadyToTally(C, voters, record, states);
              Published(C.G, RunFinal(C.G, ConfigOf(C, record), states, record), results))
    ensures |results| == record.numSelections
    ensures forall j :: 0 <= j < record.numSelections ==> results[j] == VoteCount(voters, j) % UINT32
  {
    ReadyToTally(C, voters, record, states);
    var E := ElectionBehind(C, voters, record, states);
    assert 1 <= C.k <= C.n <= MAX_TRUSTEES;
    hide Conducted, BallotsEncrypt, FromCeremony, CastSum, VoteCount, UsableStates, UsableRecord, E.Valid, Listed, Present;
    VotesArePublished(C.G, ConfigOf(C, record), C.Polynomials(), states, record, AllNonces(voters), AllVotes(voters));
  }
}

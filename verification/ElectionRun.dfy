/**
 An election from beginning to end on the objects of the SDK, as the example program
 runs it (examples/api/main.c): the key ceremony, a ballot for every voter, and a
 decryption run by some of the trustees.
 */
module ElectionRun {
  import opened Group
  import opened Bignum
  import opened Crypto
  import opened Proofs
  import opened DecryptionMessages
  import opened DecryptionCoordinator
  import opened TallyVotes
  import opened TallyDriver
  import opened KeyCeremonyTrustee
  import opened CreateElection
  import opened CeremonyDriver
  import opened Encrypter
  import opened WholeElection
  import opened RunNumbers
  import opened ElectionNumbers
  import TallyTheorem
  import Wire

  // ---- what is made of the voters and of the ceremony -----------------------------------------

  ghost function BallotOf(C: Ceremony, voter: Voter): Ballot
    requires C.Usable() && 1 <= C.k && |voter.selections| == |voter.draws|
  {
    Ballot(voter.cast, EncryptAll(C.G, C.JointKey(), voter.selections, voter.draws))
  }

  /** The first i voters select as many as expected, and their ciphertexts fill their words. */
  ghost predicate BallotsMade(C: Ceremony, voters: seq<Voter>, expected: seq<nat>, m: nat, i: nat)
    requires C.Usable() && 1 <= C.k && VotersMark(voters, m) && i <= |voters| == |expected|
  {
    forall b :: 0 <= b < i ==>
      |Listed(voters[b].selections)| == expected[b] && BallotFits(BallotOf(C, voters[b]).selections)
  }

  ghost predicate AllBallots(C: Ceremony, voters: seq<Voter>, m: nat, ballots: seq<Ballot>)
    requires C.Usable() && 1 <= C.k && VotersMark(voters, m)
  {
    |ballots| <= |voters| && forall b :: 0 <= b < |ballots| ==> ballots[b] == BallotOf(C, voters[b])
  }

  ghost function RecordFor(C: Ceremony, voters: seq<Voter>, m: nat): (r: VotingRecord)
    requires C.Usable() && 1 <= C.k && VotersMark(voters, m)
    ensures r.numSelections == m && RecordOf(C, voters, r)
  {
    VotingRecord(m, seq(|voters|, b requires 0 <= b < |voters| => BallotOf(C, voters[b])))
  }

  ghost function StatesFor(C: Ceremony, present: seq<nat>): (r: seq<TrusteeState>)
    requires C.Usable() && forall l :: 0 <= l < |present| ==> present[l] < C.n
    ensures |r| == |present| && forall l :: 0 <= l < |r| ==> r[l] == C.StateOf(present[l])
  {
    seq(|present|, l requires 0 <= l < |present| => C.StateOf(present[l]))
  }

  /** An election that can be run: parameters, draws, voters and the trustees present at the end. */
  ghost predicate Planned(C: Ceremony, voters: seq<Voter>, expected: seq<nat>, us: seq<nat>, m: nat, present: seq<nat>) {
    && C.Usable() && OracleInRange(C.G, C.hash) && C.n < C.G.q
    && |voters| == |expected| == |us| < C.G.q && VotersMark(voters, m) && m < Wire.UINT32_LIMIT
    && |present| <= MAX_TRUSTEES && forall l :: 0 <= l < |present| ==> present[l] < C.n
  }

  lemma PresentAreExported(C: Ceremony, present: seq<nat>, states: seq<TrusteeState>)
    requires C.Usable() && |states| == |present|
    requires forall l :: 0 <= l < |states| ==> present[l] < C.n && states[l] == C.StateOf(present[l])
    ensures ExportedStates(C, states)
  {
    hide C.StateOf, C.Usable;
    forall l | 0 <= l < |states| ensures IsExported(C, states[l]) {
      assert states[l] == C.StateOf(present[l]);
    }
  }

  lemma PlannedIsConducted(C: Ceremony, voters: seq<Voter>, expected: seq<nat>, us: seq<nat>, m: nat, present: seq<nat>)
    requires Planned(C, voters, expected, us, m, present) && C.ParametersAccepted()
    ensures Conducted(C, voters, RecordFor(C, voters, m), StatesFor(C, present))
    ensures C.G.Valid() && UsableStates(Config(C.n, C.k, m), StatesFor(C, present))
    ensures UsableRecord(C.G, Config(C.n, C.k, m), RecordFor(C, voters, m))
  {
    var record, states := RecordFor(C, voters, m), StatesFor(C, present);
    PresentAreExported(C, present, states);
    hide Conducted, UsableStates, UsableRecord;
    ReadyToTally(C, voters, record, states);
  }

  /** The ceremony, every ballot and the decryption run go through. */
  ghost predicate Succeeds(C: Ceremony, voters: seq<Voter>, expected: seq<nat>, us: seq<nat>, m: nat, present: seq<nat>)
    requires Planned(C, voters, expected, us, m, present)
  {
    && C.Succeeds()
    && BallotsMade(C, voters, expected, m, |voters|)
    && (PlannedIsConducted(C, voters, expected, us, m, present);
        RunSucceeds(C.G, Config(C.n, C.k, m), StatesFor(C, present), RecordFor(C, voters, m)))
  }

  /** Who attends, when the trustees with these indices are present. */
  function Attending(present: seq<nat>, n: nat): (r: seq<bool>)
    ensures |r| == n && forall i :: 0 <= i < n ==> (r[i] <==> i in present)
  {
    seq(n, i => i in present)
  }

  lemma {:induction false} LatestOf(C: Ceremony, present: seq<nat>, i: nat)
    requires C.Usable() && forall l :: 0 <= l < |present| ==> present[l] < C.n
    ensures Latest(StatesFor(C, present), i).Some? <==> i in present
  {
    if present != [] {
      var n := |present| - 1;
      assert StatesFor(C, present)[..n] == StatesFor(C, present[..n]);
      LatestOf(C, present[..n], i);
      assert present == present[..n] + [present[n]];
    }
  }

  lemma PresentAttend(C: Ceremony, present: seq<nat>)
    requires C.Usable() && forall l :: 0 <= l < |present| ==> present[l] < C.n
    ensures Present(StatesFor(C, present), C.n) == Attending(present, C.n)
  {
    hide StatesFor, Latest, C.Usable;
    forall i | 0 <= i < C.n ensures Present(StatesFor(C, present), C.n)[i] == Attending(present, C.n)[i] {
      LatestOf(C, present, i);
    }
  }

  /** Every voter marks as many selections as expected, and the ballot's numbers fit. */
  ghost predicate BallotsFit(C: Ceremony, voters: seq<Voter>, expected: seq<nat>)
    requires C.Usable() && |voters| == |expected|
  {
    forall b :: 0 <= b < |voters| ==>
      && |voters[b].selections| == |voters[b].draws| && |Listed(voters[b].selections)| == expected[b]
      && BallotNumbersFit(C, voters[b])
  }

  lemma BallotsFitExactly(C: Ceremony, voters: seq<Voter>, expected: seq<nat>, m: nat)
    requires C.Usable() && 1 <= C.k && VotersMark(voters, m) && |voters| == |expected|
    ensures BallotsMade(C, voters, expected, m, |voters|) <==> BallotsFit(C, voters, expected)
  {
    hide BallotFits, BallotNumbersFit, EncryptAll, C.Usable, C.JointKey;
    forall b | 0 <= b < |voters|
      ensures BallotFits(BallotOf(C, voters[b]).selections) <==> BallotNumbersFit(C, voters[b])
    {
      BallotFitsExactly(C, voters[b]);
    }
  }

  /** What makes an election succeed, in its parameters, draws and votes. */
  lemma SucceedsExactly(C: Ceremony, voters: seq<Voter>, expected: seq<nat>, us: seq<nat>, m: nat, present: seq<nat>)
    requires Planned(C, voters, expected, us, m, present)
    ensures
      var attending := Attending(present, C.n);
      |Listed(attending)| == C.k || |Listed(attending)| == C.n ==>
        (Succeeds(C, voters, expected, us, m, present) <==>
          && 1 <= C.k <= C.n <= MAX_TRUSTEES && C.k <= |present|
          && CeremonyNumbersFit(C)
          && BallotsFit(C, voters, expected)
          && TallyNumbersFit(C, voters, m, attending))
    ensures |Listed(Attending(present, C.n))| < C.k ==> !Succeeds(C, voters, expected, us, m, present)
  {
    CeremonySucceedsExactly(C);
    PresentAttend(C, present);
    if C.Succeeds() {
      Accepted(C);
      BallotsFitExactly(C, voters, expected, m);
      PlannedIsConducted(C, voters, expected, us, m, present);
      TooFew(C, voters, m, present);
      hide BallotsMade, BallotsFit, TallyNumbersFit, RunSucceeds, C.Succeeds, Conducted, Listed;
      var attending := Attending(present, C.n);
      if |Listed(attending)| == C.k || |Listed(attending)| == C.n {
        RunFitsExactly(C, voters, RecordFor(C, voters, m), StatesFor(C, present));
      }
    }
  }

  /** The same, number by number. */
  lemma ConditionsListed(C: Ceremony, voters: seq<Voter>, expected: seq<nat>, us: seq<nat>, m: nat, present: seq<nat>)
    requires Planned(C, voters, expected, us, m, present)
    ensures
      var attending := Attending(present, C.n);
      |Listed(attending)| == C.k || |Listed(attending)| == C.n ==>
        (Succeeds(C, voters, expected, us, m, present) <==>
          && 1 <= C.k <= C.n <= MAX_TRUSTEES && C.k <= |present|
          && (forall i :: 0 <= i < C.n ==> KeyNumbersFit(C, i))
          && (forall i :: 0 <= i < C.n ==> DealtNumbersFit(C, i))
          && (forall i :: 0 <= i < C.n ==> StateNumbersFit(C, i))
          && PowerFits(C.G, BareElection(C).Secret())
          && (forall b :: 0 <= b < |voters| ==> |Listed(voters[b].selections)| == expected[b])
          && (forall b :: 0 <= b < |voters| ==> BallotNumbersFit(C, voters[b]))
          && (forall l :: 0 <= l < C.n && attending[l] ==>
                FillsPadded(CoefficientOf(C.G, C.k, attending, l), WORDS_256))
          && (forall j :: 0 <= j < m ==> ResultNumbersFit(C, voters, attending, j)))
    ensures |Listed(Attending(present, C.n))| < C.k ==> !Succeeds(C, voters, expected, us, m, present)
  {
    hide Succeeds, Listed, KeyNumbersFit, DealtNumbersFit, StateNumbersFit, BallotNumbersFit, ResultNumbersFit;
    hide CoefficientOf, FillsPadded, PowerFits;
    SucceedsExactly(C, voters, expected, us, m, present);
  }

  /** Fewer than the threshold do not get as far as a result. */
  lemma TooFew(C: Ceremony, voters: seq<Voter>, m: nat, present: seq<nat>)
    requires C.Usable() && C.ParametersAccepted() && VotersMark(voters, m)
    requires forall l :: 0 <= l < |present| ==> present[l] < C.n
    requires C.G.Valid() && UsableStates(Config(C.n, C.k, m), StatesFor(C, present))
    requires UsableRecord(C.G, Config(C.n, C.k, m), RecordFor(C, voters, m))
    ensures |Listed(Attending(present, C.n))| < C.k ==>
      !RunSucceeds(C.G, Config(C.n, C.k, m), StatesFor(C, present), RecordFor(C, voters, m))
  {
    PresentAttend(C, present);
    assert Announcing(TableOf(StatesFor(C, present), C.n)) == Attending(present, C.n);
    hide SharesFit, AnswersFit, StatesFor, RecordFor, Listed;
  }

  // ---- the ballots --------------------------------------------------------------------------------

  lemma OneMoreMade(C: Ceremony, voters: seq<Voter>, expected: seq<nat>, m: nat, i: nat)
    requires C.Usable() && 1 <= C.k && VotersMark(voters, m) && i < |voters| == |expected|
    ensures BallotsMade(C, voters, expected, m, i + 1) <==>
      && BallotsMade(C, voters, expected, m, i)
      && |Listed(voters[i].selections)| == expected[i] && BallotFits(BallotOf(C, voters[i]).selections)
  {}

  lemma NoneMade(C: Ceremony, voters: seq<Voter>, expected: seq<nat>, m: nat)
    requires C.Usable() && 1 <= C.k && VotersMark(voters, m) && |voters| == |expected|
    ensures BallotsMade(C, voters, expected, m, 0)
  {}

  lemma MadeBefore(C: Ceremony, voters: seq<Voter>, expected: seq<nat>, m: nat, i: nat)
    requires C.Usable() && 1 <= C.k && VotersMark(voters, m) && i <= |voters| == |expected|
    ensures BallotsMade(C, voters, expected, m, |voters|) ==> BallotsMade(C, voters, expected, m, i)
  {
    hide BallotFits, BallotOf;
  }

  method EncryptBallots(encrypter: VotingEncrypter, voters: seq<Voter>, expected: seq<nat>, us: seq<nat>,
                        ghost C: Ceremony, ghost m: nat)
    returns (ok: bool, ballots: seq<Ballot>)
    requires C.Usable() && 1 <= C.k && VotersMark(voters, m) && |voters| == |expected| == |us|
    requires encrypter.Valid() && encrypter.G == C.G && encrypter.jointKey == C.JointKey() && encrypter.numSelections == m
    modifies encrypter
    ensures ok <==> BallotsMade(C, voters, expected, m, |voters|)
    ensures ok ==> |ballots| == |voters| && AllBallots(C, voters, m, ballots)
  {
    hide BallotsMade, BallotFits, EncryptAll, Publication.BallotEncrypts, C.JointKey, C.Usable;
    NoneMade(C, voters, expected, m);
    ok, ballots := true, [];
    var i := 0;
    while i < |voters| && ok
      invariant i <= |voters| && encrypter.Valid()
      invariant ok <==> BallotsMade(C, voters, expected, m, i)
      invariant ok ==> |ballots| == i && AllBallots(C, voters, m, ballots)
    {
      var status, ballot, message, tracker :=
        encrypter.EncryptBallot(voters[i].selections, expected[i], voters[i].draws, us[i]);
      OneMoreMade(C, voters, expected, m, i);
      ok := status == EncrypterSuccess;
      ballots := ballots + [Ballot(voters[i].cast, ballot.selections)];
      i := i + 1;
    }
    MadeBefore(C, voters, expected, m, i);
  }

  // ---- the whole of it ----------------------------------------------------------------------------

  /**
   If exactly the threshold of trustees or all of them attend the end, the election
   succeeds if and only if the parameters are accepted, enough states are given, every
   voter marks as many selections as expected and every number fills its words. Then the
   result for every selection is the number of cast ballots that select it, modulo 2^32.
   Without the threshold there are no results.
   */
  method HoldElection(C: Ceremony, voters: seq<Voter>, expected: seq<nat>, us: seq<nat>, m: nat, present: seq<nat>)
    returns (ok: bool, results: seq<nat>)
    requires Planned(C, voters, expected, us, m, present)
    ensures ok <==> Succeeds(C, voters, expected, us, m, present)
    ensures
      var attending := Attending(present, C.n);
      |Listed(attending)| == C.k || |Listed(attending)| == C.n ==>
        (ok <==>
          && 1 <= C.k <= C.n <= MAX_TRUSTEES && C.k <= |present|
          && (forall i :: 0 <= i < C.n ==> KeyNumbersFit(C, i))
          && (forall i :: 0 <= i < C.n ==> DealtNumbersFit(C, i))
          && (forall i :: 0 <= i < C.n ==> StateNumbersFit(C, i))
          && PowerFits(C.G, BareElection(C).Secret())
          && (forall b :: 0 <= b < |voters| ==> |Listed(voters[b].selections)| == expected[b])
          && (forall b :: 0 <= b < |voters| ==> BallotNumbersFit(C, voters[b]))
          && (forall l :: 0 <= l < C.n && attending[l] ==>
                FillsPadded(CoefficientOf(C.G, C.k, attending, l), WORDS_256))
          && (forall j :: 0 <= j < m ==> ResultNumbersFit(C, voters, attending, j)))
    ensures |Listed(Attending(present, C.n))| < C.k ==> !ok
    ensures ok ==>
      var attending := |Listed(Attending(present, C.n))|;
      attending == C.k || attending == C.n ==>
        |results| == m && forall j :: 0 <= j < m ==> results[j] == VoteCount(voters, j) % UINT32
  {
    hide C.Succeeds, BallotsMade, AllBallots, RunSucceeds, OracleInRange, Listed;
    hide KeyNumbersFit, DealtNumbersFit, StateNumbersFit, BallotNumbersFit, ResultNumbersFit, CoefficientOf, FillsPadded;
    ConditionsListed(C, voters, expected, us, m, present);
    results := [];
    var jointKey, states;
    var api := new ElectionApi(C.G, C.n, C.k, C);
    ok, jointKey, states := api.CreateElection(C.draws, C.hash, C.baseHash);
    if ok {
      Accepted(C);
      JointKeyIsPowerOfSecrets(C);
      var encrypter := new VotingEncrypter(C.G, C.hash, C.baseHash, jointKey, m, BareElection(C).Secret());
      var ballots;
      ok, ballots := EncryptBallots(encrypter, voters, expected, us, C, m);
      if ok {
        ok, results := TallyElection(C, voters, expected, us, m, present, states, ballots);
      }
    }
  }

  lemma Accepted(C: Ceremony)
    requires C.Usable() && C.Succeeds()
    ensures C.ParametersAccepted()
  {}

  /** The last part: the trustees present decrypt what was recorded. */
  method TallyElection(C: Ceremony, voters: seq<Voter>, ghost expected: seq<nat>, ghost us: seq<nat>, m: nat,
                       present: seq<nat>, states: seq<TrusteeState>, ballots: seq<Ballot>)
    returns (ok: bool, results: seq<nat>)
    requires Planned(C, voters, expected, us, m, present) && C.ParametersAccepted()
    requires |states| == C.n && forall i :: 0 <= i < C.n ==> states[i] == C.StateOf(i)
    requires |ballots| == |voters| && AllBallots(C, voters, m, ballots)
    ensures (
      PlannedIsConducted(C, voters, expected, us, m, present);
      ok <==> RunSucceeds(C.G, Config(C.n, C.k, m), StatesFor(C, present), RecordFor(C, voters, m)))
    ensures ok ==>
      var attending := |Listed(Attending(present, C.n))|;
      attending == C.k || attending == C.n ==>
        |results| == m && forall j :: 0 <= j < m ==> results[j] == VoteCount(voters, j) % UINT32
  {
    PlannedIsConducted(C, voters, expected, us, m, present);
    var chosen := seq(|present|, l requires 0 <= l < |present| => states[present[l]]);
    var record := VotingRecord(m, ballots);
    assert chosen == StatesFor(C, present);
    PresentAttend(C, present);
    assert record == RecordFor(C, voters, m);
    hide Conducted, UsableStates, UsableRecord, RunSucceeds, Published, VoteCount, AllBallots, RecordFor, StatesFor, Present, Listed;
    var api := new TallyApi(C.G, Config(C.n, C.k, m));
    ok, results := api.TallyVotes(chosen, record);
    if ok {
      var attending := |Listed(Present(chosen, C.n))|;
      if attending == C.k || attending == C.n {
        PublishedCountsVotes(C, voters, record, chosen, results);
      }
    }
  }
}

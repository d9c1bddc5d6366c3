/**
 API_TallyVotes (api/tally_votes.c): the steps of a decryption run on the
 coordinator object and the table of trustee objects, stopping at the first
 failure and cleaning up afterwards.
 */
module TallyDriver {
  import opened Arithmetic
  import opened Group
  import opened Bignum
  import opened Crypto
  import opened DecryptionMessages
  import opened DecryptionTrustee
  import opened DecryptionCoordinator
  import opened TallyTheorem
  import opened Threshold
  import opened Publication
  import opened TallyVotes

  // ---- when a run succeeds, and with what ---------------------------------------------------

  predicate ParametersAccepted(config: Config) {
    1 <= config.threshold <= config.numTrustees <= MAX_TRUSTEES
  }

  ghost predicate UsableStates(config: Config, states: seq<TrusteeState>) {
    forall s :: s in states ==> UsableState(s, config.numTrustees)
  }

  ghost predicate UsableRecord(G: Group, config: Config, record: VotingRecord)
    requires G.Positive()
  {
    forall b :: b in record.ballots ==>
      |b.selections| == record.numSelections && AllInGroup(G, b.selections)
  }

  lemma UsableTableOf(config: Config, states: seq<TrusteeState>)
    requires UsableStates(config, states)
    ensures UsableTable(TableOf(states, config.numTrustees))
  {
    forall i | 0 <= i < config.numTrustees && Latest(states, i).Some?
      ensures UsableState(Latest(states, i).value, config.numTrustees) && Latest(states, i).value.index == i
    {
      LatestIs(states, i);
    }
  }

  /** The tally every trustee arrives at. */
  function RunTally(G: Group, config: Config, record: VotingRecord): seq<Encryption>
    requires G.Positive()
    requires forall b :: b in record.ballots ==> config.numSelections <= |b.selections|
  {
    TallyOf(G, DecryptionTrustee.Zeros(config.numSelections), record.ballots)
  }

  ghost predicate SharesFit(G: Group, t: Table, tally: seq<Encryption>, i: nat)
    requires G.Positive() && UsableTable(t) && i <= |t|
  {
    forall l :: 0 <= l < i && t[l].Some? ==> ShareFits(ShareFrom(G, t[l].value, tally))
  }

  ghost predicate AnswersFit(G: Group, c0: CState, t: Table, tally: seq<Encryption>, i: nat)
    requires G.Positive() && UsableTable(t) && c0.Valid() && c0.numTrustees == |t| && i <= |t|
  {
    forall l :: 0 <= l < i && t[l].Some? ==>
      FragmentsFit(FragmentsOf(G, t[l].value, tally, RequestedOf(c0, l)))
  }

  lemma SharesFitStep(G: Group, t: Table, tally: seq<Encryption>, i: nat)
    requires G.Positive() && UsableTable(t) && i < |t|
    ensures SharesFit(G, t, tally, i + 1)
       <==> SharesFit(G, t, tally, i) && (t[i].None? || ShareFits(ShareFrom(G, t[i].value, tally)))
  {}

  lemma SharesFitBefore(G: Group, t: Table, tally: seq<Encryption>, i: nat)
    requires G.Positive() && UsableTable(t) && i <= |t|
    ensures SharesFit(G, t, tally, |t|) ==> SharesFit(G, t, tally, i)
  {
    hide ShareFits, ShareFrom;
  }

  lemma AnswersFitStep(G: Group, c0: CState, t: Table, tally: seq<Encryption>, i: nat)
    requires G.Positive() && UsableTable(t) && c0.Valid() && c0.numTrustees == |t| && i < |t|
    ensures AnswersFit(G, c0, t, tally, i + 1)
       <==> AnswersFit(G, c0, t, tally, i)
            && (t[i].None? || FragmentsFit(FragmentsOf(G, t[i].value, tally, RequestedOf(c0, i))))
  {
    hide FragmentsFit, FragmentsOf, RequestFor;
  }

  lemma NoAnswers(G: Group, c0: CState, c1: CState, t: Table, tally: seq<Encryption>)
    requires G.Positive() && UsableTable(t) && c0.Valid() && c1.Valid() && c0.numTrustees == c1.numTrustees == |t|
    ensures AnswersFit(G, c0, t, tally, 0) && RunFragments(G, c0, c1, t, tally, 0) == c1
  {}

  lemma AnswersFitBefore(G: Group, c0: CState, t: Table, tally: seq<Encryption>, i: nat)
    requires G.Positive() && UsableTable(t) && c0.Valid() && c0.numTrustees == |t| && i <= |t|
    ensures AnswersFit(G, c0, t, tally, |t|) ==> AnswersFit(G, c0, t, tally, i)
  {
    hide FragmentsFit, FragmentsOf, RequestFor;
  }

  /** The coordinator when every share has been received. */
  ghost function AnnouncedState(G: Group, k: nat, t: Table, tally: seq<Encryption>): CState
    requires G.Positive() && UsableTable(t) && 1 <= k <= |t|
  {
    RunShares(G, Initial(|t|, k), t, tally, |t|)
  }

  /** The coordinator when it comes to publish. */
  ghost function RunFinal(G: Group, config: Config, states: seq<TrusteeState>, record: VotingRecord): CState
    requires G.Valid() && ParametersAccepted(config) && record.numSelections == config.numSelections
    requires UsableStates(config, states) && UsableRecord(G, config, record)
  {
    UsableTableOf(config, states);
    FinalState(G, config.threshold, TableOf(states, config.numTrustees), RunTally(G, config, record))
  }

  ghost predicate Published(G: Group, c: CState, results: seq<nat>)
    requires G.Valid()
  {
    && |results| == |c.tallies|
    && forall j :: 0 <= j < |c.tallies| ==>
        G.InSubgroup(Decoded(G, c.tallies[j])) && results[j] == PublishedTally(G, c.tallies[j])
  }

  /** The conditions, in the order in which the run comes upon them. */
  ghost predicate RunSucceeds(G: Group, config: Config, states: seq<TrusteeState>, record: VotingRecord)
    requires G.Valid() && UsableStates(config, states) && UsableRecord(G, config, record)
  {
    UsableTableOf(config, states);
    var k, t := config.threshold, TableOf(states, config.numTrustees);
    && ParametersAccepted(config)
    && k <= |states|
    && k <= |Listed(Announcing(t))|
    && record.numSelections == config.numSelections
    && var tally := RunTally(G, config, record);
       var c := RunFinal(G, config, states, record);
       && SharesFit(G, t, tally, |t|)
       && AnswersFit(G, AnnouncedState(G, k, t, tally), t, tally, |t|)
       && SeenOrCompensated(c)
       && forall j :: 0 <= j < |c.tallies| ==> Publishable(G, c.tallies[j])
  }

  predicate Nobody(states: seq<TrusteeState>, n: nat) {
    forall i :: 0 <= i < n ==> Latest(states, i).None?
  }

  lemma NobodyAnnounces(states: seq<TrusteeState>, t: Table)
    requires t == TableOf(states, |t|)
    ensures Nobody(states, |t|) ==> |Listed(Announcing(t))| == 0
  {
    ListedMembers(Announcing(t));
    if |Listed(Announcing(t))| > 0 {
      var l := Listed(Announcing(t))[0];
      assert l in Listed(Announcing(t));
      assert Latest(states, l).Some?;
    }
  }

  // ---- the driver ---------------------------------------------------------------------------

  class TallyApi {
    const G: Group
    const config: Config
    var coordinator: Coordinator?
    var trustees: seq<Trustee?>

    /** The statics before the first run. */
    constructor (G: Group, config: Config)
      requires G.Valid()
      ensures this.G == G && this.config == config && coordinator == null && Cleared()
    {
      this.G, this.config := G, config;
      this.coordinator := null;
      this.trustees := seq(MAX_TRUSTEES, i => null);
    }

    ghost predicate Cleared()
      reads this
    {
      |trustees| == MAX_TRUSTEES && forall i :: 0 <= i < MAX_TRUSTEES ==> trustees[i] == null
    }

    /** The trustee at place i is the one given last, and its tallies are as stated. */
    ghost predicate SeatHolds(states: seq<TrusteeState>, tally: seq<Encryption>, i: nat)
      requires i < |trustees|
      reads this, trustees
    {
      && (trustees[i] != null <==> Latest(states, i).Some?)
      && (trustees[i] != null ==>
            && trustees[i].Valid()
            && trustees[i].G == G
            && trustees[i].numTrustees == config.numTrustees
            && trustees[i].numSelections == config.numSelections
            && trustees[i].state == Latest(states, i).value && trustees[i].state.index == i
            && trustees[i].tallies == tally)
    }

    ghost predicate Seated(states: seq<TrusteeState>, tally: seq<Encryption>)
      reads this, trustees
    {
      |trustees| == MAX_TRUSTEES
      && forall i :: 0 <= i < MAX_TRUSTEES ==> SeatHolds(states, tally, i)
    }

    method InitializeCoordinator() returns (ok: bool)
      requires G.Valid()
      modifies this`coordinator
      ensures ok <==> ParametersAccepted(config)
      ensures ok ==>
        && coordinator != null && fresh(coordinator) && coordinator.Valid() && coordinator.G == G
        && coordinator.State() == Initial(config.numTrustees, config.threshold)
      ensures !ok ==> coordinator == old(coordinator)
    {
      var status, c := Coordinator.New(G, config.numTrustees, config.threshold);
      ok := status == DecryptionCoordinator.Success;
      if ok {
        coordinator := c;
      }
    }

    method InitializeTrustees(states: seq<TrusteeState>) returns (ok: bool)
      requires G.Valid() && Cleared() && ParametersAccepted(config) && UsableStates(config, states)
      modifies this`trustees
      ensures ok <==> config.threshold <= |states|
      ensures ok ==> Seated(states, DecryptionTrustee.Zeros(config.numSelections))
      ensures forall i :: 0 <= i < |trustees| && trustees[i] != null ==> fresh(trustees[i])
      ensures !ok ==> trustees == old(trustees)
    {
      if |states| < config.threshold {
        return false;
      }
      ok := true;
      for i := 0 to |states|
        invariant Seated(states[..i], DecryptionTrustee.Zeros(config.numSelections))
        invariant forall j :: 0 <= j < |trustees| && trustees[j] != null ==> fresh(trustees[j])
      {
        assert states[..i + 1][..i] == states[..i];
        assert states[i] in states;
        var status, trustee :=
          Trustee.New(G, config.numTrustees, config.threshold, config.numSelections, states[i]);
        label before:
        trustees := trustees[states[i].index := trustee];
        ghost var given, zeros := states[..i + 1], DecryptionTrustee.Zeros(config.numSelections);
        forall j | 0 <= j < MAX_TRUSTEES ensures SeatHolds(given, zeros, j) {
          if j != states[i].index {
            assert old@before(SeatHolds(states[..i], zeros, j));
            assert Latest(given, j) == Latest(states[..i], j);
          }
        }
      }
      assert states[..|states|] == states;
    }

    /** Every seated trustee reads the record from the start. */
    method TallyBallots(ghost states: seq<TrusteeState>, record: VotingRecord, ghost tally: seq<Encryption>)
      returns (ok: bool)
      requires G.Valid() && ParametersAccepted(config) && UsableStates(config, states)
      requires Seated(states, DecryptionTrustee.Zeros(config.numSelections)) && UsableRecord(G, config, record)
      requires record.numSelections == config.numSelections ==> tally == RunTally(G, config, record)
      modifies set o | o in trustees
      ensures ok <==> (record.numSelections == config.numSelections || Nobody(states, config.numTrustees))
      ensures ok ==> forall i :: 0 <= i < config.numTrustees ==> SeatHolds(states, tally, i)
    {
      ok := true;
      var i := 0;
      ghost var zeros := DecryptionTrustee.Zeros(config.numSelections);
      hide AllInGroup, TallyOf, Latest;
      while i < config.numTrustees && ok
        invariant i <= config.numTrustees
        invariant ok ==> forall j :: 0 <= j < i ==> SeatHolds(states, tally, j)
        invariant forall j :: i <= j < MAX_TRUSTEES ==> SeatHolds(states, zeros, j)
        invariant ok <==> (record.numSelections == config.numSelections || Nobody(states, i))
      {
        assert SeatHolds(states, zeros, i);
        if trustees[i] != null {
          forall j | 0 <= j < MAX_TRUSTEES && j != i && trustees[j] != null ensures trustees[j] != trustees[i] {
            assert if j < i then SeatHolds(states, tally, j) else SeatHolds(states, zeros, j);
          }
          assert Latest(states, i).Some?;
          label before:
          var status := trustees[i].TallyVotingRecord(record);
          if status != DecryptionTrustee.Success {
            ok := false;
          }
          forall j | 0 <= j < i && ok ensures SeatHolds(states, tally, j) {
            assert old@before(SeatHolds(states, tally, j));
          }
          forall j | i < j < MAX_TRUSTEES ensures SeatHolds(states, zeros, j) {
            assert old@before(SeatHolds(states, zeros, j));
          }
        }
        assert Nobody(states, i + 1) <==> Nobody(states, i) && Latest(states, i).None?;
        i := i + 1;
      }
    }

    method ShareFromSeat(trustee: Trustee, ghost t: Table, ghost tally: seq<Encryption>, ghost i: nat) returns (ok: bool)
      requires coordinator != null && coordinator.Valid() && coordinator.G == G && trustee.Valid() && trustee.G == G
      requires UsableTable(t) && AllInGroup(G, tally) && i < |t| && t[i].Some?
      requires trustee.state == t[i].value && trustee.tallies == tally
      requires AnnouncedSoFar(G, coordinator.State(), t, tally, i)
      modifies coordinator
      ensures coordinator.Valid()
      ensures ok <==> ShareFits(ShareFrom(G, t[i].value, tally))
      ensures ok ==> coordinator.State() == AfterShare(G, old(coordinator.State()), ShareFrom(G, t[i].value, tally)).1
      ensures ok ==> AnnouncedSoFar(G, coordinator.State(), t, tally, i + 1)
    {
      AnnouncedStep(G, coordinator.State(), t, tally, i);
      hide AfterShare, AllInGroup, ShareOf, ShareFits, AnnouncedSoFar;
      ok := true;
      var made, share := trustee.ComputeShare();
      if made != DecryptionTrustee.Success {
        ok := false;
      }
      if ok {
        var status := coordinator.ReceiveShare(share);
        if status != DecryptionCoordinator.Success {
          ok := false;
        }
      }
    }

    /** One place of the table, taken or not. */
    method ShareFromPlace(ghost states: seq<TrusteeState>, ghost t: Table, ghost tally: seq<Encryption>, i: nat) returns (ok: bool)
      requires G.Valid() && ParametersAccepted(config) && i < config.numTrustees && |trustees| == MAX_TRUSTEES
      requires t == TableOf(states, config.numTrustees) && UsableTable(t) && AllInGroup(G, tally)
      requires SeatHolds(states, tally, i)
      requires coordinator != null && coordinator.Valid() && coordinator.G == G
      requires coordinator.State() == RunShares(G, Initial(|t|, config.threshold), t, tally, i)
      requires AnnouncedSoFar(G, coordinator.State(), t, tally, i)
      modifies coordinator
      ensures coordinator.Valid()
      ensures ok <==> t[i].None? || ShareFits(ShareFrom(G, t[i].value, tally))
      ensures ok ==> coordinator.State() == RunShares(G, Initial(|t|, config.threshold), t, tally, i + 1)
      ensures ok ==> AnnouncedSoFar(G, coordinator.State(), t, tally, i + 1)
    {
      hide AfterShare, AllInGroup, ShareOf, ShareFits, Latest, AnnouncedSoFar, Initial;
      ok := true;
      if trustees[i] != null {
        ok := ShareFromSeat(trustees[i], t, tally, i);
      } else {
        AnnouncedSkip(G, coordinator.State(), t, tally, i);
      }
    }

    method DecryptTallyShares(ghost states: seq<TrusteeState>, ghost t: Table, ghost tally: seq<Encryption>) returns (ok: bool)
      requires G.Valid() && ParametersAccepted(config) && UsableStates(config, states)
      requires t == TableOf(states, config.numTrustees) && UsableTable(t) && AllInGroup(G, tally)
      requires |trustees| == MAX_TRUSTEES
      requires forall i :: 0 <= i < config.numTrustees ==> SeatHolds(states, tally, i)
      requires coordinator != null && coordinator.Valid() && coordinator.G == G
      requires coordinator.State() == Initial(config.numTrustees, config.threshold)
      modifies coordinator
      ensures coordinator.Valid()
      ensures ok <==> SharesFit(G, t, tally, |t|)
      ensures ok ==> coordinator.State() == AnnouncedState(G, config.threshold, t, tally)
      ensures forall i :: 0 <= i < config.numTrustees ==> SeatHolds(states, tally, i)
    {
      ok := true;
      assert SharesFit(G, t, tally, 0) && AnnouncedSoFar(G, coordinator.State(), t, tally, 0);
      hide AfterShare, AllInGroup, ShareOf, ShareFits, Latest, SharesFit, AnnouncedSoFar, RunShares, Initial, SeatHolds;
      var i := 0;
      while i < config.numTrustees && ok
        invariant i <= config.numTrustees && coordinator.Valid()
        invariant ok <==> SharesFit(G, t, tally, i)
        invariant ok ==> coordinator.State() == RunShares(G, Initial(|t|, config.threshold), t, tally, i)
        invariant ok ==> AnnouncedSoFar(G, coordinator.State(), t, tally, i)
        invariant forall j :: 0 <= j < config.numTrustees ==> SeatHolds(states, tally, j)
      {
        ok := ShareFromPlace(states, t, tally, i);
        SharesFitStep(G, t, tally, i);
        i := i + 1;
      }
      SharesFitBefore(G, t, tally, i);
    }

    /** The coordinator is asked once per trustee; every time it gives the same requests. */
    method RequestMissingTallyShares() returns (ok: bool, requests: seq<Option<Request>>)
      requires ParametersAccepted(config) && coordinator != null && coordinator.Valid() && coordinator.G == G
      requires coordinator.numTrustees == config.numTrustees && coordinator.threshold == config.threshold
      modifies coordinator
      ensures coordinator.Valid()
      ensures ok <==> config.threshold <= CountAnounced(old(coordinator.State()))
      ensures ok ==>
        && coordinator.State() == AfterAllShares(old(coordinator.State())).1
        && |requests| == config.numTrustees
        && forall i :: 0 <= i < config.numTrustees ==>
            requests[i] == (if coordinator.anounced[i] then Some(RequestFor(old(coordinator.State()), i)) else None)
    {
      ok := true;
      requests := [];
      ghost var c0 := coordinator.State();
      var i := 0;
      while i < config.numTrustees && ok
        invariant i <= config.numTrustees && coordinator.Valid()
        invariant i == 0 ==> ok && coordinator.State() == c0
        invariant i > 0 ==> (ok <==> config.threshold <= CountAnounced(c0))
        invariant i > 0 && ok ==>
            && coordinator.State() == AfterAllShares(c0).1
            && |requests| == config.numTrustees
            && forall m :: 0 <= m < config.numTrustees ==>
                requests[m] == (if coordinator.anounced[m] then Some(RequestFor(c0, m)) else None)
      {
        var status, all := coordinator.AllSharesReceived();
        if status != DecryptionCoordinator.Success {
          ok := false;
        } else {
          requests := all;
        }
        i := i + 1;
      }
    }

    method FragmentsFromSeat(trustee: Trustee, request: Request,
                             ghost t: Table, ghost c0: CState, ghost tally: seq<Encryption>, ghost i: nat)
      returns (ok: bool)
      requires coordinator != null && coordinator.Valid() && coordinator.G == G && trustee.Valid() && trustee.G == G
      requires UsableTable(t) && AllInGroup(G, tally) && i < |t| && t[i].Some?
      requires trustee.state == t[i].value && trustee.tallies == tally && trustee.numTrustees == |t|
      requires c0.Valid() && c0.numTrustees == |t| && request == RequestFor(c0, i)
      requires RespondedSoFar(G, coordinator.State(), t, tally, i)
      modifies coordinator
      ensures coordinator.Valid()
      ensures ok <==> FragmentsFit(FragmentsOf(G, t[i].value, tally, RequestedOf(c0, i)))
      ensures ok ==> (
        coordinator.State()
          == AfterFragments(G, old(coordinator.State()), FragmentsOf(G, t[i].value, tally, RequestedOf(c0, i))).1)
      ensures ok ==> RespondedSoFar(G, coordinator.State(), t, tally, i + 1)
    {
      RespondedStep(G, c0, coordinator.State(), t, tally, i);
      assert coordinator.numTrustees == |t| && |request.requested| == |t|;
      hide AfterFragments, AllInGroup, RequestFor, FragmentsFit, RespondedSoFar;
      ok := true;
      var made, fragments := trustee.ComputeFragments(request);
      if made != DecryptionTrustee.Success {
        ok := false;
      }
      if ok {
        var status := coordinator.ReceiveFragments(fragments);
        if status != DecryptionCoordinator.Success {
          ok := false;
        }
      }
    }

    method FragmentsFromPlace(ghost states: seq<TrusteeState>, request: Option<Request>, ghost t: Table, ghost c0: CState,
                              ghost c1: CState, ghost tally: seq<Encryption>, i: nat)
      returns (ok: bool)
      requires G.Valid() && ParametersAccepted(config) && i < config.numTrustees && |trustees| == MAX_TRUSTEES
      requires t == TableOf(states, config.numTrustees) && UsableTable(t) && AllInGroup(G, tally)
      requires SeatHolds(states, tally, i)
      requires coordinator != null && coordinator.Valid() && coordinator.G == G
      requires coordinator.numTrustees == config.numTrustees
      requires c0.Valid() && c0.numTrustees == config.numTrustees
      requires c1.Valid() && RespondedSoFar(G, c1, t, tally, 0)
      requires coordinator.State() == RunFragments(G, c0, c1, t, tally, i)
      requires RespondedSoFar(G, coordinator.State(), t, tally, i)
      requires request == (if t[i].Some? then Some(RequestFor(c0, i)) else None)
      modifies coordinator
      ensures coordinator.Valid()
      ensures ok <==> t[i].None? || FragmentsFit(FragmentsOf(G, t[i].value, tally, RequestedOf(c0, i)))
      ensures ok ==> coordinator.State() == RunFragments(G, c0, c1, t, tally, i + 1)
      ensures ok ==> RespondedSoFar(G, coordinator.State(), t, tally, i + 1)
    {
      hide AfterFragments, AllInGroup, RequestFor, FragmentsFit, FragmentsOf, Latest, RespondedSoFar;
      ok := true;
      if request.Some? {
        ok := FragmentsFromSeat(trustees[i], request.value, t, c0, tally, i);
      } else {
        RespondedSkip(G, coordinator.State(), t, tally, i);
      }
    }

    method DecryptTallyDecryptionFragments(ghost states: seq<TrusteeState>, requests: seq<Option<Request>>,
                                           ghost t: Table, ghost c0: CState, ghost c1: CState,
                                           ghost tally: seq<Encryption>)
      returns (ok: bool)
      requires G.Valid() && ParametersAccepted(config) && |trustees| == MAX_TRUSTEES
      requires t == TableOf(states, config.numTrustees) && UsableTable(t) && AllInGroup(G, tally)
      requires forall i :: 0 <= i < config.numTrustees ==> SeatHolds(states, tally, i)
      requires coordinator != null && coordinator.Valid() && coordinator.G == G
      requires coordinator.numTrustees == config.numTrustees
      requires c0.Valid() && c0.numTrustees == config.numTrustees
      requires coordinator.State() == c1 && RespondedSoFar(G, c1, t, tally, 0)
      requires |requests| == config.numTrustees
      requires forall i :: 0 <= i < config.numTrustees ==>
        requests[i] == (if t[i].Some? then Some(RequestFor(c0, i)) else None)
      modifies coordinator
      ensures coordinator.Valid()
      ensures ok <==> AnswersFit(G, c0, t, tally, |t|)
      ensures ok ==> coordinator.State() == RunFragments(G, c0, c1, t, tally, |t|)
    {
      hide AfterFragments, AllInGroup, RequestFor, FragmentsFit, FragmentsOf, Latest, AnswersFit, RespondedSoFar;
      hide RunFragments, SeatHolds, UsableTable;
      ok := true;
      NoAnswers(G, c0, c1, t, tally);
      var i := 0;
      while i < config.numTrustees && ok
        invariant i <= config.numTrustees && coordinator.Valid()
        invariant ok <==> AnswersFit(G, c0, t, tally, i)
        invariant ok ==> coordinator.State() == RunFragments(G, c0, c1, t, tally, i)
        invariant ok ==> RespondedSoFar(G, coordinator.State(), t, tally, i)
        invariant forall j :: 0 <= j < config.numTrustees ==> SeatHolds(states, tally, j)
      {
        ok := FragmentsFromPlace(states, requests[i], t, c0, c1, tally, i);
        AnswersFitStep(G, c0, t, tally, i);
        i := i + 1;
      }
      AnswersFitBefore(G, c0, t, tally, i);
    }

    /** Tallying and announcing. */
    method Announce(states: seq<TrusteeState>, record: VotingRecord, ghost t: Table, ghost tally: seq<Encryption>)
      returns (ok: bool)
      requires G.Valid() && ParametersAccepted(config)
      requires UsableStates(config, states) && UsableRecord(G, config, record)
      requires t == TableOf(states, config.numTrustees) && UsableTable(t)
      requires record.numSelections == config.numSelections ==> tally == RunTally(G, config, record)
      requires record.numSelections != config.numSelections ==> tally == []
      requires Seated(states, DecryptionTrustee.Zeros(config.numSelections))
      requires coordinator != null && coordinator.Valid() && coordinator.G == G
      requires coordinator.State() == Initial(config.numTrustees, config.threshold)
      modifies coordinator, set o | o in trustees
      ensures coordinator.Valid() && AllInGroup(G, tally)
      ensures ok <==> (record.numSelections == config.numSelections || Nobody(states, config.numTrustees))
                      && SharesFit(G, t, tally, |t|)
      ensures ok ==> coordinator.State() == AnnouncedState(G, config.threshold, t, tally)
      ensures ok ==> forall i :: 0 <= i < config.numTrustees ==> SeatHolds(states, tally, i)
    {
      ZerosInGroup(G, config.numSelections);
      if record.numSelections == config.numSelections {
        TallyInGroup(G, DecryptionTrustee.Zeros(config.numSelections), record.ballots);
      }
      hide *;
      ok := TallyBallots(states, record, tally);
      if ok {
        ok := DecryptTallyShares(states, t, tally);
      }
    }

    /** Requests, fragments and publication. */
    method Compensate(states: seq<TrusteeState>, ghost t: Table, ghost tally: seq<Encryption>)
      returns (ok: bool, results: seq<nat>)
      requires G.Valid() && ParametersAccepted(config) && |trustees| == MAX_TRUSTEES
      requires t == TableOf(states, config.numTrustees) && UsableTable(t) && AllInGroup(G, tally)
      requires forall i :: 0 <= i < config.numTrustees ==> SeatHolds(states, tally, i)
      requires coordinator != null && coordinator.Valid() && coordinator.G == G
      requires coordinator.State() == AnnouncedState(G, config.threshold, t, tally)
      modifies coordinator
      ensures
        var c := FinalState(G, config.threshold, t, tally);
        && (ok <==>
              && config.threshold <= |Listed(Announcing(t))|
              && AnswersFit(G, AnnouncedState(G, config.threshold, t, tally), t, tally, |t|)
              && SeenOrCompensated(c)
              && forall j :: 0 <= j < |c.tallies| ==> Publishable(G, c.tallies[j]))
        && (ok ==> Published(G, c, results))
    {
      results := [];
      hide RunShares, AfterFragments, MultiplyFragments, FragmentsOf, FragmentsFit, RequestFor, Latest, SeatHolds;
      ghost var c0 := coordinator.State();
      RunSharesAnnounces(G, config.threshold, t, tally, |t|);
      assert c0.anounced == Announcing(t);
      var requests;
      ok, requests := RequestMissingTallyShares();
      if !ok {
        return;
      }
      RespondedInitially(G, c0, t, tally);
      ghost var c1 := coordinator.State();
      ok := DecryptTallyDecryptionFragments(states, requests, t, c0, c1, tally);
      if !ok {
        return;
      }
      RunFragmentsRespond(G, c0, c1, t, tally, |t|);
      assert coordinator.State() == FinalState(G, config.threshold, t, tally);
      forall j | 0 <= j < |coordinator.tallies| ensures Searchable(G, Decoded(G, coordinator.tallies[j])) {
        DecodedInSubgroup(G, coordinator.tallies[j]);
      }
      var status;
      status, results := coordinator.AllFragmentsReceived();
      ok := status == DecryptionCoordinator.Success;
    }

    /** The steps after the objects have been set up. */
    method Run(states: seq<TrusteeState>, record: VotingRecord) returns (ok: bool, results: seq<nat>)
      requires G.Valid() && ParametersAccepted(config) && config.threshold <= |states|
      requires UsableStates(config, states) && UsableRecord(G, config, record)
      requires Seated(states, DecryptionTrustee.Zeros(config.numSelections))
      requires coordinator != null && coordinator.Valid() && coordinator.G == G
      requires coordinator.State() == Initial(config.numTrustees, config.threshold)
      modifies coordinator, set o | o in trustees
      ensures ok <==> RunSucceeds(G, config, states, record)
      ensures ok ==> Published(G, RunFinal(G, config, states, record), results)
    {
      results := [];
      UsableTableOf(config, states);
      ghost var t := TableOf(states, config.numTrustees);
      ghost var same := record.numSelections == config.numSelections;
      ghost var tally := if same then RunTally(G, config, record) else [];
      NobodyAnnounces(states, t);
      ok := Announce(states, record, t, tally);
      if ok {
        ok, results := Compensate(states, t, tally);
      }
    }

    /**
     API_TallyVotes on cleared statics. The cleanup clears as many places as
     states were given, whichever places the trustees took.
     */
    method TallyVotes(states: seq<TrusteeState>, record: VotingRecord) returns (ok: bool, results: seq<nat>)
      requires G.Valid() && Cleared() && |states| <= MAX_TRUSTEES
      requires UsableStates(config, states) && UsableRecord(G, config, record)
      modifies this
      ensures ok <==> RunSucceeds(G, config, states, record)
      ensures ok ==> Published(G, RunFinal(G, config, states, record), results)
      ensures coordinator == null && |trustees| == MAX_TRUSTEES
      ensures ParametersAccepted(config) && config.threshold <= |states| ==>
        forall i :: 0 <= i < MAX_TRUSTEES ==> (trustees[i] != null <==> |states| <= i && Latest(states, i).Some?)
    {
      results := [];
      ok := InitializeCoordinator();
      if ok {
        ok := InitializeTrustees(states);
      }
      ghost var zeros := DecryptionTrustee.Zeros(config.numSelections);
      if ok {
        forall j | 0 <= j < MAX_TRUSTEES ensures trustees[j] != null <==> Latest(states, j).Some? {
          assert SeatHolds(states, zeros, j);
        }
        ok, results := Run(states, record);
      }
      // cleanup
      var i := 0;
      while i < |states|
        invariant i <= |states| && |trustees| == MAX_TRUSTEES
        invariant forall j :: 0 <= j < i ==> trustees[j] == null
        invariant ParametersAccepted(config) && config.threshold <= |states| ==>
          forall j :: i <= j < MAX_TRUSTEES ==> (trustees[j] != null <==> Latest(states, j).Some?)
      {
        trustees := trustees[i := null];
        i := i + 1;
      }
      coordinator := null;
    }
  }
}

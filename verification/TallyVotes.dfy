/**
 The decryption run (api/tally_votes.c): the coordinator and the trustees whose
 states are given are driven through tallying, announcing, compensating and
 publishing, stopping at the first failure.
 */
module TallyVotes {
  import opened Arithmetic
  import opened Primes
  import opened Group
  import opened Bignum
  import opened Crypto
  import opened DecryptionMessages
  import opened DecryptionTrustee
  import opened DecryptionCoordinator
  import opened TallyTheorem
  import opened Threshold
  import opened Publication
  import Rsa

  datatype Config = Config(numTrustees: nat, threshold: nat, numSelections: nat)

  /** The state that ends up at this place of the trustee table: the last one given. */
  function Latest(states: seq<TrusteeState>, i: nat): Option<TrusteeState> {
    if states == [] then None
    else if states[|states| - 1].index == i then Some(states[|states| - 1])
    else Latest(states[..|states| - 1], i)
  }

  lemma {:induction false} LatestIs(states: seq<TrusteeState>, i: nat)
    ensures Latest(states, i).Some? ==> Latest(states, i).value in states && Latest(states, i).value.index == i
  {
    if states != [] { LatestIs(states[..|states| - 1], i); }
  }

  /** State k is the one at place i: no later one is for the same place. */
  ghost predicate LastFor(states: seq<TrusteeState>, i: nat, k: nat) {
    k < |states| && states[k].index == i && forall l :: k < l < |states| ==> states[l].index != i
  }

  /** A place that is taken is taken by the last state given for it. */
  lemma {:induction false} LatestIsLast(states: seq<TrusteeState>, i: nat) returns (k: nat)
    requires Latest(states, i).Some?
    ensures LastFor(states, i, k) && Latest(states, i).value == states[k]
  {
    hide LastFor;
    var n := |states| - 1;
    if states[n].index == i {
      k := n;
      LastOfAll(states, i);
    } else {
      k := LatestIsLast(states[..n], i);
      StillLast(states, i, k);
    }
  }

  lemma LastOfAll(states: seq<TrusteeState>, i: nat)
    requires states != [] && states[|states| - 1].index == i
    ensures LastFor(states, i, |states| - 1)
  {}

  lemma StillLast(states: seq<TrusteeState>, i: nat, k: nat)
    requires states != [] && states[|states| - 1].index != i && LastFor(states[..|states| - 1], i, k)
    ensures k < |states| - 1 && states[..|states| - 1][k] == states[k] && LastFor(states, i, k)
  {
    var n := |states| - 1;
    forall l | k < l < |states| ensures states[l].index != i {
      if l < n {
        assert states[..n][l] == states[l];
      }
    }
  }

  /** A place is empty if no state is given for it. */
  lemma {:induction false} EmptyPlace(states: seq<TrusteeState>, i: nat)
    ensures Latest(states, i).None? <==> forall k :: 0 <= k < |states| ==> states[k].index != i
  {
    if states != [] {
      EmptyPlace(states[..|states| - 1], i);
    }
  }

  /** Which trustees announce. */
  function Present(states: seq<TrusteeState>, n: nat): seq<bool> {
    seq(n, i => i >= 0 && Latest(states, i).Some?)
  }

  ghost predicate UsableState(s: TrusteeState, n: nat) {
    s.index < MAX_TRUSTEES && 0 < |s.coefficients| && |s.myKeyShares| == n && 0 < s.rsaKey.n
  }

  // ---- everything that is multiplied stays in the subgroup -----------------------------------

  ghost predicate InGroup(G: Group, e: Encryption)
    requires G.Positive()
  {
    G.InSubgroup(e.nonceEncoding) && G.InSubgroup(e.messageEncoding)
  }

  ghost predicate AllInGroup(G: Group, es: seq<Encryption>)
    requires G.Positive()
  {
    forall j :: 0 <= j < |es| ==> InGroup(G, es[j])
  }

  lemma ProductInSubgroup(G: Group, x: int, y: int)
    requires G.Valid() && G.InSubgroup(x) && G.InSubgroup(y)
    ensures G.InSubgroup(G.MulModP(x, y))
  {
    var a: int :| x == G.Exp(G.g, a);
    var b: int :| y == G.Exp(G.g, b);
    ExpAdd(G, G.g, a, b);
  }

  lemma PowerInSubgroup(G: Group, x: int, e: nat)
    requires G.Valid() && G.InSubgroup(x)
    ensures G.InSubgroup(G.PowModP(x, e))
  {
    var a: int :| x == G.Exp(G.g, a);
    ExpOrderQ(G, G.g, a);
    PowModPIsExp(G, x, e);
    ExpMul(G, G.g, a, e);
  }

  lemma DecodedInSubgroup(G: Group, e: Encryption)
    requires G.Valid() && InGroup(G, e)
    ensures G.InSubgroup(Decoded(G, e))
  {
    var a: int :| e.messageEncoding == G.Exp(G.g, a);
    var b: int :| e.nonceEncoding == G.Exp(G.g, b);
    ExpDiv(G, G.g, a, b);
  }

  lemma {:induction false} TallyInGroup(G: Group, start: seq<Encryption>, ballots: seq<Ballot>)
    requires G.Valid() && AllInGroup(G, start)
    requires forall b :: b in ballots ==> |start| <= |b.selections| && AllInGroup(G, b.selections)
    ensures AllInGroup(G, TallyOf(G, start, ballots))
  {
    if ballots != [] {
      var n := |ballots| - 1;
      TallyInGroup(G, start, ballots[..n]);
      var before, last := TallyOf(G, start, ballots[..n]), ballots[n];
      assert last in ballots;
      forall j | 0 <= j < |start| ensures InGroup(G, HomomorphicAdd(G, before[j], last.selections[j])) {
        assert InGroup(G, before[j]) && InGroup(G, last.selections[j]);
        ProductInSubgroup(G, before[j].nonceEncoding, last.selections[j].nonceEncoding);
        ProductInSubgroup(G, before[j].messageEncoding, last.selections[j].messageEncoding);
      }
    }
  }

  lemma ZerosInGroup(G: Group, m: nat)
    requires G.Valid()
    ensures AllInGroup(G, DecryptionTrustee.Zeros(m))
  {
    ExpOne(G, G.g);
  }

  lemma ShareInGroup(G: Group, index: nat, secret: nat, tallies: seq<Encryption>)
    requires G.Valid() && AllInGroup(G, tallies)
    ensures AllInGroup(G, ShareOf(G, index, secret, tallies).tallyShare)
  {
    forall j | 0 <= j < |tallies| ensures InGroup(G, ShareOf(G, index, secret, tallies).tallyShare[j]) {
      assert InGroup(G, tallies[j]);
      PowerInSubgroup(G, tallies[j].nonceEncoding, secret);
    }
  }

  lemma AfterShareInGroup(G: Group, c: CState, s: Share)
    requires G.Valid() && c.Valid() && AllInGroup(G, c.tallies) && AllInGroup(G, s.tallyShare)
    ensures AllInGroup(G, AfterShare(G, c, s).1.tallies)
  {
    var c' := AfterShare(G, c, s).1;
    forall j | 0 <= j < |c'.tallies| ensures InGroup(G, c'.tallies[j]) {
      if c.talliesInitialized {
        assert InGroup(G, c.tallies[j]);
        if |s.tallyShare| == |c.tallies| {
          assert InGroup(G, s.tallyShare[j]);
          ProductInSubgroup(G, c.tallies[j].nonceEncoding, s.tallyShare[j].nonceEncoding);
        }
      }
    }
  }

  lemma {:induction false} FragmentsInSubgroup(G: Group, nonce: int, s: TrusteeState, tallies: seq<Encryption>,
                                               requested: seq<bool>, j: nat, i: nat)
    requires G.Valid() && G.InSubgroup(nonce) && AllInGroup(G, tallies) && j < |tallies|
    requires |requested| == |s.myKeyShares| && 0 < s.rsaKey.n && i <= |requested|
    ensures G.InSubgroup(MultiplyFragments(G, nonce, FragmentsOf(G, s, tallies, requested), j, i))
  {
    if i > 0 {
      FragmentsInSubgroup(G, nonce, s, tallies, requested, j, i - 1);
      var f := FragmentsOf(G, s, tallies, requested);
      if requested[i - 1] {
        assert InGroup(G, tallies[j]);
        PowerInSubgroup(G, tallies[j].nonceEncoding, Rsa.Decrypt(s.myKeyShares[i - 1], s.rsaKey));
        hide G.Exp;
        PowerInSubgroup(G, PartialAt(f.partials[i - 1], j), f.lagrangeCoefficient);
        ProductInSubgroup(G, MultiplyFragments(G, nonce, f, j, i - 1),
                          G.PowModP(PartialAt(f.partials[i - 1], j), f.lagrangeCoefficient));
      }
    }
  }

  lemma AfterFragmentsInGroup(G: Group, c: CState, s: TrusteeState, tallies: seq<Encryption>, requested: seq<bool>)
    requires G.Valid() && c.Valid() && AllInGroup(G, c.tallies) && AllInGroup(G, tallies)
    requires |c.tallies| <= |tallies|
    requires |requested| == |s.myKeyShares| == c.numTrustees && 0 < s.rsaKey.n
    ensures AllInGroup(G, AfterFragments(G, c, FragmentsOf(G, s, tallies, requested)).1.tallies)
  {
    var c' := AfterFragments(G, c, FragmentsOf(G, s, tallies, requested)).1;
    forall j | 0 <= j < |c'.tallies| ensures InGroup(G, c'.tallies[j]) {
      assert InGroup(G, c.tallies[j]);
      FragmentsInSubgroup(G, c.tallies[j].nonceEncoding, s, tallies, requested, j, c.numTrustees);
    }
  }

  // ---- the run, as a function of the trustees' states --------------------------------------------

  /** The trustee table: at each place, the state of the trustee that takes part. */
  type Table = seq<Option<TrusteeState>>

  function TableOf(states: seq<TrusteeState>, n: nat): (t: Table)
    ensures |t| == n && forall i :: 0 <= i < n ==> t[i] == Latest(states, i)
  {
    seq(n, i => if i >= 0 then Latest(states, i) else None)
  }

  ghost predicate UsableTable(t: Table) {
    forall i :: 0 <= i < |t| && t[i].Some? ==>
      && t[i].value.index == i && 0 < |t[i].value.coefficients|
      && |t[i].value.myKeyShares| == |t| && 0 < t[i].value.rsaKey.n
  }

  function Announcing(t: Table): seq<bool> {
    seq(|t|, i requires 0 <= i < |t| => t[i].Some?)
  }

  function ShareFrom(G: Group, s: TrusteeState, tally: seq<Encryption>): Share
    requires G.Positive() && 0 < |s.coefficients|
  {
    ShareOf(G, s.index, s.coefficients[0], tally)
  }

  /** The coordinator after the shares of the first i places. */
  ghost function RunShares(G: Group, c: CState, t: Table, tally: seq<Encryption>, i: nat): (r: CState)
    requires G.Positive() && c.Valid() && UsableTable(t) && i <= |t|
    ensures r.Valid() && r.numTrustees == c.numTrustees && r.threshold == c.threshold
  {
    if i == 0 then c
    else
      var before := RunShares(G, c, t, tally, i - 1);
      if t[i - 1].None? then before else AfterShare(G, before, ShareFrom(G, t[i - 1].value, tally)).1
  }

  /** What is asked of a place: the request depends only on who has announced. */
  function RequestedOf(c: CState, i: nat): seq<bool>
    requires c.Valid() && i <= c.numTrustees
  {
    RequestFor(c, i).requested
  }

  /** The coordinator after the fragments of the first i places, for the requests made in state c0. */
  ghost function RunFragments(G: Group, c0: CState, c: CState, t: Table, tally: seq<Encryption>, i: nat): (r: CState)
    requires G.Positive() && c0.Valid() && c.Valid() && c0.numTrustees == c.numTrustees == |t|
    requires UsableTable(t) && i <= |t|
    ensures r.Valid() && r.numTrustees == c.numTrustees && r.threshold == c.threshold && r.anounced == c.anounced
  {
    if i == 0 then c
    else
      var before := RunFragments(G, c0, c, t, tally, i - 1);
      if t[i - 1].None? then before
      else AfterFragments(G, before, FragmentsOf(G, t[i - 1].value, tally, RequestedOf(c0, i - 1))).1
  }

  // ---- the announcing phase ------------------------------------------------------------------------

  /** After the first i places exactly the trustees among them have announced, all with the same tally. */
  ghost predicate AnnouncedSoFar(G: Group, c: CState, t: Table, tally: seq<Encryption>, i: nat)
    requires G.Positive()
  {
    && c.Valid() && c.numTrustees == |t| && i <= |t|
    && (forall l :: 0 <= l < |t| ==> (c.anounced[l] <==> l < i && t[l].Some?))
    && (c.talliesInitialized <==> exists l :: 0 <= l < i && t[l].Some?)
    && (if c.talliesInitialized then
          |c.tallies| == |tally| && MessagesAgree(c.tallies, tally, |tally|) && AllInGroup(G, c.tallies)
        else c.tallies == [])
  }

  lemma AnnouncedStep(G: Group, c: CState, t: Table, tally: seq<Encryption>, i: nat)
    requires G.Valid() && UsableTable(t) && AllInGroup(G, tally)
    requires AnnouncedSoFar(G, c, t, tally, i) && i < |t| && t[i].Some?
    ensures
      var (status, c') := AfterShare(G, c, ShareFrom(G, t[i].value, tally));
      status == DecryptionCoordinator.Success && AnnouncedSoFar(G, c', t, tally, i + 1)
  {
    var s := ShareFrom(G, t[i].value, tally);
    ShareInGroup(G, t[i].value.index, t[i].value.coefficients[0], tally);
    AfterShareInGroup(G, c, s);
    var (status, c') := AfterShare(G, c, s);
    hide AllInGroup, G.PowModP, G.MulModP, InGroup;
    if c.talliesInitialized {
      assert MessagesAgree(c.tallies, s.tallyShare, |c.tallies|);
    }
  }

  lemma AnnouncedSkip(G: Group, c: CState, t: Table, tally: seq<Encryption>, i: nat)
    requires G.Valid() && AnnouncedSoFar(G, c, t, tally, i) && i < |t| && t[i].None?
    ensures AnnouncedSoFar(G, c, t, tally, i + 1)
  {
    hide MessagesAgree, AllInGroup;
  }

  lemma AnnouncedInitially(G: Group, k: nat, t: Table, tally: seq<Encryption>)
    requires G.Valid() && 1 <= k <= |t|
    ensures AnnouncedSoFar(G, Initial(|t|, k), t, tally, 0)
  {
    hide MessagesAgree, AllInGroup;
  }

  lemma {:induction false} RunSharesAnnounces(G: Group, k: nat, t: Table, tally: seq<Encryption>, i: nat)
    requires G.Valid() && UsableTable(t) && AllInGroup(G, tally) && 1 <= k <= |t| && i <= |t|
    ensures AnnouncedSoFar(G, RunShares(G, Initial(|t|, k), t, tally, i), t, tally, i)
  {
    hide AfterShare, AllInGroup, AnnouncedSoFar;
    AnnouncedInitially(G, k, t, tally);
    if i > 0 {
      RunSharesAnnounces(G, k, t, tally, i - 1);
      var before := RunShares(G, Initial(|t|, k), t, tally, i - 1);
      if t[i - 1].Some? {
        AnnouncedStep(G, before, t, tally, i - 1);
      } else {
        AnnouncedSkip(G, before, t, tally, i - 1);
      }
    }
  }

  /** Every trustee in the table is one the key ceremony left behind. */
  ghost predicate HonestTable(E: Election, t: Table)
    requires E.Valid()
  {
    |t| == E.n && forall i :: 0 <= i < |t| && t[i].Some? ==> HonestState(E, t[i].value) && t[i].value.index == i
  }

  lemma {:induction false} RunSharesHonest(E: Election, t: Table, i: nat)
    requires E.Valid() && UsableTable(t) && HonestTable(E, t) && i <= |t|
    ensures SharePhase(E, RunShares(E.G, Initial(E.n, E.k), t, E.tallies, i))
  {
    if i == 0 {
      SharePhaseInitially(E);
    } else {
      RunSharesHonest(E, t, i - 1);
      if t[i - 1].Some? {
        var s := ShareFrom(E.G, t[i - 1].value, E.tallies);
        assert HonestState(E, t[i - 1].value);
        assert HonestShare(E, s);
        hide AfterShare, SharePhase, Initial;
        SharePhaseStep(E, RunShares(E.G, Initial(E.n, E.k), t, E.tallies, i - 1), s);
      }
    }
  }

  // ---- the compensating phase ----------------------------------------------------------------------

  /** After the first i places exactly the announced trustees among them have responded. */
  ghost predicate RespondedSoFar(G: Group, c: CState, t: Table, tally: seq<Encryption>, i: nat)
    requires G.Positive()
  {
    && c.Valid() && c.numTrustees == |t| && i <= |t|
    && c.anounced == Announcing(t)
    && (forall l :: 0 <= l < |t| ==> (c.responded[l] <==> l < i && t[l].Some?))
    && |c.tallies| == |tally| && AllInGroup(G, c.tallies)
  }

  lemma RespondedStep(G: Group, c0: CState, c: CState, t: Table, tally: seq<Encryption>, i: nat)
    requires G.Valid() && UsableTable(t) && AllInGroup(G, tally) && c0.Valid() && c0.numTrustees == |t|
    requires RespondedSoFar(G, c, t, tally, i) && i < |t| && t[i].Some?
    ensures
      var (status, c') := AfterFragments(G, c, FragmentsOf(G, t[i].value, tally, RequestedOf(c0, i)));
      status == DecryptionCoordinator.Success && RespondedSoFar(G, c', t, tally, i + 1)
  {
    AfterFragmentsInGroup(G, c, t[i].value, tally, RequestedOf(c0, i));
    hide AllInGroup, MultiplyFragments, RequestFor;
  }

  lemma RespondedSkip(G: Group, c: CState, t: Table, tally: seq<Encryption>, i: nat)
    requires G.Positive() && RespondedSoFar(G, c, t, tally, i) && i < |t| && t[i].None?
    ensures RespondedSoFar(G, c, t, tally, i + 1)
  {
    hide AllInGroup;
  }

  lemma {:induction false} RunFragmentsRespond(G: Group, c0: CState, c: CState, t: Table, tally: seq<Encryption>, i: nat)
    requires G.Valid() && UsableTable(t) && AllInGroup(G, tally) && c0.Valid() && c0.numTrustees == |t| && i <= |t|
    requires RespondedSoFar(G, c, t, tally, 0)
    ensures RespondedSoFar(G, RunFragments(G, c0, c, t, tally, i), t, tally, i)
  {
    assert c.Valid() && c.numTrustees == |t|;
    hide AfterFragments, AllInGroup, RequestFor, RespondedSoFar;
    if i > 0 {
      RunFragmentsRespond(G, c0, c, t, tally, i - 1);
      if t[i - 1].Some? {
        RespondedStep(G, c0, RunFragments(G, c0, c, t, tally, i - 1), t, tally, i - 1);
      } else {
        RespondedSkip(G, RunFragments(G, c0, c, t, tally, i - 1), t, tally, i - 1);
      }
    }
  }

  /** What the coordinator asks for depends on who announced, not on who answered. */
  lemma AnswerIsHonest(E: Election, c0: CState, c: CState, s: TrusteeState, i: nat)
    requires E.Valid() && HonestState(E, s) && s.index == i < E.n
    requires c0.Valid() && c.Valid() && c0.numTrustees == c.numTrustees == E.n
    requires c0.anounced == c.anounced && c0.threshold == c.threshold
    ensures HonestAnswer(E, c, s, FragmentsOf(E.G, s, E.tallies, RequestedOf(c0, i)))
  {
    assert RequestFor(c, i) == RequestFor(c0, i);
  }

  lemma {:induction false} RunFragmentsHonest(E: Election, c0: CState, c: CState, t: Table, i: nat)
    requires E.Valid() && UsableTable(t) && HonestTable(E, t) && i <= |t|
    requires FragmentPhase(E, c) && c0.Valid() && c0.numTrustees == E.n
    requires c0.anounced == c.anounced && c0.threshold == c.threshold
    ensures FragmentPhase(E, RunFragments(E.G, c0, c, t, E.tallies, i))
  {
    if i > 0 {
      RunFragmentsHonest(E, c0, c, t, i - 1);
      if t[i - 1].Some? {
        var before := RunFragments(E.G, c0, c, t, E.tallies, i - 1);
        var s := t[i - 1].value;
        var f := FragmentsOf(E.G, s, E.tallies, RequestedOf(c0, i - 1));
        AnswerIsHonest(E, c0, before, s, i - 1);
        hide AfterFragments, FragmentPhase, HonestAnswer, HonestState, FragmentsOf, RequestedOf, E.Valid;
        FragmentPhaseStep(E, before, s, f);
      }
    }
  }

  // ---- the whole run of honest trustees -------------------------------------------------------------

  /** The coordinator's state when it comes to publish. */
  ghost function FinalState(G: Group, k: nat, t: Table, tally: seq<Encryption>): CState
    requires G.Positive() && UsableTable(t) && 1 <= k <= |t|
  {
    var c0 := RunShares(G, Initial(|t|, k), t, tally, |t|);
    RunFragments(G, c0, AfterAllShares(c0).1, t, tally, |t|)
  }

  /**
   The run of honest trustees, at least the threshold of them: the final check
   passes and every tally has been raised to the combined secret.
   */
  lemma HonestRun(E: Election, t: Table)
    requires E.Valid() && UsableTable(t) && HonestTable(E, t) && AllInGroup(E.G, E.tallies)
    requires E.k <= |Listed(Announcing(t))|
    ensures
      var c := FinalState(E.G, E.k, t, E.tallies);
      && SeenOrCompensated(c)
      && |c.tallies| == |E.tallies|
      && forall j :: 0 <= j < |c.tallies| ==>
          c.tallies[j] == Raised(E, j, E.Combined(Announcing(t), Announcing(t)))
  {
    var c0 := RunShares(E.G, Initial(E.n, E.k), t, E.tallies, E.n);
    RunSharesAnnounces(E.G, E.k, t, E.tallies, E.n);
    RunSharesHonest(E, t, E.n);
    assert c0.anounced == Announcing(t);
    FragmentPhaseInitially(E, c0);
    var c1 := AfterAllShares(c0).1;
    RespondedInitially(E.G, c0, t, E.tallies);
    RunFragmentsRespond(E.G, c0, c1, t, E.tallies, E.n);
    RunFragmentsHonest(E, c0, c1, t, E.n);
    var c := RunFragments(E.G, c0, c1, t, E.tallies, E.n);
    assert c.responded == c.anounced;
    AllAnswered(E, c);
    assert Accumulated(E, c, E.Combined(c.anounced, c.responded));
  }

  lemma RespondedInitially(G: Group, c0: CState, t: Table, tally: seq<Encryption>)
    requires G.Valid() && AnnouncedSoFar(G, c0, t, tally, |t|) && c0.threshold <= |Listed(Announcing(t))|
    ensures c0.anounced == Announcing(t) && AfterAllShares(c0).0 == DecryptionCoordinator.Success
    ensures RespondedSoFar(G, AfterAllShares(c0).1, t, tally, 0)
  {
    assert c0.anounced == Announcing(t);
    ListedMembers(c0.anounced);
    var l := Listed(c0.anounced)[0];
    assert l in Listed(c0.anounced) && t[l].Some?;
  }
}

/**
 Decryption runs in any order: the coordinator after any sequence of shares and then
 any sequence of fragments, repeated messages included, as long as every message is
 one that an honest trustee computes.
 */
module TallyRuns {
  import opened Group
  import opened Crypto
  import opened DecryptionMessages
  import opened DecryptionCoordinator
  import opened TallyTheorem
  import opened Threshold
  import opened Publication

  // ---- shares -----------------------------------------------------------------------------------

  ghost function AfterShares(G: Group, c: CState, shares: seq<Share>): (r: CState)
    requires G.Positive() && c.Valid()
    ensures r.Valid() && r.numTrustees == c.numTrustees && r.threshold == c.threshold
  {
    if shares == [] then c
    else AfterShare(G, AfterShares(G, c, shares[..|shares| - 1]), shares[|shares| - 1]).1
  }

  ghost function Senders(shares: seq<Share>, n: nat): (r: seq<bool>)
    ensures |r| == n && forall l :: 0 <= l < n ==> (r[l] <==> exists s :: s in shares && s.trusteeIndex == l)
  {
    seq(n, l requires 0 <= l < n => exists s :: s in shares && s.trusteeIndex == l)
  }

  lemma OneMoreSender(shares: seq<Share>, n: nat)
    requires shares != [] && shares[|shares| - 1].trusteeIndex < n
    ensures Senders(shares, n) == Senders(shares[..|shares| - 1], n)[shares[|shares| - 1].trusteeIndex := true]
  {
    var before, last := shares[..|shares| - 1], shares[|shares| - 1];
    assert last in shares;
    forall l | 0 <= l < n
      ensures Senders(shares, n)[l] <==> (l == last.trusteeIndex || Senders(before, n)[l])
    {
      if Senders(shares, n)[l] {
        var s :| s in shares && s.trusteeIndex == l;
        assert s == last || s in before;
      }
      if Senders(before, n)[l] {
        var s :| s in before && s.trusteeIndex == l;
        assert s in shares;
      }
    }
  }

  /** After any honest shares exactly their senders have announced, each counted once. */
  lemma {:induction false} SharesInAnyOrder(E: Election, shares: seq<Share>)
    requires E.Valid() && forall s :: s in shares ==> HonestShare(E, s)
    ensures
      var c := AfterShares(E.G, Initial(E.n, E.k), shares);
      SharePhase(E, c) && c.anounced == Senders(shares, E.n)
  {
    assert E.G.Positive() && Initial(E.n, E.k).Valid();
    hide E.Valid, SharePhase, HonestShare, AfterShare;
    if shares == [] {
      SharePhaseInitially(E);
      assert Senders([], E.n) == Repeated(false, E.n);
    } else {
      var before, last := shares[..|shares| - 1], shares[|shares| - 1];
      assert forall s :: s in before ==> s in shares;
      assert last in shares;
      SharesInAnyOrder(E, before);
      FromTrustee(E, last);
      SharePhaseStep(E, AfterShares(E.G, Initial(E.n, E.k), before), last);
      OneMoreSender(shares, E.n);
    }
  }

  lemma FromTrustee(E: Election, s: Share)
    requires E.Valid() && HonestShare(E, s)
    ensures s.trusteeIndex < E.n
  {}

  // ---- fragments --------------------------------------------------------------------------------

  ghost function AfterAnswers(G: Group, c: CState, fs: seq<Fragments>): (r: CState)
    requires G.Positive() && c.Valid() && forall f :: f in fs ==> |f.requested| == |f.partials| == c.numTrustees
    ensures r.Valid() && r.numTrustees == c.numTrustees && r.threshold == c.threshold && r.anounced == c.anounced
  {
    if fs == [] then c
    else
      var last := fs[|fs| - 1];
      assert last in fs;
      AfterFragments(G, AfterAnswers(G, c, fs[..|fs| - 1]), last).1
  }

  /** The announced trustees that have answered. */
  ghost function Answering(fs: seq<Fragments>, anounced: seq<bool>): (r: seq<bool>)
    ensures |r| == |anounced|
    ensures forall l :: 0 <= l < |r| ==> (r[l] <==> anounced[l] && exists f :: f in fs && f.trusteeIndex == l)
  {
    seq(|anounced|, l requires 0 <= l < |anounced| => anounced[l] && exists f :: f in fs && f.trusteeIndex == l)
  }

  lemma OneMoreAnswer(fs: seq<Fragments>, anounced: seq<bool>)
    requires fs != [] && fs[|fs| - 1].trusteeIndex < |anounced|
    ensures
      var l := fs[|fs| - 1].trusteeIndex;
      Answering(fs, anounced)
        == if anounced[l] then Answering(fs[..|fs| - 1], anounced)[l := true] else Answering(fs[..|fs| - 1], anounced)
  {
    var before, last := fs[..|fs| - 1], fs[|fs| - 1];
    assert last in fs;
    forall l | 0 <= l < |anounced|
      ensures Answering(fs, anounced)[l] <==> (anounced[l] && (l == last.trusteeIndex || Answering(before, anounced)[l]))
    {
      if Answering(fs, anounced)[l] {
        var f :| f in fs && f.trusteeIndex == l;
        assert f == last || f in before;
      }
      if Answering(before, anounced)[l] {
        var f :| f in before && f.trusteeIndex == l;
        assert f in fs;
      }
    }
  }

  lemma WellShaped(E: Election, c: CState, f: Fragments)
    requires E.Valid() && c.Valid() && HonestFragments(E, c, f)
    ensures |f.requested| == |f.partials| == c.numTrustees && f.trusteeIndex < c.numTrustees == E.n
  {}

  /** Whose answers are honest depends on who announced, not on who answered. */
  lemma StillHonest(E: Election, c: CState, c': CState, f: Fragments)
    requires E.Valid() && c.Valid() && c'.Valid() && HonestFragments(E, c, f)
    requires c'.numTrustees == c.numTrustees && c'.threshold == c.threshold && c'.anounced == c.anounced
    ensures HonestFragments(E, c', f)
  {
    var s :| HonestAnswer(E, c, s, f);
    assert RequestFor(c', s.index) == RequestFor(c, s.index);
    assert HonestAnswer(E, c', s, f);
  }

  /** After any honest answers exactly the announced trustees among their senders have responded, each counted once. */
  lemma {:induction false} AnswersInAnyOrder(E: Election, c: CState, fs: seq<Fragments>)
    requires E.Valid() && FragmentPhase(E, c) && c.responded == Repeated(false, E.n)
    requires forall f :: f in fs ==> HonestFragments(E, c, f)
    ensures forall f :: f in fs ==> |f.requested| == |f.partials| == c.numTrustees
    ensures
      var r := AfterAnswers(E.G, c, fs);
      FragmentPhase(E, r) && r.responded == Answering(fs, c.anounced)
  {
    forall f | f in fs ensures |f.requested| == |f.partials| == c.numTrustees { WellShaped(E, c, f); }
    if fs == [] {
      assert Answering([], c.anounced) == Repeated(false, E.n);
    } else {
      var before, last := fs[..|fs| - 1], fs[|fs| - 1];
      assert forall f :: f in before ==> f in fs;
      assert last in fs && c.Valid() && c.numTrustees == E.n && E.G.Positive();
      hide E.Valid, FragmentPhase, HonestFragments, AfterFragments;
      AnswersInAnyOrder(E, c, before);
      var r := AfterAnswers(E.G, c, before);
      WellShaped(E, c, last);
      StillHonest(E, c, r, last);
      NextAnswer(E, r, last);
      OneMoreAnswer(fs, c.anounced);
      assert Answering(before, c.anounced) == r.responded;
    }
  }

  lemma NextAnswer(E: Election, c: CState, f: Fragments)
    requires E.Valid() && FragmentPhase(E, c) && HonestFragments(E, c, f)
    requires |f.requested| == |f.partials| == c.numTrustees && f.trusteeIndex < c.numTrustees
    ensures
      var r := AfterFragments(E.G, c, f).1;
      && FragmentPhase(E, r)
      && r.responded == (if c.anounced[f.trusteeIndex] then c.responded[f.trusteeIndex := true] else c.responded)
  {
    var s :| HonestAnswer(E, c, s, f);
    assert f.trusteeIndex == s.index;
    hide FragmentPhase, HonestAnswer, E.Valid;
    FragmentPhaseStep(E, c, s, f);
  }

  // ---- whole runs -------------------------------------------------------------------------------

  /** What the coordinator publishes from, after shares and then fragments. */
  ghost predicate Run(E: Election, shares: seq<Share>, fs: seq<Fragments>, c: CState)
    requires E.Valid()
  {
    var c0 := AfterShares(E.G, Initial(E.n, E.k), shares);
    var c1 := AfterAllShares(c0).1;
    && (forall s :: s in shares ==> HonestShare(E, s))
    && E.k <= CountAnounced(c0)
    && (forall f :: f in fs ==> HonestFragments(E, c1, f) && |f.requested| == |f.partials| == E.n)
    && c == AfterAnswers(E.G, c1, fs)
  }

  /**
   In any order and with any repetitions: the final check passes exactly when every
   announced trustee has answered, and then every tally stands raised to what the
   announced shares and their fragments amount to, each multiplied in once.
   */
  lemma AnyOrder(E: Election, shares: seq<Share>, fs: seq<Fragments>, c: CState)
    requires E.Valid() && Run(E, shares, fs, c)
    ensures c.Valid() && c.numTrustees == E.n && c.anounced == Senders(shares, E.n)
    ensures SeenOrCompensated(c) <==>
      forall l :: 0 <= l < E.n && c.anounced[l] ==> exists f :: f in fs && f.trusteeIndex == l
    ensures SeenOrCompensated(c) ==>
      && |c.tallies| == |E.tallies|
      && forall j :: 0 <= j < |c.tallies| ==> c.tallies[j] == Raised(E, j, E.Combined(c.anounced, c.anounced))
  {
    var c0 := AfterShares(E.G, Initial(E.n, E.k), shares);
    SharesInAnyOrder(E, shares);
    FragmentPhaseInitially(E, c0);
    var c1 := AfterAllShares(c0).1;
    AnswersInAnyOrder(E, c1, fs);
    assert c.responded == Answering(fs, c.anounced);
    CheckPasses(E, c);
  }

  lemma CheckPasses(E: Election, c: CState)
    requires E.Valid() && FragmentPhase(E, c)
    ensures SeenOrCompensated(c) <==> c.responded == c.anounced
    ensures SeenOrCompensated(c) ==>
      && |c.tallies| == |E.tallies|
      && forall j :: 0 <= j < |c.tallies| ==> c.tallies[j] == Raised(E, j, E.Combined(c.anounced, c.anounced))
  {
    hide E.Combined, Compensated;
    if c.responded == c.anounced {
      AllAnswered(E, c);
    }
  }

  /** With exactly the threshold announced, or all trustees, what is then published are the votes. */
  lemma AnyOrderPublishesVotes(E: Election, shares: seq<Share>, fs: seq<Fragments>, c: CState, j: nat)
    requires E.Valid() && Run(E, shares, fs, c) && SeenOrCompensated(c)
    requires |Listed(c.anounced)| == E.k || |Listed(c.anounced)| == E.n
    requires j < |E.tallies| && 0 <= E.votes[j] < E.G.q
    ensures |c.tallies| == |E.tallies| && Decoded(E.G, c.tallies[j]) == E.G.Exp(E.G.g, E.votes[j])
    ensures E.G.InSubgroup(Decoded(E.G, c.tallies[j]))
    ensures PublishedTally(E.G, c.tallies[j]) == E.votes[j] % UINT32
  {
    AnyOrder(E, shares, fs, c);
    CombinedIsSecret(E, c.anounced);
    PublishedIsVotes(E, j, E.Combined(c.anounced, c.anounced));
  }
}

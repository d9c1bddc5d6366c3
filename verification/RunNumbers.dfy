/**
 When a decryption run goes through, in the numbers it has to write: powers of the
 generator whose exponents are made of nonces, votes and the trustees' secrets.
 */
module RunNumbers {
  import opened Arithmetic
  import opened Group
  import opened Bignum
  import opened Interpolation
  import opened Crypto
  import opened DecryptionMessages
  import opened DecryptionTrustee
  import opened DecryptionCoordinator
  import opened TallyTheorem
  import opened Threshold
  import opened Publication
  import opened TallyVotes
  import opened TallyDriver
  import opened TallyEndToEnd
  import Rsa

  /** Trustee l comes among the first k announced ones, which are asked for the missing ones. */
  predicate IsAsked(k: nat, anounced: seq<bool>, l: nat)
    requires l < |anounced|
  {
    anounced[l] && |Listed(anounced[..l])| < k
  }

  /** g to this exponent fills the 64 words of a group element. */
  predicate PowerFits(G: Group, e: int)
    requires G.Positive()
  {
    Fills(G.Exp(G.g, e), WORDS_4096)
  }

  /**
   The numbers on the way of one tally entry, with nonce r for v votes under the secret s:
   its message encoding, every announced trustee's share, what the asked ones compute
   for the missing ones, and the nonce encoding at the end, raised to d. And what it
   decodes to is not taken for the end of the search.
   */
  ghost predicate EntryFits(G: Group, k: nat, polys: seq<seq<nat>>, anounced: seq<bool>, s: int, d: int, r: int, v: int)
    requires G.Positive() && |polys| == |anounced| && forall i :: 0 <= i < |polys| ==> 0 < |polys[i]|
  {
    && PowerFits(G, s * r + v)
    && (forall i :: 0 <= i < |anounced| && anounced[i] ==> PowerFits(G, r * polys[i][0]))
    && (forall l, i :: 0 <= l < |anounced| && 0 <= i < |anounced| && IsAsked(k, anounced, l) && !anounced[i] ==>
          PowerFits(G, r * Poly(polys[i], l + 1)))
    && PowerFits(G, r * d)
    && (G.Exp(G.g, v + r * (s - d)) == 1 || G.Exp(G.g, v + r * (s - d)) != MAX_DECRYPTION)
  }

  /** The Lagrange coefficient trustee l computes, among all if it is asked for nobody. */
  function CoefficientOf(G: Group, k: nat, anounced: seq<bool>, l: nat): nat
    requires G.Positive() && l < |anounced|
  {
    Weight(G, Listed(if |Listed(anounced[..l])| < k then anounced else Repeated(true, |anounced|)), l)
  }

  ghost predicate CoefficientsFit(G: Group, k: nat, anounced: seq<bool>)
    requires G.Positive()
  {
    forall l :: 0 <= l < |anounced| && anounced[l] ==> FillsPadded(CoefficientOf(G, k, anounced, l), WORDS_256)
  }

  /** All numbers of a run in which these trustees announce. */
  ghost predicate NumbersFit(E: Election, anounced: seq<bool>)
    requires E.Valid() && |anounced| == E.n
  {
    && CoefficientsFit(E.G, E.k, anounced)
    && forall j :: 0 <= j < |E.tallies| ==>
        EntryFits(E.G, E.k, E.polys, anounced, E.Secret(), E.Combined(anounced, anounced), E.nonces[j], E.votes[j])
  }

  lemma PowerOfNonce(G: Group, r: int, e: nat)
    requires G.Valid()
    ensures G.PowModP(G.Exp(G.g, r), e) == G.Exp(G.g, r * e)
  {
    ExpOrderQ(G, G.g, r);
    PowModPIsExp(G, G.Exp(G.g, r), e);
    ExpMul(G, G.g, r, e);
  }

  // ---- shares -----------------------------------------------------------------------------------

  ghost predicate ShareNumbersFit(E: Election, i: nat)
    requires E.Valid() && i < E.n
  {
    forall j :: 0 <= j < |E.tallies| ==>
      PowerFits(E.G, E.nonces[j] * E.polys[i][0]) && PowerFits(E.G, E.Secret() * E.nonces[j] + E.votes[j])
  }

  lemma ShareFitsExactly(E: Election, s: TrusteeState)
    requires E.Valid() && HonestState(E, s)
    ensures ShareFits(ShareFrom(E.G, s, E.tallies)) <==> ShareNumbersFit(E, s.index)
  {
    var share := ShareFrom(E.G, s, E.tallies);
    forall j | 0 <= j < |E.tallies|
      ensures EncryptionFits(share.tallyShare[j]) <==>
        PowerFits(E.G, E.nonces[j] * E.polys[s.index][0]) && PowerFits(E.G, E.Secret() * E.nonces[j] + E.votes[j])
    {
      EntryOfShare(E, s, j);
    }
    hide EncryptionFits, PowerFits, E.Secret;
  }

  lemma EntryOfShare(E: Election, s: TrusteeState, j: nat)
    requires E.Valid() && HonestState(E, s) && j < |E.tallies|
    ensures EncryptionFits(ShareFrom(E.G, s, E.tallies).tallyShare[j]) <==>
      PowerFits(E.G, E.nonces[j] * E.polys[s.index][0]) && PowerFits(E.G, E.Secret() * E.nonces[j] + E.votes[j])
  {
    assert Encrypts(E.G, E.Secret(), E.tallies[j], E.nonces[j], E.votes[j]);
    hide Fills, E.Secret;
    PowerOfNonce(E.G, E.nonces[j], s.coefficients[0]);
  }

  // ---- answers ----------------------------------------------------------------------------------

  ghost predicate AnswerNumbersFit(E: Election, anounced: seq<bool>, l: nat)
    requires E.Valid() && |anounced| == E.n && l < E.n
  {
    && (IsAsked(E.k, anounced, l) ==> forall i, j :: 0 <= i < E.n && !anounced[i] && 0 <= j < |E.tallies| ==>
          PowerFits(E.G, E.nonces[j] * Poly(E.polys[i], l + 1)))
    && FillsPadded(CoefficientOf(E.G, E.k, anounced, l), WORDS_256)
  }

  /** What is computed for missing trustee i on entry j. */
  lemma PartialIsPower(E: Election, s: TrusteeState, i: nat, j: nat)
    requires E.Valid() && HonestState(E, s) && i < E.n && j < |E.tallies|
    ensures PartialsOf(E.G, Rsa.Decrypt(s.myKeyShares[i], s.rsaKey), E.tallies)[j]
         == E.G.Exp(E.G.g, E.nonces[j] * Poly(E.polys[i], s.index + 1))
  {
    var value := Rsa.Decrypt(s.myKeyShares[i], s.rsaKey);
    assert Encrypts(E.G, E.Secret(), E.tallies[j], E.nonces[j], E.votes[j]);
    assert Cong(value, E.ShareValue(i, s.index), E.G.q);
    hide Encrypts, Poly, Rsa.Decrypt, Cong;
    PowerOfNonce(E.G, E.nonces[j], value);
    CongScale(E.nonces[j], value, Poly(E.polys[i], s.index + 1), E.G.q);
    ExpCong(E.G, E.G.g, E.nonces[j] * value, E.nonces[j] * Poly(E.polys[i], s.index + 1));
  }

  lemma NegatedTwice(flags: seq<bool>)
    ensures Negated(Negated(flags)) == flags
    ensures Negated(Repeated(false, |flags|)) == Repeated(true, |flags|)
  {}

  lemma AnswerFitsExactly(E: Election, anounced: seq<bool>, s: TrusteeState, requested: seq<bool>)
    requires E.Valid() && HonestState(E, s) && |anounced| == E.n && anounced[s.index]
    requires requested == if |Listed(anounced[..s.index])| < E.k then Negated(anounced) else Repeated(false, E.n)
    ensures FragmentsFit(FragmentsOf(E.G, s, E.tallies, requested)) <==> AnswerNumbersFit(E, anounced, s.index)
  {
    var f := FragmentsOf(E.G, s, E.tallies, requested);
    NegatedTwice(anounced);
    assert f.lagrangeCoefficient == CoefficientOf(E.G, E.k, anounced, s.index);
    forall i, j | 0 <= i < E.n && requested[i] && 0 <= j < |E.tallies|
      ensures f.partials[i][j] == E.G.Exp(E.G.g, E.nonces[j] * Poly(E.polys[i], s.index + 1))
    {
      PartialIsPower(E, s, i, j);
    }
    hide E.Valid, HonestState, Weight, FillsPadded, Fills, Poly, CoefficientOf;
    assert forall i :: 0 <= i < E.n ==> |f.partials[i]| == if requested[i] then |E.tallies| else 0;
    assert forall i :: 0 <= i < E.n ==> (requested[i] <==> IsAsked(E.k, anounced, s.index) && !anounced[i]);
    RowsFit(E, anounced, s.index, f);
  }

  lemma RowsFit(E: Election, anounced: seq<bool>, l: nat, f: Fragments)
    requires E.G.Positive() && |E.tallies| == |E.nonces| && |E.polys| == |anounced| == |f.partials| == E.n && l < E.n
    requires forall i :: 0 <= i < E.n ==>
      |f.partials[i]| == if IsAsked(E.k, anounced, l) && !anounced[i] then |E.tallies| else 0
    requires forall i, j :: 0 <= i < E.n && IsAsked(E.k, anounced, l) && !anounced[i] && 0 <= j < |E.tallies| ==>
      f.partials[i][j] == E.G.Exp(E.G.g, E.nonces[j] * Poly(E.polys[i], l + 1))
    ensures
      (forall i, j :: 0 <= i < |f.partials| && 0 <= j < |f.partials[i]| ==> Fills(f.partials[i][j], WORDS_4096))
      <==> (IsAsked(E.k, anounced, l) ==> forall i, j :: 0 <= i < E.n && !anounced[i] && 0 <= j < |E.tallies| ==>
          PowerFits(E.G, E.nonces[j] * Poly(E.polys[i], l + 1)))
  {
    if IsAsked(E.k, anounced, l) {
      hide Fills, Poly;
      if forall i, j :: 0 <= i < |f.partials| && 0 <= j < |f.partials[i]| ==> Fills(f.partials[i][j], WORDS_4096) {
        forall i, j | 0 <= i < E.n && !anounced[i] && 0 <= j < |E.tallies|
          ensures PowerFits(E.G, E.nonces[j] * Poly(E.polys[i], l + 1))
        {
          assert Fills(f.partials[i][j], WORDS_4096);
        }
      } else {
        var i, j :| 0 <= i < |f.partials| && 0 <= j < |f.partials[i]| && !Fills(f.partials[i][j], WORDS_4096);
        assert !PowerFits(E.G, E.nonces[j] * Poly(E.polys[i], l + 1));
      }
    }
  }

  // ---- what is published --------------------------------------------------------------------------

  ghost predicate ResultFits(E: Election, d: int, j: nat)
    requires E.Valid() && j < |E.tallies|
  {
    var r, v, s := E.nonces[j], E.votes[j], E.Secret();
    && PowerFits(E.G, r * d) && PowerFits(E.G, s * r + v)
    && (E.G.Exp(E.G.g, v + r * (s - d)) == 1 || E.G.Exp(E.G.g, v + r * (s - d)) != MAX_DECRYPTION)
  }

  lemma ResultFitsExactly(E: Election, d: int, j: nat)
    requires E.Valid() && j < |E.tallies|
    ensures Publishable(E.G, Raised(E, j, d)) <==> ResultFits(E, d, j)
  {
    DecodedTally(E, j, d);
    assert Encrypts(E.G, E.Secret(), E.tallies[j], E.nonces[j], E.votes[j]);
    hide Fills, E.Secret;
  }

  // ---- the run ------------------------------------------------------------------------------------

  ghost predicate EntryNumbersFit(E: Election, anounced: seq<bool>, j: nat)
    requires E.Valid() && |anounced| == E.n && j < |E.tallies|
  {
    EntryFits(E.G, E.k, E.polys, anounced, E.Secret(), E.Combined(anounced, anounced), E.nonces[j], E.votes[j])
  }

  /** The conditions trustee by trustee, and result by result. */
  ghost predicate TrusteesFit(E: Election, anounced: seq<bool>)
    requires E.Valid() && |anounced| == E.n
  {
    && (forall l :: 0 <= l < E.n && anounced[l] ==> ShareNumbersFit(E, l))
    && (forall l :: 0 <= l < E.n && anounced[l] ==> AnswerNumbersFit(E, anounced, l))
    && forall j :: 0 <= j < |E.tallies| ==> ResultFits(E, E.Combined(anounced, anounced), j)
  }

  lemma Lengths(E: Election)
    requires E.Valid()
    ensures E.G.Positive() && |E.polys| == E.n && forall i :: 0 <= i < E.n ==> 0 < |E.polys[i]|
    ensures |E.tallies| == |E.nonces| == |E.votes|
  {}

  lemma ByTrustees(E: Election, anounced: seq<bool>)
    requires E.Valid() && |anounced| == E.n && NumbersFit(E, anounced)
    ensures TrusteesFit(E, anounced)
  {
    hide PowerFits, FillsPadded, CoefficientOf, E.Combined, E.Secret, Poly, Encrypts, E.Valid;
    Lengths(E);
    assert forall j :: 0 <= j < |E.tallies| ==> EntryNumbersFit(E, anounced, j);
    forall l | 0 <= l < E.n && anounced[l] ensures ShareNumbersFit(E, l) {
      forall j | 0 <= j < |E.tallies|
        ensures PowerFits(E.G, E.nonces[j] * E.polys[l][0]) && PowerFits(E.G, E.Secret() * E.nonces[j] + E.votes[j])
      {
        assert EntryNumbersFit(E, anounced, j);
      }
    }
    forall l | 0 <= l < E.n && anounced[l] ensures AnswerNumbersFit(E, anounced, l) {
      forall i, j | IsAsked(E.k, anounced, l) && 0 <= i < E.n && !anounced[i] && 0 <= j < |E.tallies|
        ensures PowerFits(E.G, E.nonces[j] * Poly(E.polys[i], l + 1))
      {
        assert EntryNumbersFit(E, anounced, j);
      }
    }
    forall j | 0 <= j < |E.tallies| ensures ResultFits(E, E.Combined(anounced, anounced), j) {
      assert EntryNumbersFit(E, anounced, j);
    }
  }

  lemma ByEntries(E: Election, anounced: seq<bool>)
    requires E.Valid() && |anounced| == E.n && TrusteesFit(E, anounced)
    ensures NumbersFit(E, anounced)
  {
    hide PowerFits, FillsPadded, CoefficientOf, E.Combined, E.Secret, Poly, Encrypts, E.Valid;
    Lengths(E);
    forall j | 0 <= j < |E.tallies| ensures EntryNumbersFit(E, anounced, j) {
      assert ResultFits(E, E.Combined(anounced, anounced), j);
      forall i | 0 <= i < E.n && anounced[i] ensures PowerFits(E.G, E.nonces[j] * E.polys[i][0]) {
        assert ShareNumbersFit(E, i);
      }
      forall l, i | 0 <= l < E.n && 0 <= i < E.n && IsAsked(E.k, anounced, l) && !anounced[i]
        ensures PowerFits(E.G, E.nonces[j] * Poly(E.polys[i], l + 1))
      {
        assert AnswerNumbersFit(E, anounced, l);
      }
    }
    forall l | 0 <= l < E.n && anounced[l]
      ensures FillsPadded(CoefficientOf(E.G, E.k, anounced, l), WORDS_256)
    {
      assert AnswerNumbersFit(E, anounced, l);
    }
    hide EntryFits;
    forall j | 0 <= j < |E.tallies|
      ensures EntryFits(E.G, E.k, E.polys, anounced, E.Secret(), E.Combined(anounced, anounced), E.nonces[j], E.votes[j])
    {
      assert EntryNumbersFit(E, anounced, j);
    }
  }

  /** A table of honest trustees for the tally of this election. */
  ghost predicate AtTable(E: Election, t: Table) {
    E.Valid() && UsableTable(t) && HonestTable(E, t) && AllInGroup(E.G, E.tallies) && E.k <= |Listed(Announcing(t))|
  }

  lemma SharesFitExactly(E: Election, t: Table)
    requires AtTable(E, t)
    ensures SharesFit(E.G, t, E.tallies, |t|)
       <==> forall l :: 0 <= l < E.n && Announcing(t)[l] ==> ShareNumbersFit(E, l)
  {
    assert |t| == E.n;
    forall l | 0 <= l < E.n && t[l].Some?
      ensures ShareFits(ShareFrom(E.G, t[l].value, E.tallies)) <==> ShareNumbersFit(E, l)
    {
      ShareFitsExactly(E, t[l].value);
    }
    hide ShareFits, ShareFrom, ShareNumbersFit, HonestState, AllInGroup, E.Valid;
  }

  /** What each place of the table is asked for. */
  lemma RequestedInRun(E: Election, t: Table, l: nat)
    requires AtTable(E, t) && l < E.n
    ensures RequestedOf(AnnouncedState(E.G, E.k, t, E.tallies), l)
         == if |Listed(Announcing(t)[..l])| < E.k then Negated(Announcing(t)) else Repeated(false, E.n)
  {
    RunSharesAnnounces(E.G, E.k, t, E.tallies, |t|);
    var c0 := AnnouncedState(E.G, E.k, t, E.tallies);
    hide AllInGroup, RunShares;
    assert c0.anounced == Announcing(t);
  }

  lemma AnswersFitExactly(E: Election, t: Table)
    requires AtTable(E, t)
    ensures AnswersFit(E.G, AnnouncedState(E.G, E.k, t, E.tallies), t, E.tallies, |t|)
       <==> forall l :: 0 <= l < E.n && Announcing(t)[l] ==> AnswerNumbersFit(E, Announcing(t), l)
  {
    var c0 := AnnouncedState(E.G, E.k, t, E.tallies);
    assert |t| == E.n;
    forall l | 0 <= l < E.n && t[l].Some?
      ensures FragmentsFit(FragmentsOf(E.G, t[l].value, E.tallies, RequestedOf(c0, l)))
         <==> AnswerNumbersFit(E, Announcing(t), l)
    {
      RequestedInRun(E, t, l);
      hide RequestedOf, AnnouncedState, FragmentsFit, FragmentsOf, AnswerNumbersFit;
      AnswerFitsExactly(E, Announcing(t), t[l].value, RequestedOf(c0, l));
    }
    hide FragmentsFit, FragmentsOf, AnswerNumbersFit, HonestState, AllInGroup, E.Valid, AnnouncedState, RequestedOf;
  }

  lemma ResultsFitExactly(E: Election, t: Table)
    requires AtTable(E, t)
    ensures
      var c, d := FinalState(E.G, E.k, t, E.tallies), E.Combined(Announcing(t), Announcing(t));
      && SeenOrCompensated(c)
      && ((forall j :: 0 <= j < |c.tallies| ==> Publishable(E.G, c.tallies[j]))
          <==> forall j :: 0 <= j < |E.tallies| ==> ResultFits(E, d, j))
  {
    HonestRun(E, t);
    var c, d := FinalState(E.G, E.k, t, E.tallies), E.Combined(Announcing(t), Announcing(t));
    hide FinalState, SeenOrCompensated, E.Combined, ResultFits, Publishable, Raised, AllInGroup;
    forall j | 0 <= j < |E.tallies| ensures Publishable(E.G, c.tallies[j]) <==> ResultFits(E, d, j) {
      ResultFitsExactly(E, d, j);
    }
  }

  /**
   A run of at least the threshold of honest trustees succeeds if and only if these
   numbers fill their words: there is nothing else that could make it fail.
   */
  lemma RunSucceedsExactly(E: Election, config: Config, states: seq<TrusteeState>, record: VotingRecord)
    requires E.Valid() && FromCeremony(E, states)
    requires config.numTrustees == E.n <= MAX_TRUSTEES && config.threshold == E.k
    requires UsableStates(config, states) && UsableRecord(E.G, config, record)
    requires record.numSelections == config.numSelections && E.tallies == RunTally(E.G, config, record)
    requires E.k <= |Listed(Present(states, E.n))|
    ensures RunSucceeds(E.G, config, states, record) <==> E.k <= |states| && NumbersFit(E, Present(states, E.n))
  {
    var t := TableOf(states, E.n);
    UsableTableOf(config, states);
    HonestTableOf(E, config, states);
    assert Present(states, E.n) == Announcing(t);
    ZerosInGroup(E.G, config.numSelections);
    TallyInGroup(E.G, DecryptionTrustee.Zeros(config.numSelections), record.ballots);
    assert AtTable(E, t);
    SharesFitExactly(E, t);
    AnswersFitExactly(E, t);
    ResultsFitExactly(E, t);
    hide SharesFit, AnswersFit, Publishable, AtTable, ShareNumbersFit, AnswerNumbersFit, ResultFits, NumbersFit;
    hide E.Valid, FinalState, AnnouncedState, SeenOrCompensated, E.Combined, AllInGroup, FromCeremony;
    if NumbersFit(E, Present(states, E.n)) {
      ByTrustees(E, Announcing(t));
    } else if TrusteesFit(E, Announcing(t)) {
      ByEntries(E, Announcing(t));
    }
  }
}

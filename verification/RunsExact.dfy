/**
 When decryption runs publish the votes: the exact condition for a single run, and for
 a set of announced trustees whatever the keys. Between the threshold and all trustees
 there are runs of honest trustees that pass every check and decode something else.
 */
module RunsExact {
  import opened Arithmetic
  import opened Primes
  import opened Group
  import opened Interpolation
  import opened Crypto
  import opened DecryptionMessages
  import opened DecryptionTrustee
  import opened DecryptionCoordinator
  import opened TallyTheorem
  import opened Threshold
  import opened ThresholdExact
  import opened Publication
  import opened TallyRuns
  import Rsa

  // ---- one run ----------------------------------------------------------------------------------

  /** What is combined, and the secret, depend on the keys alone. */
  lemma KeysDecide(E: Election, anounced: seq<bool>)
    requires E.Valid()
    ensures
      var W := WithKeys(E.G, E.n, E.k, E.polys);
      W.Combined(anounced, anounced) == E.Combined(anounced, anounced) && W.Secret() == E.Secret()
  {
    hide Encrypts, Weight, Poly;
    var W := WithKeys(E.G, E.n, E.k, E.polys);
    FlagSumSame(Repeated(true, E.n), (i: nat) => E.SecretOf(i), (i: nat) => W.SecretOf(i));
    FlagSumSame(anounced, (i: nat) => E.SecretOf(i), (i: nat) => W.SecretOf(i));
    forall l: nat ensures E.Contribution(anounced, l) == W.Contribution(anounced, l) {
      FlagSumSame(Negated(anounced), (m: nat) => E.ShareValue(m, l), (m: nat) => W.ShareValue(m, l));
    }
    FlagSumSame(anounced, (l: nat) => E.Contribution(anounced, l), (l: nat) => W.Contribution(anounced, l));
  }

  /**
   A run that passes the final check decodes a selection's votes exactly if the keys are
   rebuilt by those who announced, or the tally's nonce is a multiple of q.
   */
  lemma DecodesExactly(E: Election, shares: seq<Share>, fs: seq<Fragments>, c: CState, j: nat)
    requires E.Valid() && Run(E, shares, fs, c) && SeenOrCompensated(c) && j < |E.tallies|
    ensures j < |c.tallies|
    ensures Decoded(E.G, c.tallies[j]) == E.G.Exp(E.G.g, E.votes[j])
       <==> Cong(E.nonces[j], 0, E.G.q) || Rebuilds(E.G, E.n, E.k, E.polys, c.anounced)
  {
    AnyOrder(E, shares, fs, c);
    var d := E.Combined(c.anounced, c.anounced);
    DecodedIsVotesExactly(E, j, d);
    KeysDecide(E, c.anounced);
    var r, s, q := E.nonces[j], E.Secret(), E.G.q;
    assert IsPrime(q);
    hide E.Valid, Run, SeenOrCompensated, E.Combined, E.Secret, Encrypts, IsPrime;
    NonceDecides(r, d, s, q);
  }

  lemma NonceDecides(r: int, d: int, s: int, q: int)
    requires IsPrime(q)
    ensures Cong(r * d, r * s, q) <==> Cong(r, 0, q) || Cong(d, s, q)
  {
    hide IsPrime;
    assert 0 < q by { QPositive(q); }
    if Cong(r, 0, q) {
      CongScale(d, r, 0, q);
      CongScale(s, r, 0, q);
      MulComm(r, d);
      MulComm(r, s);
    } else if Cong(d, s, q) {
      CongScale(r, d, s, q);
    } else if Cong(r * d, r * s, q) {
      NotDivided(r, q);
      MulComm(r, d);
      MulComm(r, s);
      CongCancel(d, s, r, q);
    }
  }

  lemma QPositive(q: int)
    requires IsPrime(q)
    ensures 0 < q
  {}

  lemma NotDivided(r: int, q: int)
    requires 0 < q && !Cong(r, 0, q)
    ensures !Divides(q, r)
  {
    CongZero(r, 0, q);
  }

  // ---- a run for every set of trustees ----------------------------------------------------------

  /** A key that leaves numbers below q as they are. */
  function PlainKey(q: nat): Rsa.PrivateKey {
    Rsa.PrivateKey(q, 1, 1, 0, 0)
  }

  /** A state as the ceremony could leave it. */
  function PlainState(E: Election, l: nat): TrusteeState
    requires E.G.Positive() && l < |E.polys|
  {
    TrusteeState(l, E.polys[l], seq(E.n, (m: nat) => Rsa.Residue(E.ShareValue(m, l), E.G.q)), PlainKey(E.G.q))
  }

  lemma PlainStateIsHonest(E: Election, l: nat)
    requires E.Valid() && l < E.n
    ensures HonestState(E, PlainState(E, l))
  {
    hide Encrypts, Poly;
    var s, q := PlainState(E, l), E.G.q;
    forall m | 0 <= m < E.n ensures Cong(Rsa.Decrypt(s.myKeyShares[m], s.rsaKey), E.ShareValue(m, l), q) {
      var x := Rsa.Residue(E.ShareValue(m, l), q);
      assert Pow(x, 1) == x * Pow(x, 0) == x;
      CongMod(E.ShareValue(m, l), q);
      CongMod(x, q);
    }
  }

  predicate Below(trustees: seq<nat>, n: nat) {
    forall i :: 0 <= i < |trustees| ==> trustees[i] < n
  }

  /** The shares of these trustees. */
  ghost function SharesOf(E: Election, trustees: seq<nat>): (r: seq<Share>)
    requires E.Valid() && Below(trustees, E.n)
    ensures |r| == |trustees| && forall i :: 0 <= i < |r| ==> r[i].trusteeIndex == trustees[i] && HonestShare(E, r[i])
  {
    seq(|trustees|, i requires 0 <= i < |trustees| =>
      ShareOf(E.G, trustees[i], E.polys[trustees[i]][0], E.tallies))
  }

  /** Their answers to what the coordinator asks of them. */
  ghost function AnswersOf(E: Election, c: CState, trustees: seq<nat>): (r: seq<Fragments>)
    requires E.Valid() && c.Valid() && c.numTrustees == E.n && Below(trustees, E.n)
    ensures |r| == |trustees|
    ensures forall i :: 0 <= i < |r| ==>
      r[i] == FragmentsOf(E.G, PlainState(E, trustees[i]), E.tallies, RequestFor(c, trustees[i]).requested)
  {
    seq(|trustees|, i requires 0 <= i < |trustees| =>
      FragmentsOf(E.G, PlainState(E, trustees[i]), E.tallies, RequestFor(c, trustees[i]).requested))
  }

  lemma AnswersAreHonest(E: Election, c: CState, trustees: seq<nat>)
    requires E.Valid() && c.Valid() && c.numTrustees == E.n && Below(trustees, E.n)
    ensures forall f :: f in AnswersOf(E, c, trustees) ==>
      HonestFragments(E, c, f) && |f.requested| == |f.partials| == E.n
    ensures forall l :: l in trustees ==> exists f :: f in AnswersOf(E, c, trustees) && f.trusteeIndex == l
  {
    assert E.G.Positive() && |E.polys| == E.n;
    hide E.Valid, HonestFragments, FragmentsOf, RequestFor, PlainState;
    var fs := AnswersOf(E, c, trustees);
    forall f | f in fs ensures HonestFragments(E, c, f) && |f.requested| == |f.partials| == E.n {
      var i :| 0 <= i < |fs| && fs[i] == f;
      AnswerIsHonest(E, c, trustees[i]);
    }
    forall l | l in trustees ensures exists f :: f in fs && f.trusteeIndex == l {
      var i :| 0 <= i < |trustees| && trustees[i] == l;
      AnswerIsHonest(E, c, l);
      assert fs[i] in fs && fs[i].trusteeIndex == l;
    }
  }

  lemma AnswerIsHonest(E: Election, c: CState, l: nat)
    requires E.Valid() && c.Valid() && c.numTrustees == E.n && l < E.n
    ensures
      var f := FragmentsOf(E.G, PlainState(E, l), E.tallies, RequestFor(c, l).requested);
      HonestFragments(E, c, f) && |f.requested| == |f.partials| == E.n && f.trusteeIndex == l
  {
    PlainStateIsHonest(E, l);
    var f := FragmentsOf(E.G, PlainState(E, l), E.tallies, RequestFor(c, l).requested);
    hide HonestState, Weight, PartialsOf, Encrypts;
    assert HonestAnswer(E, c, PlainState(E, l), f);
  }

  /** Every set of at least the threshold of trustees announces and answers in some run. */
  lemma SomeRun(E: Election, anounced: seq<bool>) returns (shares: seq<Share>, fs: seq<Fragments>, c: CState)
    requires E.Valid() && |anounced| == E.n && E.k <= |Listed(anounced)|
    ensures Run(E, shares, fs, c) && SeenOrCompensated(c) && c.anounced == anounced
  {
    shares, fs, c := HonestAnswersRun(E, anounced);
    hide *;
    AnyOrder(E, shares, fs, c);
    Announcers(anounced);
    assert SeenOrCompensated(c);
  }

  lemma HonestAnswersRun(E: Election, anounced: seq<bool>) returns (shares: seq<Share>, fs: seq<Fragments>, c: CState)
    requires E.Valid() && |anounced| == E.n && E.k <= |Listed(anounced)|
    ensures Run(E, shares, fs, c) && Senders(shares, E.n) == anounced
    ensures forall l :: l in Listed(anounced) ==> exists f :: f in fs && f.trusteeIndex == l
  {
    hide E.Valid, SharePhase, SeenOrCompensated, HonestShare, HonestFragments, Listed, FragmentsOf, RequestFor;
    hide AfterShares, AfterAnswers, SharesOf, AnswersOf, Senders, Initial;
    ReadyToRun(E);
    var trustees := Listed(anounced);
    HonestShares(E, anounced);
    shares := SharesOf(E, trustees);
    var c0 := AfterShares(E.G, Initial(E.n, E.k), shares);
    var c1 := AfterAllShares(c0).1;
    fs := AnswersOf(E, c1, trustees);
    AnswersAreHonest(E, c1, trustees);
    c := AfterAnswers(E.G, c1, fs);
  }

  lemma ReadyToRun(E: Election)
    requires E.Valid()
    ensures E.G.Positive() && Initial(E.n, E.k).Valid() && Initial(E.n, E.k).numTrustees == E.n
    ensures Initial(E.n, E.k).threshold == E.k
  {}

  lemma HonestShares(E: Election, anounced: seq<bool>)
    requires E.Valid() && |anounced| == E.n
    ensures Below(Listed(anounced), E.n)
    ensures
      var shares := SharesOf(E, Listed(anounced));
      && (forall s :: s in shares ==> HonestShare(E, s))
      && Senders(shares, E.n) == anounced
      && AfterShares(E.G, Initial(E.n, E.k), shares).anounced == anounced
  {
    SendersOf(E, anounced);
    hide *;
    SharesInAnyOrder(E, SharesOf(E, Listed(anounced)));
  }

  lemma Announcers(anounced: seq<bool>)
    ensures forall l :: 0 <= l < |anounced| && anounced[l] ==> l in Listed(anounced)
  {
    ListedMembers(anounced);
  }

  lemma SendersOf(E: Election, anounced: seq<bool>)
    requires E.Valid() && |anounced| == E.n
    ensures Below(Listed(anounced), E.n)
    ensures forall s :: s in SharesOf(E, Listed(anounced)) ==> HonestShare(E, s)
    ensures Senders(SharesOf(E, Listed(anounced)), E.n) == anounced
  {
    ListedMembers(anounced);
    var trustees := Listed(anounced);
    forall i | 0 <= i < |trustees| ensures trustees[i] < E.n {
      assert trustees[i] in trustees;
    }
    hide E.Valid, HonestShare;
    var shares := SharesOf(E, trustees);
    forall l | 0 <= l < E.n ensures Senders(shares, E.n)[l] == anounced[l] {
      if anounced[l] {
        var i :| 0 <= i < |trustees| && trustees[i] == l;
        assert shares[i] in shares && shares[i].trusteeIndex == l;
      }
      if Senders(shares, E.n)[l] {
        var s :| s in shares && s.trusteeIndex == l;
        var i :| 0 <= i < |shares| && shares[i] == s;
        assert trustees[i] in trustees;
      }
    }
  }

  // ---- whatever the keys ------------------------------------------------------------------------

  /** Every run of honest trustees in which exactly these announce decodes the votes. */
  ghost predicate AlwaysDecodes(G: Group, n: nat, k: nat, anounced: seq<bool>) {
    forall E: Election, shares: seq<Share>, fs: seq<Fragments>, c: CState, j: nat ::
      E.Valid() && E.G == G && E.n == n && E.k == k && Run(E, shares, fs, c)
      && SeenOrCompensated(c) && c.anounced == anounced && j < |E.tallies|
      ==> DecodesVotes(E, c, j)
  }

  ghost predicate DecodesVotes(E: Election, c: CState, j: nat)
    requires E.G.Positive() && j < |E.votes|
  {
    j < |c.tallies| && Decoded(E.G, c.tallies[j]) == E.G.Exp(E.G.g, E.votes[j])
  }

  /** An election with these keys in which one vote is to be decrypted. */
  function OneVote(G: Group, n: nat, k: nat, polys: seq<seq<nat>>): Election
    requires G.Positive()
  {
    var s := WithKeys(G, n, k, polys).Secret();
    Election(G, n, k, polys, [Encrypt(G, G.Exp(G.g, s), 1, G.Exp(G.g, 1))], [1], [1])
  }

  lemma OneVoteIsValid(G: Group, n: nat, k: nat, polys: seq<seq<nat>>)
    requires G.Valid() && 1 <= k <= n < G.q && KeysFor(polys, n, k)
    ensures OneVote(G, n, k, polys).Valid()
  {
    var E, W := OneVote(G, n, k, polys), WithKeys(G, n, k, polys);
    EncryptEncrypts(G, W.Secret(), 1, 1);
    FlagSumSame(Repeated(true, n), (i: nat) => E.SecretOf(i), (i: nat) => W.SecretOf(i));
  }

  /**
   Among the runs that pass every check, those in which a given set of at least the
   threshold announces all decode the votes if and only if the set has exactly the
   threshold of trustees, or all of them.
   */
  lemma RunsDecodeExactly(G: Group, n: nat, k: nat, anounced: seq<bool>)
    requires G.Valid() && 1 <= k <= n && Pow(n, n) < G.q
    requires |anounced| == n && k <= |Listed(anounced)|
    ensures AlwaysDecodes(G, n, k, anounced) <==> |Listed(anounced)| == k || |Listed(anounced)| == n
  {
    RebuildsExactly(G, n, k, anounced);
    ListedMembers(anounced);
    hide Rebuilds, Run, SeenOrCompensated;
    if |Listed(anounced)| == k || |Listed(anounced)| == n {
      forall E: Election, shares: seq<Share>, fs: seq<Fragments>, c: CState, j: nat
        | E.Valid() && E.G == G && E.n == n && E.k == k && Run(E, shares, fs, c)
          && SeenOrCompensated(c) && c.anounced == anounced && j < |E.tallies|
        ensures DecodesVotes(E, c, j)
      {
        assert KeysFor(E.polys, n, k);
        DecodesExactly(E, shares, fs, c, j);
      }
    } else {
      InBetweenFails(G, n, k, anounced);
    }
  }

  lemma InBetweenFails(G: Group, n: nat, k: nat, anounced: seq<bool>)
    requires G.Valid() && 1 <= k <= n && Pow(n, n) < G.q
    requires |anounced| == n && k < |Listed(anounced)| < n
    ensures !AlwaysDecodes(G, n, k, anounced)
  {
    PowMono(n, 1, n);
    assert Pow(n, 1) == n * Pow(n, 0) == n;
    var polys := KeysNotRebuilt(G, n, k, anounced);
    OneVoteIsValid(G, n, k, polys);
    var E := OneVote(G, n, k, polys);
    var shares, fs, c := SomeRun(E, anounced);
    DecodesExactly(E, shares, fs, c, 0);
    CongSmallOne(G.q);
    assert !DecodesVotes(E, c, 0);
    hide Rebuilds, Run, SeenOrCompensated, E.Valid, Listed;
  }

  lemma CongSmallOne(q: int)
    requires 1 < q
    ensures !Cong(1, 0, q)
  {
    if Cong(1, 0, q) { CongSmall(1, 0, q); }
  }
}

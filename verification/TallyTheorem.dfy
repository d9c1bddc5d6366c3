/**
 What every step of a decryption keeps: after any honest share and any honest answer,
 repeated ones included, the coordinator's accumulated nonce encodings are the ones
 the announced and responding trustees stand for.
 */
module TallyTheorem {
  import opened Arithmetic
  import opened Primes
  import opened Group
  import opened Bignum
  import opened Interpolation
  import opened Crypto
  import opened DecryptionMessages
  import opened DecryptionTrustee
  import opened DecryptionCoordinator
  import Rsa

  // ---- sums over the trustees that are flagged ------------------------------------------

  function FlagSum(flags: seq<bool>, f: nat -> int): int {
    if flags == [] then 0
    else FlagSum(flags[..|flags| - 1], f) + (if flags[|flags| - 1] then f(|flags| - 1) else 0)
  }

  lemma {:induction false} FlagSumUpdate(flags: seq<bool>, f: nat -> int, i: nat)
    requires i < |flags| && !flags[i]
    ensures FlagSum(flags[i := true], f) == FlagSum(flags, f) + f(i)
  {
    var n := |flags| - 1;
    if i == n {
      assert flags[i := true][..n] == flags[..n];
    } else {
      FlagSumUpdate(flags[..n], f, i);
      assert flags[i := true][..n] == flags[..n][i := true];
    }
  }

  lemma {:induction false} FlagSumSame(flags: seq<bool>, f: nat -> int, h: nat -> int)
    requires forall i :: 0 <= i < |flags| && flags[i] ==> f(i) == h(i)
    ensures FlagSum(flags, f) == FlagSum(flags, h)
  {
    if flags != [] { FlagSumSame(flags[..|flags| - 1], f, h); }
  }

  lemma {:induction false} FlagSumNone(flags: seq<bool>, f: nat -> int)
    requires forall i :: 0 <= i < |flags| ==> !flags[i] || f(i) == 0
    ensures FlagSum(flags, f) == 0
  {
    if flags != [] { FlagSumNone(flags[..|flags| - 1], f); }
  }

  lemma {:induction false} FlagSumSplit(flags: seq<bool>, f: nat -> int)
    ensures FlagSum(flags, f) + FlagSum(Negated(flags), f) == FlagSum(Repeated(true, |flags|), f)
  {
    if flags != [] {
      var n := |flags| - 1;
      FlagSumSplit(flags[..n], f);
      assert Negated(flags)[..n] == Negated(flags[..n]);
      assert Repeated(true, |flags|)[..n] == Repeated(true, n);
    }
  }

  // ---- the election being decrypted --------------------------------------------------------

  /** The trustees' polynomials and, for every selection, what the tally encrypts. */
  datatype Election = Election(
    G: Group, n: nat, k: nat, polys: seq<seq<nat>>,
    tallies: seq<Encryption>, nonces: seq<int>, votes: seq<int>)
  {
    ghost predicate Valid() {
      && G.Valid() && 1 <= k <= n < G.q
      && |polys| == n && (forall i :: 0 <= i < n ==> |polys[i]| == k)
      && |tallies| == |nonces| == |votes|
      && forall j :: 0 <= j < |tallies| ==> Encrypts(G, Secret(), tallies[j], nonces[j], votes[j])
    }

    function SecretOf(i: nat): int {
      if i < |polys| && 0 < |polys[i]| then polys[i][0] else 0
    }

    /** The secret of the joint key. */
    function Secret(): int {
      FlagSum(Repeated(true, n), (i: nat) => SecretOf(i))
    }

    /** The value of trustee m's polynomial that trustee l holds. */
    function ShareValue(m: nat, l: nat): int {
      if m < |polys| then Poly(polys[m], l + 1) else 0
    }

    /** The sum of the missing trustees' values that trustee l holds. */
    function MissingValue(anounced: seq<bool>, l: nat): int {
      FlagSum(Negated(anounced), (m: nat) => ShareValue(m, l))
    }

    /** What trustee l's fragments add to the exponent. */
    function Contribution(anounced: seq<bool>, l: nat): int
      requires G.Positive()
    {
      if l <= |anounced| && |Listed(anounced[..l])| < k
      then Weight(G, Listed(anounced), l) * MissingValue(anounced, l)
      else 0
    }

    /** The secret that announced shares and received fragments amount to. */
    function Combined(anounced: seq<bool>, responded: seq<bool>): int
      requires G.Positive()
    {
      FlagSum(anounced, (i: nat) => SecretOf(i)) + FlagSum(responded, (l: nat) => Contribution(anounced, l))
    }
  }

  /** A share as the trustee with this polynomial computes it. */
  ghost predicate HonestShare(E: Election, s: Share)
    requires E.Valid()
  {
    s.trusteeIndex < E.n && 0 <= E.SecretOf(s.trusteeIndex)
    && s == ShareOf(E.G, s.trusteeIndex, E.polys[s.trusteeIndex][0], E.tallies)
  }

  /** The state a key ceremony leaves a trustee with. */
  ghost predicate HonestState(E: Election, s: TrusteeState)
    requires E.Valid()
  {
    && s.index < E.n
    && s.coefficients == E.polys[s.index]
    && |s.myKeyShares| == E.n && 0 < s.rsaKey.n
    && forall m :: 0 <= m < E.n ==> Cong(Rsa.Decrypt(s.myKeyShares[m], s.rsaKey), E.ShareValue(m, s.index), E.G.q)
  }

  /** Fragments as a trustee in such a state computes them for the request made to it. */
  ghost predicate HonestFragments(E: Election, c: CState, f: Fragments)
    requires E.Valid() && c.Valid()
  {
    exists s: TrusteeState :: HonestAnswer(E, c, s, f)
  }

  ghost predicate HonestAnswer(E: Election, c: CState, s: TrusteeState, f: Fragments)
    requires E.Valid() && c.Valid()
  {
    && HonestState(E, s) && s.index < c.numTrustees && c.numTrustees == E.n
    && f == FragmentsOf(E.G, s, E.tallies, RequestFor(c, s.index).requested)
  }

  // ---- the invariant of the announcing phase ---------------------------------------------------

  ghost predicate SharePhase(E: Election, c: CState)
    requires E.Valid()
  {
    && c.Valid() && c.numTrustees == E.n && c.threshold == E.k
    && (c.talliesInitialized <==> exists i :: 0 <= i < E.n && c.anounced[i])
    && (c.talliesInitialized ==> Accumulated(E, c, FlagSum(c.anounced, (i: nat) => E.SecretOf(i))))
  }

  /** Every nonce encoding has been raised to d, and the messages are the tally's. */
  ghost predicate Accumulated(E: Election, c: CState, d: int)
    requires E.Valid()
  {
    && |c.tallies| == |E.tallies|
    && forall j :: 0 <= j < |c.tallies| ==>
        && c.tallies[j].messageEncoding == E.tallies[j].messageEncoding
        && c.tallies[j].nonceEncoding == E.G.Exp(E.G.g, E.nonces[j] * d)
  }

  lemma SharePhaseInitially(E: Election)
    requires E.Valid()
    ensures SharePhase(E, Initial(E.n, E.k))
  {}

  lemma HonestShareNonce(E: Election, s: Share, j: nat)
    requires E.Valid() && HonestShare(E, s) && j < |E.tallies|
    ensures |s.tallyShare| == |E.tallies|
    ensures s.tallyShare[j].nonceEncoding == E.G.Exp(E.G.g, E.nonces[j] * E.SecretOf(s.trusteeIndex))
    ensures s.tallyShare[j].messageEncoding == E.tallies[j].messageEncoding
  {
    var a, x := E.tallies[j].nonceEncoding, E.polys[s.trusteeIndex][0];
    assert Encrypts(E.G, E.Secret(), E.tallies[j], E.nonces[j], E.votes[j]);
    ExpOrderQ(E.G, E.G.g, E.nonces[j]);
    PowModPIsExp(E.G, a, x);
    ExpMul(E.G, E.G.g, E.nonces[j], x);
  }

  /** Every honest share is accepted once; after that it changes nothing. */
  lemma SharePhaseStep(E: Election, c: CState, s: Share)
    requires E.Valid() && SharePhase(E, c) && HonestShare(E, s)
    ensures
      var (status, c') := AfterShare(E.G, c, s);
      && SharePhase(E, c')
      && c'.anounced == c.anounced[s.trusteeIndex := true]
      && (c.anounced[s.trusteeIndex] ==> status == DuplicateTrusteeIndex && c' == c)
      && (!c.anounced[s.trusteeIndex] ==> status == DecryptionCoordinator.Success)
  {
    var i := s.trusteeIndex;
    var (status, c') := AfterShare(E.G, c, s);
    if c.anounced[i] {
      assert c.anounced[i := true] == c.anounced;
    } else {
      FlagSumUpdate(c.anounced, (i: nat) => E.SecretOf(i), i);
      var d := FlagSum(c.anounced, (i: nat) => E.SecretOf(i));
      assert c'.anounced[i];
      if !c.talliesInitialized {
        FlagSumNone(c.anounced, (i: nat) => E.SecretOf(i));
      }
      forall j | 0 <= j < |E.tallies|
        ensures c'.tallies[j].nonceEncoding == E.G.Exp(E.G.g, E.nonces[j] * (d + E.SecretOf(i)))
        ensures c'.tallies[j].messageEncoding == E.tallies[j].messageEncoding
        ensures c.talliesInitialized ==> c.tallies[j].messageEncoding == s.tallyShare[j].messageEncoding
      {
        HonestShareNonce(E, s, j);
        if c.talliesInitialized {
          forall m | 0 <= m < j ensures c.tallies[m].messageEncoding == s.tallyShare[m].messageEncoding {
            HonestShareNonce(E, s, m);
          }
          ExpAdd(E.G, E.G.g, E.nonces[j] * d, E.nonces[j] * E.SecretOf(i));
          MulDistrib(E.nonces[j], d, E.SecretOf(i));
        }
      }
    }
  }

  // ---- the invariant of the compensating phase ---------------------------------------------------

  /** One if the trustee is early enough among the announced to be asked. */
  function Asked(E: Election, anounced: seq<bool>, l: nat): int {
    if l <= |anounced| && |Listed(anounced[..l])| < E.k then 1 else 0
  }

  ghost predicate FragmentPhase(E: Election, c: CState)
    requires E.Valid()
  {
    && c.Valid() && c.numTrustees == E.n && c.threshold == E.k
    && E.k <= CountAnounced(c)
    && (forall l :: 0 <= l < E.n && c.responded[l] ==> c.anounced[l])
    && Accumulated(E, c, E.Combined(c.anounced, c.responded))
    && Compensated(E, c, FlagSum(c.responded, (l: nat) => Asked(E, c.anounced, l)))
  }

  /** Every missing trustee has been counted this often. */
  ghost predicate Compensated(E: Election, c: CState, count: int)
    requires c.Valid() && c.numTrustees == E.n
  {
    forall m :: 0 <= m < E.n && !c.anounced[m] ==> c.numFragments[m] == count
  }

  /** With at least the threshold announced, the second phase starts from its invariant. */
  lemma FragmentPhaseInitially(E: Election, c: CState)
    requires E.Valid() && SharePhase(E, c)
    ensures AfterAllShares(c).0 == (if E.k <= CountAnounced(c) then DecryptionCoordinator.Success else MissingTrustees)
    ensures E.k <= CountAnounced(c) ==> FragmentPhase(E, AfterAllShares(c).1)
  {
    var c' := AfterAllShares(c).1;
    if E.k <= CountAnounced(c) {
      ListedMembers(c.anounced);
      assert Listed(c.anounced)[0] in Listed(c.anounced);
      assert c.anounced[Listed(c.anounced)[0]];
      FlagSumNone(c'.responded, (l: nat) => E.Contribution(c.anounced, l));
      FlagSumNone(c'.responded, (l: nat) => Asked(E, c.anounced, l));
      hide FlagSum, E.Contribution, E.SecretOf, Asked;
      assert c'.tallies == c.tallies;
      assert E.Combined(c'.anounced, c'.responded) == FlagSum(c.anounced, (i: nat) => E.SecretOf(i));
    }
  }

  lemma NegatedTwice(flags: seq<bool>)
    ensures Negated(Negated(flags)) == flags
  {}

  /** The values held for the missing trustees among the first i. */
  function MissingValueTo(E: Election, anounced: seq<bool>, l: nat, i: nat): int
    requires i <= |anounced|
  {
    FlagSum(Negated(anounced)[..i], (m: nat) => E.ShareValue(m, l))
  }

  lemma MissingValueStep(E: Election, anounced: seq<bool>, l: nat, i: nat)
    requires i < |anounced|
    ensures MissingValueTo(E, anounced, l, i + 1)
         == MissingValueTo(E, anounced, l, i) + (if anounced[i] then 0 else E.ShareValue(i, l))
  {
    var free := Negated(anounced);
    assert free[..i + 1][..i] == free[..i];
  }

  /** What a responder's fragments multiply in, over the first i trustees. */
  lemma {:induction false} FragmentsMultiplyIn(E: Election, anounced: seq<bool>, s: TrusteeState, f: Fragments, j: nat, a: int, i: nat)
    requires E.Valid() && HonestState(E, s) && |anounced| == E.n
    requires f == FragmentsOf(E.G, s, E.tallies, Negated(anounced))
    requires j < |E.tallies| && i <= E.n
    ensures MultiplyFragments(E.G, E.G.Exp(E.G.g, a), f, j, i)
         == E.G.Exp(E.G.g, a + E.nonces[j] * (f.lagrangeCoefficient * MissingValueTo(E, anounced, s.index, i)))
  {
    hide *;
    if i == 0 {
      NothingMultiplied(E, anounced, s, f, j, a);
    } else {
      FragmentAt(E, anounced, s, f, i - 1);
      MultiplyStep(E.G, E.G.Exp(E.G.g, a), f, j, i);
      FragmentsMultiplyIn(E, anounced, s, f, j, a, i - 1);
      MissingValueStep(E, anounced, s.index, i - 1);
      if !anounced[i - 1] {
        OneFragment(E, s, f, j, i - 1, a, MissingValueTo(E, anounced, s.index, i - 1));
      }
    }
  }

  lemma NothingMultiplied(E: Election, anounced: seq<bool>, s: TrusteeState, f: Fragments, j: nat, a: int)
    requires E.Valid() && HonestState(E, s) && |anounced| == E.n
    requires f == FragmentsOf(E.G, s, E.tallies, Negated(anounced)) && j < |E.tallies|
    ensures MultiplyFragments(E.G, E.G.Exp(E.G.g, a), f, j, 0)
         == E.G.Exp(E.G.g, a + E.nonces[j] * (f.lagrangeCoefficient * MissingValueTo(E, anounced, s.index, 0)))
  {
    assert MissingValueTo(E, anounced, s.index, 0) == 0;
  }

  lemma FragmentAt(E: Election, anounced: seq<bool>, s: TrusteeState, f: Fragments, m: nat)
    requires E.Valid() && HonestState(E, s) && |anounced| == E.n && m < E.n
    requires f == FragmentsOf(E.G, s, E.tallies, Negated(anounced))
    ensures E.G.Positive() && |f.requested| == |f.partials| == E.n && f.requested[m] == !anounced[m]
    ensures !anounced[m] ==> f.partials[m] == PartialsOf(E.G, Rsa.Decrypt(s.myKeyShares[m], s.rsaKey), E.tallies)
  {
    hide E.G.Exp, Weight, PartialsOf, Rsa.Decrypt;
  }

  lemma MultiplyStep(G: Group, nonce: int, f: Fragments, j: nat, i: nat)
    requires G.Positive() && 0 < i <= |f.requested| == |f.partials|
    ensures
      var before := MultiplyFragments(G, nonce, f, j, i - 1);
      MultiplyFragments(G, nonce, f, j, i)
        == if f.requested[i - 1] then G.MulModP(before, G.PowModP(PartialAt(f.partials[i - 1], j), f.lagrangeCoefficient))
           else before
  {}

  lemma OneFragment(E: Election, s: TrusteeState, f: Fragments, j: nat, m: nat, a: int, sum: int)
    requires E.Valid() && HonestState(E, s) && j < |E.tallies| && m < E.n
    requires |f.requested| == |f.partials| == E.n
    requires f.partials[m] == PartialsOf(E.G, Rsa.Decrypt(s.myKeyShares[m], s.rsaKey), E.tallies)
    ensures
      var w, r := f.lagrangeCoefficient, E.nonces[j];
      E.G.MulModP(E.G.Exp(E.G.g, a + r * (w * sum)), E.G.PowModP(PartialAt(f.partials[m], j), w))
        == E.G.Exp(E.G.g, a + r * (w * (sum + E.ShareValue(m, s.index))))
  {
    var G, g, w, r := E.G, E.G.g, f.lagrangeCoefficient, E.nonces[j];
    var origin, value := Rsa.Decrypt(s.myKeyShares[m], s.rsaKey), E.ShareValue(m, s.index);
    assert Encrypts(G, E.Secret(), E.tallies[j], r, E.votes[j]);
    assert Cong(origin, value, G.q);
    var x := E.tallies[j].nonceEncoding;
    ExpOrderQ(G, g, r);
    ExpOrderQ(G, g, r * origin);
    hide G.Exp, G.MulModP, Pow, Cong, IsPrime, Divides, E.Valid;
    PowModPIsExp(G, x, origin);
    ExpMul(G, g, r, origin);
    PowModPIsExp(G, G.Exp(g, r * origin), w);
    ExpMul(G, g, r * origin, w);
    ExpAdd(G, g, a + r * (w * sum), (r * origin) * w);
    FragmentExponent(G.q, a, r, w, sum, origin, value);
    ExpCong(G, g, a + r * (w * sum) + (r * origin) * w, a + r * (w * (sum + value)));
  }

  lemma FragmentExponent(q: int, a: int, r: int, w: int, sum: int, origin: int, value: int)
    requires 0 < q && Cong(origin, value, q)
    ensures Cong(a + r * (w * sum) + (r * origin) * w, a + r * (w * (sum + value)), q)
  {
    CongScale(r * w, origin, value, q);
    MulAssoc(r, origin, w);
    MulComm(origin, w);
    MulAssoc(r, w, origin);
    CongAdd(a + r * (w * sum), a + r * (w * sum), (r * w) * origin, (r * w) * value, q);
    MulDistrib(w, sum, value);
    MulDistrib(r, w * sum, w * value);
    MulAssoc(r, w, value);
  }

  lemma {:induction false} NothingRequested(G: Group, nonce: int, f: Fragments, j: nat, i: nat)
    requires G.Positive() && i <= |f.requested| == |f.partials|
    requires forall m :: 0 <= m < |f.requested| ==> !f.requested[m]
    ensures MultiplyFragments(G, nonce, f, j, i) == nonce
  {
    if i > 0 { NothingRequested(G, nonce, f, j, i - 1); }
  }

  /** The nonce encoding after an accepted answer. */
  lemma AnswerNonce(E: Election, c: CState, s: TrusteeState, f: Fragments, j: nat, d: int)
    requires E.Valid() && FragmentPhase(E, c) && HonestAnswer(E, c, s, f) && j < |E.tallies|
    ensures MultiplyFragments(E.G, E.G.Exp(E.G.g, E.nonces[j] * d), f, j, E.n)
         == E.G.Exp(E.G.g, E.nonces[j] * (d + E.Contribution(c.anounced, s.index)))
  {
    hide E.G.Exp, E.G.PowModP, E.G.MulModP, Weight, FlagSum, Accumulated, Compensated, E.Combined, MultiplyFragments;
    if |Listed(c.anounced[..s.index])| < E.k {
      EarlyAnswerNonce(E, c.anounced, s, f, j, d);
    } else {
      NothingRequested(E.G, E.G.Exp(E.G.g, E.nonces[j] * d), f, j, E.n);
    }
  }

  lemma EarlyAnswerNonce(E: Election, anounced: seq<bool>, s: TrusteeState, f: Fragments, j: nat, d: int)
    requires E.Valid() && HonestState(E, s) && |anounced| == E.n && j < |E.tallies|
    requires |Listed(anounced[..s.index])| < E.k
    requires f == FragmentsOf(E.G, s, E.tallies, Negated(anounced))
    ensures MultiplyFragments(E.G, E.G.Exp(E.G.g, E.nonces[j] * d), f, j, E.n)
         == E.G.Exp(E.G.g, E.nonces[j] * (d + E.Contribution(anounced, s.index)))
  {
    NegatedTwice(anounced);
    assert f.lagrangeCoefficient == Weight(E.G, Listed(anounced), s.index);
    assert Negated(anounced)[..E.n] == Negated(anounced);
    assert MissingValueTo(E, anounced, s.index, E.n) == E.MissingValue(anounced, s.index);
    assert E.Contribution(anounced, s.index)
        == Weight(E.G, Listed(anounced), s.index) * E.MissingValue(anounced, s.index);
    hide *;
    var r := E.nonces[j];
    FragmentsMultiplyIn(E, anounced, s, f, j, r * d, E.n);
    MulDistrib(r, d, E.Contribution(anounced, s.index));
  }

  /** An honest answer is accepted once; after that, like one from a missing trustee, it changes nothing. */
  lemma FragmentPhaseStep(E: Election, c: CState, s: TrusteeState, f: Fragments)
    requires E.Valid() && FragmentPhase(E, c) && HonestAnswer(E, c, s, f)
    ensures
      var (status, c') := AfterFragments(E.G, c, f);
      && FragmentPhase(E, c')
      && c'.anounced == c.anounced
      && (c.anounced[s.index] ==> c'.responded == c.responded[s.index := true])
      && (status != DecryptionCoordinator.Success ==> c' == c)
      && status == (if !c.anounced[s.index] then InvalidTrusteeIndex
                    else if c.responded[s.index] then DuplicateTrusteeIndex
                    else DecryptionCoordinator.Success)
  {
    if c.anounced[s.index] {
      if c.responded[s.index] {
        assert c.responded[s.index := true] == c.responded;
      } else {
        AcceptedAnswer(E, c, s, f);
      }
    }
  }

  lemma AcceptedAnswer(E: Election, c: CState, s: TrusteeState, f: Fragments)
    requires E.Valid() && FragmentPhase(E, c) && HonestAnswer(E, c, s, f)
    requires c.anounced[s.index] && !c.responded[s.index]
    ensures FragmentPhase(E, AfterFragments(E.G, c, f).1)
  {
    AcceptedFields(E, c, s, f);
    hide FlagSum, E.Contribution, Asked, E.SecretOf, Accumulated, Compensated, MultiplyFragments, HonestAnswer;
    hide E.Valid, AfterFragments;
    var l, c' := s.index, AfterFragments(E.G, c, f).1;
    FlagSumUpdate(c.responded, (i: nat) => E.Contribution(c.anounced, i), l);
    FlagSumUpdate(c.responded, (i: nat) => Asked(E, c.anounced, i), l);
    AnswerAccumulates(E, c, s, f, E.Combined(c.anounced, c.responded));
    AnswerCounts(E, c, s, f, FlagSum(c.responded, (i: nat) => Asked(E, c.anounced, i)));
    assert E.Combined(c'.anounced, c'.responded)
        == E.Combined(c.anounced, c.responded) + E.Contribution(c.anounced, l);
  }

  /** What an accepted answer leaves alone, and the flag it sets. */
  lemma AcceptedFields(E: Election, c: CState, s: TrusteeState, f: Fragments)
    requires E.Valid() && FragmentPhase(E, c) && HonestAnswer(E, c, s, f)
    requires c.anounced[s.index] && !c.responded[s.index]
    ensures
      && E.G.Positive() && c.Valid() && |f.requested| == |f.partials| == c.numTrustees
      && s.index < c.numTrustees && f.trusteeIndex == s.index
    ensures
      var c' := AfterFragments(E.G, c, f).1;
      && c'.Valid() && c'.numTrustees == c.numTrustees && c'.threshold == c.threshold && c'.anounced == c.anounced
      && c'.responded == c.responded[s.index := true]
  {
    hide FlagSum, E.Contribution, Asked, E.SecretOf, Accumulated, Compensated, MultiplyFragments, HonestState, Weight;
  }

  lemma AnswerAccumulates(E: Election, c: CState, s: TrusteeState, f: Fragments, d: int)
    requires E.Valid() && FragmentPhase(E, c) && HonestAnswer(E, c, s, f) && Accumulated(E, c, d)
    requires c.anounced[s.index] && !c.responded[s.index]
    ensures Accumulated(E, AfterFragments(E.G, c, f).1, d + E.Contribution(c.anounced, s.index))
  {
    hide FlagSum, E.Contribution, Asked, E.SecretOf, E.G.Exp, Weight, MultiplyFragments, Compensated;
    forall j | 0 <= j < |c.tallies|
      ensures AfterFragments(E.G, c, f).1.tallies[j].nonceEncoding
           == E.G.Exp(E.G.g, E.nonces[j] * (d + E.Contribution(c.anounced, s.index)))
    {
      AnswerNonce(E, c, s, f, j, d);
    }
  }

  lemma AnswerCounts(E: Election, c: CState, s: TrusteeState, f: Fragments, count: int)
    requires E.Valid() && FragmentPhase(E, c) && HonestAnswer(E, c, s, f) && Compensated(E, c, count)
    requires c.anounced[s.index] && !c.responded[s.index]
    ensures Compensated(E, AfterFragments(E.G, c, f).1, count + Asked(E, c.anounced, s.index))
  {
    hide FlagSum, E.Contribution, E.SecretOf, E.G.Exp, Weight, MultiplyFragments, Accumulated, HonestState;
  }
}

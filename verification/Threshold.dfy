/**
 When the weighted fragments rebuild what the missing trustees hold: exactly when
 the announced trustees are as many as the threshold, or none is missing.
 */
module Threshold {
  import opened Arithmetic
  import opened Primes
  import opened Group
  import opened Interpolation
  import opened Crypto
  import opened DecryptionMessages
  import opened DecryptionCoordinator
  import opened TallyTheorem

  // ---- the asked trustees are the first of the listed ones ---------------------------------

  function Min(a: nat, b: nat): nat {
    if a < b then a else b
  }

  lemma {:induction false} AskedCount(E: Election, anounced: seq<bool>, i: nat)
    requires i <= |anounced|
    ensures FlagSum(anounced[..i], (l: nat) => Asked(E, anounced, l)) == Min(|Listed(anounced[..i])|, E.k)
  {
    if i > 0 {
      AskedCount(E, anounced, i - 1);
      assert anounced[..i][..i - 1] == anounced[..i - 1];
    }
  }

  /**
   Once every announced trustee has answered, every missing one has been
   compensated exactly threshold times, and the coordinator's final check passes.
   */
  lemma AllAnswered(E: Election, c: CState)
    requires E.Valid() && FragmentPhase(E, c) && c.responded == c.anounced
    ensures SeenOrCompensated(c)
  {
    AskedCount(E, c.anounced, E.n);
    assert c.anounced[..E.n] == c.anounced;
  }

  lemma {:induction false} CombineAppend(G: Group, arr: seq<nat>, pts: seq<nat>, s: nat, value: nat -> int)
    requires G.Positive()
    ensures Combine(G, arr, pts + [s], value) == Combine(G, arr, pts, value) + Weight(G, arr, s) * value(s)
  {
    hide Weight;
    if pts == [] {
      assert ([] + [s])[1..] == [];
    } else {
      assert (pts + [s])[1..] == pts[1..] + [s];
      CombineAppend(G, arr, pts[1..], s, value);
    }
  }

  /** The fragments' part of the exponent, as a sum over the first listed trustees. */
  lemma {:induction false} ContributionsCombine(E: Election, anounced: seq<bool>, i: nat)
    requires E.G.Positive() && i <= |anounced|
    ensures FlagSum(anounced[..i], (l: nat) => E.Contribution(anounced, l))
         == Combine(E.G, Listed(anounced), Listed(anounced[..i])[..Min(|Listed(anounced[..i])|, E.k)],
                    (l: nat) => E.MissingValue(anounced, l))
  {
    hide Weight, E.MissingValue;
    if i > 0 {
      var l := i - 1;
      ContributionsCombine(E, anounced, l);
      assert anounced[..i][..l] == anounced[..l];
      var before, after := Listed(anounced[..l]), Listed(anounced[..i]);
      var value := (m: nat) => E.MissingValue(anounced, m);
      if anounced[l] {
        assert after == before + [l];
        if |before| < E.k {
          assert after[..Min(|after|, E.k)] == before[..Min(|before|, E.k)] + [l];
          CombineAppend(E.G, Listed(anounced), before[..Min(|before|, E.k)], l, value);
        } else {
          assert after[..Min(|after|, E.k)] == before[..Min(|before|, E.k)];
        }
      } else {
        assert after == before;
      }
    }
  }

  // ---- the sum of the missing polynomials is a polynomial -----------------------------------

  function AddCoefficients(a: seq<int>, b: seq<int>): seq<int>
    requires |a| == |b|
  {
    seq(|a|, i requires 0 <= i < |a| => a[i] + b[i])
  }

  lemma DistributeRight(a: int, b: int, y: int)
    ensures (a + b) * y == a * y + b * y
  {}

  lemma {:induction false} PolyOfSum(a: seq<int>, b: seq<int>, x: int, k: nat)
    requires k <= |a| == |b|
    ensures PolyTerms(AddCoefficients(a, b), x, k) == PolyTerms(a, x, k) + PolyTerms(b, x, k)
  {
    if k > 0 {
      assert AddCoefficients(a, b)[k - 1] == a[k - 1] + b[k - 1];
      hide Pow, AddCoefficients;
      PolyOfSum(a, b, x, k - 1);
      DistributeRight(a[k - 1], b[k - 1], Pow(x, k - 1));
    }
  }

  lemma {:induction false} PolyOfZeros(x: int, k: nat, n: nat)
    requires k <= n
    ensures PolyTerms(Repeated(0, n), x, k) == 0
  {
    if k > 0 {
      PolyOfZeros(x, k - 1, n);
      hide Pow;
      var y := Pow(x, k - 1);
      assert 0 * y == 0;
    }
  }

  /** The coefficientwise sum of the flagged polynomials. */
  function FlaggedPoly(E: Election, flags: seq<bool>): (r: seq<int>)
    requires E.Valid() && |flags| <= E.n
    ensures |r| == E.k
  {
    if flags == [] then Repeated(0, E.k)
    else
      var front := FlaggedPoly(E, flags[..|flags| - 1]);
      if flags[|flags| - 1] then AddCoefficients(front, E.polys[|flags| - 1]) else front
  }

  lemma {:induction false} FlaggedPolyValue(E: Election, flags: seq<bool>, l: nat)
    requires E.Valid() && |flags| <= E.n
    ensures Poly(FlaggedPoly(E, flags), l + 1) == FlagSum(flags, (m: nat) => E.ShareValue(m, l))
    ensures FlaggedPoly(E, flags)[0] == FlagSum(flags, (m: nat) => E.SecretOf(m))
  {
    if flags == [] {
      PolyOfZeros(l + 1, E.k, E.k);
    } else {
      var m := |flags| - 1;
      FlaggedPolyValue(E, flags[..m], l);
      if flags[m] {
        PolyOfSum(FlaggedPoly(E, flags[..m]), E.polys[m], l + 1, E.k);
      }
    }
  }

  lemma ListedPoints(E: Election, flags: seq<bool>)
    requires E.Valid() && |flags| == E.n
    ensures Points(E.G, Listed(flags))
  {
    ListedMembers(flags);
    ListedSorted(flags);
    var arr := Listed(flags);
    assert forall i :: 0 <= i < |arr| ==> arr[i] in arr;
  }

  /**
   With exactly the threshold announced, or with nobody missing, what the shares
   and the fragments amount to is the secret of the joint key.
   */
  lemma CombinedIsSecret(E: Election, anounced: seq<bool>)
    requires E.Valid() && |anounced| == E.n
    requires |Listed(anounced)| == E.k || |Listed(anounced)| == E.n
    ensures Cong(E.Combined(anounced, anounced), E.Secret(), E.G.q)
  {
    if |Listed(anounced)| == E.n {
      ListedBounds(anounced);
      NobodyMissing(E, anounced);
    } else {
      FlagSumSplit(anounced, (i: nat) => E.SecretOf(i));
      MissingRebuilt(E, anounced);
      hide *;
      var parts := FlagSum(anounced, (i: nat) => E.SecretOf(i));
      CongAdd(parts, parts, FlagSum(anounced, (l: nat) => E.Contribution(anounced, l)),
              FlagSum(Negated(anounced), (i: nat) => E.SecretOf(i)), E.G.q);
    }
  }

  /** The fragments of exactly threshold trustees rebuild the missing secrets. */
  lemma MissingRebuilt(E: Election, anounced: seq<bool>)
    requires E.Valid() && |anounced| == E.n && |Listed(anounced)| == E.k
    ensures Cong(FlagSum(anounced, (l: nat) => E.Contribution(anounced, l)),
                 FlagSum(Negated(anounced), (i: nat) => E.SecretOf(i)), E.G.q)
  {
    ContributionsCombine(E, anounced, E.n);
    assert anounced[..E.n] == anounced && Listed(anounced)[..E.k] == Listed(anounced);
    WeightedMissingValues(E, anounced);
  }

  lemma WeightedMissingValues(E: Election, anounced: seq<bool>)
    requires E.Valid() && |anounced| == E.n && E.k <= |Listed(anounced)|
    ensures Cong(Combine(E.G, Listed(anounced), Listed(anounced), (l: nat) => E.MissingValue(anounced, l)),
                 FlagSum(Negated(anounced), (i: nat) => E.SecretOf(i)), E.G.q)
  {
    var S, Q := Listed(anounced), FlaggedPoly(E, Negated(anounced));
    ListedPoints(E, anounced);
    MissingIsPoly(E, anounced, 0);
    var value := (l: nat) => E.MissingValue(anounced, l);
    forall l: nat | l in S ensures Cong(value(l), Poly(Q, l + 1), E.G.q) {
      MissingIsPoly(E, anounced, l);
    }
    assert |Q| == E.k;
    hide *;
    Reconstruction(E.G, S, Q, value);
  }

  lemma MissingIsPoly(E: Election, anounced: seq<bool>, l: nat)
    requires E.Valid() && |anounced| == E.n
    ensures E.MissingValue(anounced, l) == Poly(FlaggedPoly(E, Negated(anounced)), l + 1)
    ensures FlaggedPoly(E, Negated(anounced))[0] == FlagSum(Negated(anounced), (i: nat) => E.SecretOf(i))
  {
    FlaggedPolyValue(E, Negated(anounced), l);
  }

  lemma NobodyMissing(E: Election, anounced: seq<bool>)
    requires E.Valid() && |anounced| == E.n && AllSet(anounced)
    ensures E.Combined(anounced, anounced) == E.Secret()
  {
    assert anounced == Repeated(true, E.n);
    forall l | 0 <= l < E.n ensures E.Contribution(anounced, l) == 0 {
      FlagSumNone(Negated(anounced), (m: nat) => E.ShareValue(m, l));
      hide Weight;
      var w := Weight(E.G, Listed(anounced), l);
      assert w * 0 == 0;
    }
    FlagSumNone(anounced, (l: nat) => E.Contribution(anounced, l));
  }
}

/**
 The messages with the most structure: a trustee's key with its proof
 (serialize/keyceremony.c), the variable-shape decryption fragments
 (serialize/decryption.c) and the state kept between the ceremony and decryption
 (serialize/trustee_state.c).
 */
module SerializeMessages {
  import opened Bignum
  import opened Wire
  import opened Serialize
  import opened Proofs
  import opened DecryptionMessages
  import opened KeyCeremonyCoordinator
  import opened KeyCeremonyTrustee
  import Rsa

  // ---- the fields of each message -----------------------------------------------------------

  function Bigs(xs: seq<int>, words: nat): (r: seq<Field>)
    ensures |r| == |xs| && forall i :: 0 <= i < |xs| ==> r[i] == Big(xs[i], words)
  {
    seq(|xs|, i requires 0 <= i < |xs| => Big(xs[i], words))
  }

  function SchnorrFields(p: SchnorrProof): seq<Field> {
    [U32(|p.commitments|)] + Bigs(p.commitments, WORDS_4096) + [Big(p.challenge, WORDS_256)]
      + Bigs(p.responses, WORDS_256)
  }

  function PublicKeyFields(k: PublicKey): seq<Field> {
    [U32(|k.coefCommitments|)] + Bigs(k.coefCommitments, WORDS_4096) + SchnorrFields(k.proof)
  }

  /** A trustee's two keys. */
  function KeysFields(k: PublicKey, r: Rsa.PublicKey): seq<Field> {
    PublicKeyFields(k) + [Big(r.n, WORDS_4096), Big(r.e, 1)]
  }

  function KeyGeneratedFields(m: KeyGenerated): seq<Field> {
    [U32(m.trusteeIndex)] + KeysFields(m.publicKey, m.rsaKey)
  }

  function RsaPrivateFields(k: Rsa.PrivateKey): seq<Field> {
    [Big(k.e, 1), Big(k.q, WORDS_PRIME), Big(k.d, WORDS_4096), Big(k.p, WORDS_PRIME), Big(k.n, WORDS_4096)]
  }

  function TrusteeStateFields(s: TrusteeState): seq<Field> {
    [U32(s.index), U32(|s.coefficients|)] + Bigs(s.coefficients, WORDS_4096) + RsaPrivateFields(s.rsaKey)
      + Bigs(s.myKeyShares, WORDS_SHARE)
  }

  /** The row of trustee i: a flag, and the numbers only if it is set. */
  function RowFields(f: Fragments, i: nat): seq<Field>
    requires i < |f.requested| == |f.partials|
  {
    [Flag(f.requested[i])] + (if f.requested[i] then Bigs(f.partials[i], WORDS_4096) else [])
  }

  /** The rows from trustee i on. */
  function RowsFrom(f: Fragments, i: nat): seq<Field>
    requires i <= |f.requested| == |f.partials|
    decreases |f.requested| - i
  {
    if i == |f.requested| then [] else RowFields(f, i) + RowsFrom(f, i + 1)
  }

  function FragmentsFields(f: Fragments, selections: nat): seq<Field>
    requires |f.requested| == |f.partials|
  {
    [U32(f.trusteeIndex), U32(|f.requested|), U32(selections)] + RowsFrom(f, 0)
      + [BigPadded(f.lagrangeCoefficient, WORDS_256)]
  }

  /** Requested rows are as long as the number of selections, the others are empty. */
  predicate Shaped(f: Fragments, selections: nat) {
    && |f.requested| == |f.partials|
    && forall i :: 0 <= i < |f.partials| ==> |f.partials[i]| == if f.requested[i] then selections else 0
  }

  // ---- when they can be written ----------------------------------------------------------------

  lemma BigsFit(xs: seq<int>, words: nat)
    ensures AllFit(Bigs(xs, words)) <==> AllFill(xs, words)
  {
    hide Fills;
    assert forall i :: 0 <= i < |xs| ==> (Fits(Bigs(xs, words)[i]) <==> Fills(xs[i], words));
  }

  lemma PublicKeyCanBeWritten(k: PublicKey)
    requires |k.coefCommitments| < UINT32_LIMIT && |k.proof.commitments| < UINT32_LIMIT
    ensures AllFit(PublicKeyFields(k)) <==> PublicKeyFits(k)
  {
    var p := k.proof;
    BigsFit(k.coefCommitments, WORDS_4096);
    BigsFit(p.commitments, WORDS_4096);
    BigsFit(p.responses, WORDS_256);
    OneField(U32(|k.coefCommitments|));
    OneField(U32(|p.commitments|));
    ChallengeFit(p.challenge);
    FitConcat([U32(|p.commitments|)], Bigs(p.commitments, WORDS_4096));
    FitConcat([U32(|p.commitments|)] + Bigs(p.commitments, WORDS_4096), [Big(p.challenge, WORDS_256)]);
    FitConcat([U32(|p.commitments|)] + Bigs(p.commitments, WORDS_4096) + [Big(p.challenge, WORDS_256)],
              Bigs(p.responses, WORDS_256));
    FitConcat([U32(|k.coefCommitments|)], Bigs(k.coefCommitments, WORDS_4096));
    FitConcat([U32(|k.coefCommitments|)] + Bigs(k.coefCommitments, WORDS_4096), SchnorrFields(p));
    hide Fills, Bigs, AllFit;
    assert PublicKeyFits(k) <==>
      AllFill(k.coefCommitments, WORDS_4096) && AllFill(p.commitments, WORDS_4096)
      && Fills(p.challenge, WORDS_256) && AllFill(p.responses, WORDS_256);
  }

  lemma ChallengeFit(v: int)
    ensures AllFit([Big(v, WORDS_256)]) <==> Fills(v, WORDS_256)
  {
    hide Fills;
    assert [Big(v, WORDS_256)][0] == Big(v, WORDS_256);
  }

  lemma KeysCanBeWritten(k: PublicKey, r: Rsa.PublicKey)
    requires |k.coefCommitments| < UINT32_LIMIT && |k.proof.commitments| < UINT32_LIMIT
    ensures AllFit(KeysFields(k, r)) <==> PublicKeyFits(k) && RsaKeyFits(r)
  {
    PublicKeyCanBeWritten(k);
    var rsa := [Big(r.n, WORDS_4096), Big(r.e, 1)];
    FitConcat(PublicKeyFields(k), rsa);
    assert AllFit(rsa) <==> RsaKeyFits(r) by {
      hide Fills;
      assert rsa[0] == Big(r.n, WORDS_4096) && rsa[1] == Big(r.e, 1);
    }
  }

  /** The ceremony's condition on a key message is that all its fields can be written. */
  lemma KeyGeneratedCanBeWritten(m: KeyGenerated)
    requires m.trusteeIndex < UINT32_LIMIT
    requires |m.publicKey.coefCommitments| < UINT32_LIMIT && |m.publicKey.proof.commitments| < UINT32_LIMIT
    ensures AllFit(KeyGeneratedFields(m)) <==> KeyGeneratedFits(m)
  {
    KeysCanBeWritten(m.publicKey, m.rsaKey);
    OneField(U32(m.trusteeIndex));
    FitConcat([U32(m.trusteeIndex)], KeysFields(m.publicKey, m.rsaKey));
  }

  lemma RowFits(f: Fragments, i: nat)
    requires i < |f.requested| == |f.partials| && (f.requested[i] || f.partials[i] == [])
    ensures AllFit(RowFields(f, i)) <==> AllFill(f.partials[i], WORDS_4096)
  {
    BigsFit(f.partials[i], WORDS_4096);
    OneField(Flag(f.requested[i]));
    FitConcat([Flag(f.requested[i])], Bigs(f.partials[i], WORDS_4096));
    hide AllFit, Bigs, AllFill;
    if !f.requested[i] {
      EmptyFills(f.partials[i]);
      assert RowFields(f, i) == [Flag(f.requested[i])];
    }
  }

  lemma {:induction false} RowsFit(f: Fragments, i: nat)
    requires i <= |f.requested| == |f.partials|
    requires forall m :: 0 <= m < |f.partials| ==> f.requested[m] || f.partials[m] == []
    ensures AllFit(RowsFrom(f, i)) <==> forall m :: i <= m < |f.partials| ==> AllFill(f.partials[m], WORDS_4096)
    decreases |f.requested| - i
  {
    hide AllFill, RowFields;
    if i < |f.requested| {
      RowsFit(f, i + 1);
      RowFits(f, i);
      FitConcat(RowFields(f, i), RowsFrom(f, i + 1));
    }
  }

  lemma EmptyFills(xs: seq<int>)
    requires xs == []
    ensures AllFill(xs, WORDS_4096)
  {}

  /** The decryption run's condition on fragments is that all their fields can be written. */
  lemma FragmentsCanBeWritten(f: Fragments, selections: nat)
    requires Shaped(f, selections)
    requires f.trusteeIndex < UINT32_LIMIT && |f.requested| < UINT32_LIMIT && selections < UINT32_LIMIT
    ensures AllFit(FragmentsFields(f, selections)) <==> FragmentsFit(f)
  {
    var head := [U32(f.trusteeIndex), U32(|f.requested|), U32(selections)];
    var last := [BigPadded(f.lagrangeCoefficient, WORDS_256)];
    RowsFit(f, 0);
    FitConcat(head, RowsFrom(f, 0));
    FitConcat(head + RowsFrom(f, 0), last);
    assert AllFit(head);
    hide FillsPadded, Fills, RowsFrom;
    assert AllFit(last) <==> FillsPadded(f.lagrangeCoefficient, WORDS_256) by {
      assert last[0] == BigPadded(f.lagrangeCoefficient, WORDS_256);
    }
  }
}

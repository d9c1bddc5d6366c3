/**
 Where the parts of a message stand: the offsets and the digits of the two messages
 that are hashed or checked by others, a trustee's key and an encrypted ballot.
 */
module SerializeLayout {
  import opened Arithmetic
  import opened Bignum
  import opened Wire
  import opened Proofs
  import opened Crypto
  import opened DecryptionMessages
  import opened KeyCeremonyCoordinator
  import opened SerializeMessages
  import opened SerializeLists

  /** Four bytes from here on are this number, least significant first. */
  predicate Uint32At(b: seq<Byte>, pos: nat, n: nat) {
    pos + 4 <= |b| && DigitSum(b[pos..pos + 4]) == n
  }

  predicate Uint64At(b: seq<Byte>, pos: nat, n: nat) {
    pos + 8 <= |b| && DigitSum(b[pos..pos + 8]) == n
  }

  /** So many 64-bit words from here on are this number, the most significant word first. */
  predicate NumberAt(b: seq<Byte>, pos: nat, words: nat, v: int) {
    pos + 8 * words <= |b| && ValueOfBytes(b[pos..pos + 8 * words]) == v
  }

  // ---- parts of concatenations ------------------------------------------------------------------

  lemma NumberFurther(x: seq<Byte>, y: seq<Byte>, pos: nat, words: nat, v: int)
    requires NumberAt(y, pos, words, v)
    ensures NumberAt(x + y, |x| + pos, words, v)
  {
    assert (x + y)[|x| + pos..|x| + pos + 8 * words] == y[pos..pos + 8 * words];
  }

  lemma NumberBefore(x: seq<Byte>, y: seq<Byte>, pos: nat, words: nat, v: int)
    requires NumberAt(x, pos, words, v)
    ensures NumberAt(x + y, pos, words, v)
  {
    assert (x + y)[pos..pos + 8 * words] == x[pos..pos + 8 * words];
  }

  lemma NumberField(v: int, words: nat)
    requires Fits(Big(v, words))
    ensures NumberAt(Bytes(Big(v, words)), 0, words, v) && |Bytes(Big(v, words))| == 8 * words
  {
    PowPositive(WORD, words - 1);
    ValueOfNumber(v, words);
    var b := Bytes(Big(v, words));
    assert b[0..0 + 8 * words] == b;
  }

  lemma Uint32Field(n: nat)
    requires n < UINT32_LIMIT
    ensures Uint32At(Bytes(U32(n)), 0, n) && |Bytes(U32(n))| == 4
  {
    BytesAreDigits(n, 4);
    assert Power256(4) == UINT32_LIMIT;
    SmallMod(n, UINT32_LIMIT);
    var b := Bytes(U32(n));
    assert b[0..4] == b;
  }

  lemma Uint64Field(n: nat)
    requires n < WORD
    ensures Uint64At(Bytes(U64(n)), 0, n) && |Bytes(U64(n))| == 8
  {
    BytesAreDigits(n, 8);
    assert Power256(8) == WORD;
    SmallMod(n, WORD);
    var b := Bytes(U64(n));
    assert b[0..8] == b;
  }

  lemma FieldBytes(f: Field)
    requires AllFit([f])
    ensures Fits(f) && AllBytes([f]) == Bytes(f)
  {
    hide Fits, Bytes;
    assert Fits([f][0]) && [f][..0] == [];
  }

  /** A run of numbers, one after another. */
  lemma {:induction false} NumbersAt(xs: seq<int>, words: nat, i: nat)
    requires AllFit(Bigs(xs, words)) && i < |xs|
    ensures |AllBytes(Bigs(xs, words))| == |xs| * (8 * words)
    ensures NumberAt(AllBytes(Bigs(xs, words)), i * (8 * words), words, xs[i])
  {
    hide Fits, Bytes, NumberAt, AllBytes, AllFit, Bigs;
    var n := |xs| - 1;
    var before, last := Bigs(xs[..n], words), [Big(xs[n], words)];
    LastNumber(xs, words);
    FitConcat(before, last);
    BytesConcat(before, last);
    FieldBytes(Big(xs[n], words));
    NumberField(xs[n], words);
    NumbersSize(xs[..n], words);
    NumbersSize(xs, words);
    if i < n {
      NumbersAt(xs[..n], words, i);
      NumberBefore(AllBytes(before), AllBytes(last), i * (8 * words), words, xs[i]);
    } else {
      NumberFurther(AllBytes(before), AllBytes(last), 0, words, xs[n]);
    }
  }

  lemma LastNumber(xs: seq<int>, words: nat)
    requires xs != []
    ensures Bigs(xs, words) == Bigs(xs[..|xs| - 1], words) + [Big(xs[|xs| - 1], words)]
  {}

  lemma {:induction false} NumbersSize(xs: seq<int>, words: nat)
    requires AllFit(Bigs(xs, words))
    ensures |AllBytes(Bigs(xs, words))| == |xs| * (8 * words)
  {
    hide Fits, Bytes;
    if xs != [] {
      var n := |xs| - 1;
      assert Bigs(xs, words)[..n] == Bigs(xs[..n], words);
      NumbersSize(xs[..n], words);
      assert (n + 1) * (8 * words) == n * (8 * words) + 8 * words;
    }
  }

  lemma Uint32Before(x: seq<Byte>, y: seq<Byte>, pos: nat, n: nat)
    requires Uint32At(x, pos, n)
    ensures Uint32At(x + y, pos, n)
  {
    assert (x + y)[pos..pos + 4] == x[pos..pos + 4];
  }

  lemma Uint32Further(x: seq<Byte>, y: seq<Byte>, pos: nat, n: nat)
    requires Uint32At(y, pos, n)
    ensures Uint32At(x + y, |x| + pos, n)
  {
    assert (x + y)[|x| + pos..|x| + pos + 4] == y[pos..pos + 4];
  }

  lemma Then(xs: seq<Field>, ys: seq<Field>)
    requires AllFit(xs + ys)
    ensures AllFit(xs) && AllFit(ys) && AllBytes(xs + ys) == AllBytes(xs) + AllBytes(ys)
  {
    FitConcat(xs, ys);
    hide Fits, Bytes;
    BytesConcat(xs, ys);
  }

  // ---- a counted list of numbers --------------------------------------------------------------------

  /** From here on stand a count and so many group elements. */
  predicate ElementsAt(b: seq<Byte>, pos: nat, xs: seq<int>) {
    && Uint32At(b, pos, |xs|)
    && pos + 4 + 512 * |xs| <= |b|
    && forall i :: 0 <= i < |xs| ==> NumberAt(b, pos + 4 + i * 512, WORDS_4096, xs[i])
  }

  /** From here on stand so many exponents. */
  predicate ExponentsAt(b: seq<Byte>, pos: nat, xs: seq<int>) {
    && pos + 32 * |xs| <= |b|
    && forall i :: 0 <= i < |xs| ==> NumberAt(b, pos + i * 32, WORDS_256, xs[i])
  }

  lemma ElementsBefore(x: seq<Byte>, y: seq<Byte>, pos: nat, xs: seq<int>)
    requires ElementsAt(x, pos, xs)
    ensures ElementsAt(x + y, pos, xs)
  {
    hide NumberAt, Uint32At;
    Uint32Before(x, y, pos, |xs|);
    forall i | 0 <= i < |xs| ensures NumberAt(x + y, pos + 4 + i * 512, WORDS_4096, xs[i]) {
      NumberBefore(x, y, pos + 4 + i * 512, WORDS_4096, xs[i]);
    }
  }

  lemma ElementsFurther(x: seq<Byte>, y: seq<Byte>, pos: nat, xs: seq<int>)
    requires ElementsAt(y, pos, xs)
    ensures ElementsAt(x + y, |x| + pos, xs)
  {
    hide NumberAt, Uint32At;
    Uint32Further(x, y, pos, |xs|);
    forall i | 0 <= i < |xs| ensures NumberAt(x + y, |x| + pos + 4 + i * 512, WORDS_4096, xs[i]) {
      NumberFurther(x, y, pos + 4 + i * 512, WORDS_4096, xs[i]);
    }
  }

  lemma ExponentsFurther(x: seq<Byte>, y: seq<Byte>, pos: nat, xs: seq<int>)
    requires ExponentsAt(y, pos, xs)
    ensures ExponentsAt(x + y, |x| + pos, xs)
  {
    hide NumberAt;
    forall i | 0 <= i < |xs| ensures NumberAt(x + y, |x| + pos + i * 32, WORDS_256, xs[i]) {
      NumberFurther(x, y, pos + i * 32, WORDS_256, xs[i]);
    }
  }

  lemma ExponentsBefore(x: seq<Byte>, y: seq<Byte>, pos: nat, xs: seq<int>)
    requires ExponentsAt(x, pos, xs)
    ensures ExponentsAt(x + y, pos, xs)
  {
    hide NumberAt;
    forall i | 0 <= i < |xs| ensures NumberAt(x + y, pos + i * 32, WORDS_256, xs[i]) {
      NumberBefore(x, y, pos + i * 32, WORDS_256, xs[i]);
    }
  }

  lemma ElementsLayout(xs: seq<int>)
    requires |xs| < UINT32_LIMIT && AllFit([U32(|xs|)] + Bigs(xs, WORDS_4096))
    ensures
      var b := AllBytes([U32(|xs|)] + Bigs(xs, WORDS_4096));
      |b| == 4 + 512 * |xs| && ElementsAt(b, 0, xs)
  {
    hide Fits, Bytes, AllBytes, AllFit, NumberAt, Uint32At, Bigs;
    var count, numbers := [U32(|xs|)], Bigs(xs, WORDS_4096);
    Then(count, numbers);
    FieldBytes(U32(|xs|));
    Uint32Field(|xs|);
    NumbersSize(xs, WORDS_4096);
    Uint32Before(AllBytes(count), AllBytes(numbers), 0, |xs|);
    forall i | 0 <= i < |xs|
      ensures NumberAt(AllBytes(count + numbers), 4 + i * 512, WORDS_4096, xs[i])
    {
      NumbersAt(xs, WORDS_4096, i);
      NumberFurther(AllBytes(count), AllBytes(numbers), i * 512, WORDS_4096, xs[i]);
    }
  }

  lemma ExponentsLayout(xs: seq<int>)
    requires AllFit(Bigs(xs, WORDS_256))
    ensures |AllBytes(Bigs(xs, WORDS_256))| == 32 * |xs| && ExponentsAt(AllBytes(Bigs(xs, WORDS_256)), 0, xs)
  {
    hide Fits, Bytes, AllBytes, AllFit, NumberAt, Bigs;
    NumbersSize(xs, WORDS_256);
    forall i | 0 <= i < |xs| ensures NumberAt(AllBytes(Bigs(xs, WORDS_256)), i * 32, WORDS_256, xs[i]) {
      NumbersAt(xs, WORDS_256, i);
    }
  }

  // ---- a trustee's key --------------------------------------------------------------------------------

  /** From here on stands a proof: its commitments, its challenge and its responses. */
  predicate ProofAt(b: seq<Byte>, pos: nat, p: SchnorrProof) {
    var k := |p.commitments|;
    && ElementsAt(b, pos, p.commitments)
    && NumberAt(b, pos + 4 + 512 * k, WORDS_256, p.challenge)
    && ExponentsAt(b, pos + 36 + 512 * k, p.responses)
  }

  lemma ProofLayout(p: SchnorrProof)
    requires |p.commitments| < UINT32_LIMIT && AllFit(SchnorrFields(p))
    ensures
      var b := AllBytes(SchnorrFields(p));
      |b| == 36 + 512 * |p.commitments| + 32 * |p.responses| && ProofAt(b, 0, p)
  {
    hide Fits, Bytes, AllBytes, AllFit, NumberAt, ElementsAt, ExponentsAt, Bigs;
    var elements := [U32(|p.commitments|)] + Bigs(p.commitments, WORDS_4096);
    var challenge, responses := [Big(p.challenge, WORDS_256)], Bigs(p.responses, WORDS_256);
    Then(elements + challenge, responses);
    Then(elements, challenge);
    ElementsLayout(p.commitments);
    FieldBytes(Big(p.challenge, WORDS_256));
    NumberField(p.challenge, WORDS_256);
    ExponentsLayout(p.responses);
    var x, y, z := AllBytes(elements), AllBytes(challenge), AllBytes(responses);
    ElementsBefore(x, y, 0, p.commitments);
    ElementsBefore(x + y, z, 0, p.commitments);
    NumberFurther(x, y, 0, WORDS_256, p.challenge);
    NumberBefore(x + y, z, |x|, WORDS_256, p.challenge);
    ExponentsFurther(x + y, z, 0, p.responses);
  }

  lemma ProofFurther(x: seq<Byte>, y: seq<Byte>, pos: nat, p: SchnorrProof)
    requires ProofAt(y, pos, p)
    ensures ProofAt(x + y, |x| + pos, p)
  {
    hide NumberAt, ElementsAt, ExponentsAt;
    ElementsFurther(x, y, pos, p.commitments);
    NumberFurther(x, y, pos + 4 + 512 * |p.commitments|, WORDS_256, p.challenge);
    ExponentsFurther(x, y, pos + 36 + 512 * |p.commitments|, p.responses);
  }

  lemma ProofBefore(x: seq<Byte>, y: seq<Byte>, pos: nat, p: SchnorrProof)
    requires ProofAt(x, pos, p)
    ensures ProofAt(x + y, pos, p)
  {
    hide NumberAt, ElementsAt, ExponentsAt;
    ElementsBefore(x, y, pos, p.commitments);
    NumberBefore(x, y, pos + 4 + 512 * |p.commitments|, WORDS_256, p.challenge);
    ExponentsBefore(x, y, pos + 36 + 512 * |p.commitments|, p.responses);
  }

  lemma PublicKeyLayout(key: PublicKey)
    requires |key.coefCommitments| < UINT32_LIMIT && |key.proof.commitments| < UINT32_LIMIT
    requires AllFit(PublicKeyFields(key))
    ensures
      var b, k, p := AllBytes(PublicKeyFields(key)), |key.coefCommitments|, key.proof;
      && |b| == 40 + 512 * k + 512 * |p.commitments| + 32 * |p.responses|
      && ElementsAt(b, 0, key.coefCommitments) && ProofAt(b, 4 + 512 * k, p)
  {
    hide Fits, Bytes, AllBytes, AllFit, ElementsAt, ProofAt, Bigs, SchnorrFields;
    var elements := [U32(|key.coefCommitments|)] + Bigs(key.coefCommitments, WORDS_4096);
    Then(elements, SchnorrFields(key.proof));
    ElementsLayout(key.coefCommitments);
    ProofLayout(key.proof);
    ElementsBefore(AllBytes(elements), AllBytes(SchnorrFields(key.proof)), 0, key.coefCommitments);
    ProofFurther(AllBytes(elements), AllBytes(SchnorrFields(key.proof)), 0, key.proof);
  }

  /**
   A trustee's key on the wire: its index, the commitments to its k coefficients, the
   proof's k commitments, challenge and k responses, and the RSA modulus and exponent.
   */
  lemma KeyGeneratedLayout(m: KeyGenerated)
    requires m.trusteeIndex < UINT32_LIMIT && |m.publicKey.coefCommitments| < UINT32_LIMIT
    requires KeyOfThreshold(m.publicKey, |m.publicKey.coefCommitments|) && AllFit(KeyGeneratedFields(m))
    ensures
      var b, k := AllBytes(KeyGeneratedFields(m)), |m.publicKey.coefCommitments|;
      && |b| == 564 + 1056 * k
      && Uint32At(b, 0, m.trusteeIndex)
      && ElementsAt(b, 4, m.publicKey.coefCommitments)
      && ProofAt(b, 8 + 512 * k, m.publicKey.proof)
      && NumberAt(b, 44 + 1056 * k, WORDS_4096, m.rsaKey.n)
      && NumberAt(b, 556 + 1056 * k, 1, m.rsaKey.e)
  {
    hide Fits, Bytes, AllBytes, AllFit, NumberAt, Uint32At, ElementsAt, ProofAt, PublicKeyFields;
    var key, rsa := m.publicKey, [Big(m.rsaKey.n, WORDS_4096)] + [Big(m.rsaKey.e, 1)];
    var index := [U32(m.trusteeIndex)];
    assert rsa == [Big(m.rsaKey.n, WORDS_4096), Big(m.rsaKey.e, 1)];
    Then(index, PublicKeyFields(key) + rsa);
    Then(PublicKeyFields(key), rsa);
    Then([Big(m.rsaKey.n, WORDS_4096)], [Big(m.rsaKey.e, 1)]);
    FieldBytes(U32(m.trusteeIndex));
    FieldBytes(Big(m.rsaKey.n, WORDS_4096));
    FieldBytes(Big(m.rsaKey.e, 1));
    Uint32Field(m.trusteeIndex);
    NumberField(m.rsaKey.n, WORDS_4096);
    NumberField(m.rsaKey.e, 1);
    PublicKeyLayout(key);
    var w, x, y, z := AllBytes(index), AllBytes(PublicKeyFields(key)), Bytes(Big(m.rsaKey.n, WORDS_4096)), Bytes(Big(m.rsaKey.e, 1));
    var k := |key.coefCommitments|;
    Uint32Before(w, x + (y + z), 0, m.trusteeIndex);
    ElementsBefore(x, y + z, 0, key.coefCommitments);
    ElementsFurther(w, x + (y + z), 0, key.coefCommitments);
    ProofBefore(x, y + z, 4 + 512 * k, key.proof);
    ProofFurther(w, x + (y + z), 4 + 512 * k, key.proof);
    NumberBefore(y, z, 0, WORDS_4096, m.rsaKey.n);
    NumberFurther(y, z, 0, 1, m.rsaKey.e);
    NumberFurther(x, y + z, 0, WORDS_4096, m.rsaKey.n);
    NumberFurther(x, y + z, |y|, 1, m.rsaKey.e);
    NumberFurther(w, x + (y + z), |x|, WORDS_4096, m.rsaKey.n);
    NumberFurther(w, x + (y + z), |x| + |y|, 1, m.rsaKey.e);
  }

  // ---- an encrypted ballot ------------------------------------------------------------------------------

  /** From here on stand the ciphertexts, each with the nonce's encoding before the message's. */
  predicate EncryptionsAt(b: seq<Byte>, pos: nat, es: seq<Encryption>) {
    && pos + 1024 * |es| <= |b|
    && forall j :: 0 <= j < |es| ==>
        && NumberAt(b, pos + j * 1024, WORDS_4096, es[j].nonceEncoding)
        && NumberAt(b, pos + 512 + j * 1024, WORDS_4096, es[j].messageEncoding)
  }

  lemma EncryptionsFurther(x: seq<Byte>, y: seq<Byte>, pos: nat, es: seq<Encryption>)
    requires EncryptionsAt(y, pos, es)
    ensures EncryptionsAt(x + y, |x| + pos, es)
  {
    hide NumberAt;
    forall j | 0 <= j < |es|
      ensures NumberAt(x + y, |x| + pos + j * 1024, WORDS_4096, es[j].nonceEncoding)
      ensures NumberAt(x + y, |x| + pos + 512 + j * 1024, WORDS_4096, es[j].messageEncoding)
    {
      NumberFurther(x, y, pos + j * 1024, WORDS_4096, es[j].nonceEncoding);
      NumberFurther(x, y, pos + 512 + j * 1024, WORDS_4096, es[j].messageEncoding);
    }
  }

  lemma EncryptionLayout(e: Encryption)
    requires AllFit(EncryptionFields(e))
    ensures
      var b := AllBytes(EncryptionFields(e));
      |b| == 1024 && NumberAt(b, 0, WORDS_4096, e.nonceEncoding) && NumberAt(b, 512, WORDS_4096, e.messageEncoding)
  {
    hide Fits, Bytes, AllBytes, AllFit, NumberAt;
    var x, y := Big(e.nonceEncoding, WORDS_4096), Big(e.messageEncoding, WORDS_4096);
    assert EncryptionFields(e) == [x] + [y];
    Then([x], [y]);
    FieldBytes(x);
    FieldBytes(y);
    NumberField(e.nonceEncoding, WORDS_4096);
    NumberField(e.messageEncoding, WORDS_4096);
    NumberBefore(Bytes(x), Bytes(y), 0, WORDS_4096, e.nonceEncoding);
    NumberFurther(Bytes(x), Bytes(y), 0, WORDS_4096, e.messageEncoding);
  }

  lemma {:induction false} RowsLayout(es: seq<Encryption>, i: nat)
    requires i <= |es| && AllFit(Joined(EncryptionRows(es), i))
    ensures
      var b := AllBytes(Joined(EncryptionRows(es), i));
      |b| == 1024 * (|es| - i) && EncryptionsAt(b, 0, es[i..])
    decreases |es| - i
  {
    hide Fits, Bytes, AllBytes, AllFit, NumberAt, EncryptionsAt;
    if i == |es| {
      NothingThere();
      assert es[i..] == [];
    } else {
      var rest := Joined(EncryptionRows(es), i + 1);
      Then(EncryptionFields(es[i]), rest);
      EncryptionLayout(es[i]);
      RowsLayout(es, i + 1);
      assert es[i..][1..] == es[i + 1..];
      FirstAndRest(AllBytes(EncryptionFields(es[i])), AllBytes(rest), es[i..]);
    }
  }

  lemma NothingThere()
    ensures AllBytes([]) == [] && EncryptionsAt([], 0, [])
  {}

  lemma FirstAndRest(x: seq<Byte>, y: seq<Byte>, es: seq<Encryption>)
    requires es != [] && |x| == 1024 && EncryptionsAt(y, 0, es[1..])
    requires NumberAt(x, 0, WORDS_4096, es[0].nonceEncoding) && NumberAt(x, 512, WORDS_4096, es[0].messageEncoding)
    ensures EncryptionsAt(x + y, 0, es)
  {
    hide NumberAt;
    EncryptionsFurther(x, y, 0, es[1..]);
    NumberBefore(x, y, 0, WORDS_4096, es[0].nonceEncoding);
    NumberBefore(x, y, 512, WORDS_4096, es[0].messageEncoding);
    forall j | 0 <= j < |es|
      ensures NumberAt(x + y, j * 1024, WORDS_4096, es[j].nonceEncoding)
      ensures NumberAt(x + y, 512 + j * 1024, WORDS_4096, es[j].messageEncoding)
    {
      if j > 0 {
        assert es[1..][j - 1] == es[j] && 1024 + (j - 1) * 1024 == j * 1024;
      }
    }
  }

  /** An encrypted ballot on the wire, and so what its tracker is the digest of: its number, a count, the ciphertexts. */
  lemma BallotLayout(ballot: EncryptedBallot)
    requires ballot.id < WORD && |ballot.selections| < UINT32_LIMIT && AllFit(BallotFields(ballot))
    ensures
      var b := AllBytes(BallotFields(ballot));
      && |b| == 12 + 1024 * |ballot.selections|
      && Uint64At(b, 0, ballot.id) && Uint32At(b, 8, |ballot.selections|)
      && EncryptionsAt(b, 12, ballot.selections)
  {
    hide Fits, Bytes, AllBytes, AllFit, Uint32At, EncryptionsAt, Joined;
    var id, count := [U64(ballot.id)], [U32(|ballot.selections|)];
    var rows := Joined(EncryptionRows(ballot.selections), 0);
    assert BallotFields(ballot) == id + (count + rows);
    Then(id, count + rows);
    Then(count, rows);
    FieldBytes(U64(ballot.id));
    FieldBytes(U32(|ballot.selections|));
    Uint64Field(ballot.id);
    Uint32Field(|ballot.selections|);
    RowsLayout(ballot.selections, 0);
    assert ballot.selections[0..] == ballot.selections;
    var x, y, z := AllBytes(id), AllBytes(count), AllBytes(rows);
    assert (x + (y + z))[0..8] == x[0..8];
    Uint32Before(y, z, 0, |ballot.selections|);
    Uint32Further(x, y + z, 0, |ballot.selections|);
    EncryptionsFurther(y, z, 0, ballot.selections);
    EncryptionsFurther(x, y + z, 4, ballot.selections);
  }
}

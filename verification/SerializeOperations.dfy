/**
 Reserving, writing and reading those messages. Reserving totals exactly the bytes
 that writing emits, and what has been written is read back unchanged.
 */
module SerializeOperations {
  import opened Arithmetic
  import opened Bignum
  import opened Wire
  import opened Serialize
  import opened SerializeMessages
  import opened Proofs
  import opened DecryptionMessages
  import opened KeyCeremonyCoordinator
  import opened KeyCeremonyTrustee
  import Rsa

  // ---- runs of numbers --------------------------------------------------------------------------

  lemma {:induction false} BigsSize(xs: seq<int>, words: nat)
    ensures TotalSize(Bigs(xs, words)) == |xs| * (8 * words)
  {
    if xs != [] {
      var n := |xs| - 1;
      BigsSize(xs[..n], words);
      assert Bigs(xs, words)[..n] == Bigs(xs[..n], words);
      assert (n + 1) * (8 * words) == n * (8 * words) + 8 * words;
    }
  }

  method ReserveBigs(st: State, count: nat, words: nat, ghost xs: seq<int>)
    requires |xs| == count
    modifies st`len
    ensures st.len == if st.status == Reserving then old(st.len) + TotalSize(Bigs(xs, words)) else old(st.len)
  {
    BigsSize(xs, words);
    for i := 0 to count
      invariant st.len == if st.status == Reserving then old(st.len) + i * (8 * words) else old(st.len)
    {
      st.ReserveUint64s(words);
      assert (i + 1) * (8 * words) == i * (8 * words) + 8 * words;
    }
  }

  lemma NextBig(xs: seq<int>, words: nat, i: nat, tail: seq<Field>)
    requires i < |xs|
    ensures Bigs(xs, words)[i..] + tail == [Big(xs[i], words)] + (Bigs(xs, words)[i + 1..] + tail)
  {}

  method WriteBigs(st: State, xs: seq<int>, words: nat, ghost tail: seq<Field>)
    requires st.Writes() && st.plan == Bigs(xs, words) + tail
    modifies st`status, st`offset, st`written, st`plan, st.buf
    ensures st.Writes() && st.plan == tail
  {
    ghost var fields := Bigs(xs, words);
    assert fields[0..] == fields;
    hide AllFit, TotalSize, AllBytes, Fits, Wire.Bytes, Bigs;
    for i := 0 to |xs|
      invariant st.Writes() && st.plan == fields[i..] + tail
    {
      NextBig(xs, words, i, tail);
      st.WriteUint64s(xs[i], words, fields[i + 1..] + tail);
    }
    assert fields[|xs|..] + tail == tail;
  }

  method ReadBigs(st: State, count: nat, words: nat, ghost xs: seq<int>, ghost tail: seq<Field>) returns (r: seq<nat>)
    requires st.Reads() && st.plan == Bigs(xs, words) + tail && |xs| == count
    modifies st`offset, st`plan
    ensures st.Reads() && st.plan == tail && r == xs
  {
    r := [];
    ghost var fields := Bigs(xs, words);
    assert fields[0..] == fields;
    hide AllFit, TotalSize, AllBytes, Fits, Wire.Bytes, Bigs;
    for i := 0 to count
      invariant r == xs[..i] && st.Reads() && st.plan == fields[i..] + tail
    {
      NextBig(xs, words, i, tail);
      var v := st.ReadUint64s(words, Big(xs[i], words), fields[i + 1..] + tail);
      r := r + [v];
    }
    assert xs[..count] == xs && fields[count..] + tail == tail;
  }

  // ---- a trustee's key and its proof ------------------------------------------------------------

  lemma SizeOfFour(a: seq<Field>, b: seq<Field>, c: seq<Field>, d: seq<Field>)
    ensures TotalSize(a + b + c + d) == TotalSize(a) + TotalSize(b) + TotalSize(c) + TotalSize(d)
  {
    SizeConcat(a, b);
    SizeConcat(a + b, c);
    SizeConcat(a + b + c, d);
  }

  lemma FourParts(a: seq<Field>, b: seq<Field>, c: seq<Field>, d: seq<Field>, tail: seq<Field>)
    ensures a + b + c + d + tail == a + (b + (c + (d + tail)))
  {}

  lemma ThreeParts(a: seq<Field>, b: seq<Field>, c: seq<Field>, tail: seq<Field>)
    ensures a + b + c + tail == a + (b + (c + tail))
  {}

  method ReserveSchnorrProof(st: State, p: SchnorrProof)
    requires |p.commitments| == |p.responses|
    modifies st`len
    ensures st.len == if st.status == Reserving then old(st.len) + TotalSize(SchnorrFields(p)) else old(st.len)
  {
    var t := |p.commitments|;
    SizeOfFour([U32(t)], Bigs(p.commitments, WORDS_4096), [Big(p.challenge, WORDS_256)], Bigs(p.responses, WORDS_256));
    OneField(U32(t));
    OneField(Big(p.challenge, WORDS_256));
    hide TotalSize;
    st.ReserveUint32();
    ReserveBigs(st, t, WORDS_4096, p.commitments);
    st.ReserveUint64s(WORDS_256);
    ReserveBigs(st, t, WORDS_256, p.responses);
  }

  method WriteSchnorrProof(st: State, p: SchnorrProof, ghost tail: seq<Field>)
    requires st.Writes() && st.plan == SchnorrFields(p) + tail && |p.commitments| < UINT32_LIMIT
    modifies st`status, st`offset, st`written, st`plan, st.buf
    ensures st.Writes() && st.plan == tail
  {
    hide AllFit, TotalSize, AllBytes, Fits, Wire.Bytes, Bigs;
    ghost var b, d := Bigs(p.commitments, WORDS_4096), Bigs(p.responses, WORDS_256);
    ghost var c := [Big(p.challenge, WORDS_256)];
    FourParts([U32(|p.commitments|)], b, c, d, tail);
    st.WriteUint32(|p.commitments|, b + (c + (d + tail)));
    WriteBigs(st, p.commitments, WORDS_4096, c + (d + tail));
    st.WriteUint64s(p.challenge, WORDS_256, d + tail);
    WriteBigs(st, p.responses, WORDS_256, tail);
  }

  /** Serialize_read_hash: what is read is reduced, which a challenge already is. */
  method ReadHash(st: State, q: nat, ghost challenge: nat, ghost tail: seq<Field>) returns (r: nat)
    requires st.Reads() && st.plan == [Big(challenge, WORDS_256)] + tail && challenge < q
    modifies st`offset, st`plan
    ensures st.Reads() && st.plan == tail && r == challenge
  {
    var v := st.ReadUint64s(WORDS_256, Big(challenge, WORDS_256), tail);
    SmallMod(v, q);
    r := v % q;
  }

  method ReadSchnorrProof(st: State, q: nat, ghost p: SchnorrProof, ghost tail: seq<Field>) returns (r: SchnorrProof)
    requires st.Reads() && st.plan == SchnorrFields(p) + tail && |p.commitments| == |p.responses|
    requires p.challenge < q
    modifies st`offset, st`plan
    ensures st.Reads() && st.plan == tail && r == p
  {
    hide AllFit, TotalSize, AllBytes, Fits, Wire.Bytes, Bigs;
    ghost var b, d := Bigs(p.commitments, WORDS_4096), Bigs(p.responses, WORDS_256);
    ghost var c := [Big(p.challenge, WORDS_256)];
    FourParts([U32(|p.commitments|)], b, c, d, tail);
    var threshold := st.ReadUint32(|p.commitments|, b + (c + (d + tail)));
    var commitments := ReadBigs(st, threshold, WORDS_4096, p.commitments, c + (d + tail));
    var challenge := ReadHash(st, q, p.challenge, d + tail);
    var responses := ReadBigs(st, threshold, WORDS_256, p.responses, tail);
    r := SchnorrProof(commitments, challenge, responses);
  }

  method ReservePublicKey(st: State, k: PublicKey)
    requires KeyOfThreshold(k, |k.coefCommitments|)
    modifies st`len
    ensures st.len == if st.status == Reserving then old(st.len) + TotalSize(PublicKeyFields(k)) else old(st.len)
  {
    var t := |k.coefCommitments|;
    SizeConcat([U32(t)], Bigs(k.coefCommitments, WORDS_4096));
    SizeConcat([U32(t)] + Bigs(k.coefCommitments, WORDS_4096), SchnorrFields(k.proof));
    OneField(U32(t));
    hide TotalSize, SchnorrFields;
    st.ReserveUint32();
    ReserveBigs(st, t, WORDS_4096, k.coefCommitments);
    ReserveSchnorrProof(st, k.proof);
  }

  method WritePublicKey(st: State, k: PublicKey, ghost tail: seq<Field>)
    requires st.Writes() && st.plan == PublicKeyFields(k) + tail
    requires |k.coefCommitments| < UINT32_LIMIT && |k.proof.commitments| < UINT32_LIMIT
    modifies st`status, st`offset, st`written, st`plan, st.buf
    ensures st.Writes() && st.plan == tail
  {
    hide AllFit, TotalSize, AllBytes, Fits, Wire.Bytes, Bigs, SchnorrFields;
    ghost var b, c := Bigs(k.coefCommitments, WORDS_4096), SchnorrFields(k.proof);
    ThreeParts([U32(|k.coefCommitments|)], b, c, tail);
    st.WriteUint32(|k.coefCommitments|, b + (c + tail));
    WriteBigs(st, k.coefCommitments, WORDS_4096, c + tail);
    WriteSchnorrProof(st, k.proof, tail);
  }

  method ReadPublicKey(st: State, q: nat, ghost k: PublicKey, ghost tail: seq<Field>) returns (r: PublicKey)
    requires st.Reads() && st.plan == PublicKeyFields(k) + tail && KeyOfThreshold(k, |k.coefCommitments|)
    requires k.proof.challenge < q
    modifies st`offset, st`plan
    ensures st.Reads() && st.plan == tail && r == k
  {
    hide AllFit, TotalSize, AllBytes, Fits, Wire.Bytes, Bigs, SchnorrFields;
    ghost var b, c := Bigs(k.coefCommitments, WORDS_4096), SchnorrFields(k.proof);
    ThreeParts([U32(|k.coefCommitments|)], b, c, tail);
    var threshold := st.ReadUint32(|k.coefCommitments|, b + (c + tail));
    var commitments := ReadBigs(st, threshold, WORDS_4096, k.coefCommitments, c + tail);
    var proof := ReadSchnorrProof(st, q, k.proof, tail);
    r := PublicKey(commitments, proof);
  }

  method ReserveRsaPublicKey(st: State)
    modifies st`len
    ensures st.len == if st.status == Reserving then old(st.len) + 520 else old(st.len)
  {
    st.ReserveUint64s(64);
    st.ReserveUint64s(1);
  }

  method ReserveKeys(st: State, k: PublicKey, r: Rsa.PublicKey)
    requires KeyOfThreshold(k, |k.coefCommitments|)
    modifies st`len
    ensures st.len == if st.status == Reserving then old(st.len) + TotalSize(KeysFields(k, r)) else old(st.len)
  {
    var n, e := Big(r.n, WORDS_4096), Big(r.e, 1);
    SizeConcat(PublicKeyFields(k), [n, e]);
    OneField(n);
    OneField(e);
    SizeConcat([n], [e]);
    assert [n] + [e] == [n, e];
    hide TotalSize, PublicKeyFields;
    ReservePublicKey(st, k);
    ReserveRsaPublicKey(st);
  }

  method WriteKeys(st: State, k: PublicKey, r: Rsa.PublicKey, ghost tail: seq<Field>)
    requires st.Writes() && st.plan == KeysFields(k, r) + tail
    requires |k.coefCommitments| < UINT32_LIMIT && |k.proof.commitments| < UINT32_LIMIT
    modifies st`status, st`offset, st`written, st`plan, st.buf
    ensures st.Writes() && st.plan == tail
  {
    hide AllFit, TotalSize, AllBytes, Fits, Wire.Bytes, PublicKeyFields;
    ghost var n, e := Big(r.n, WORDS_4096), Big(r.e, 1);
    assert KeysFields(k, r) + tail == PublicKeyFields(k) + ([n] + ([e] + tail));
    WritePublicKey(st, k, [n] + ([e] + tail));
    st.WriteUint64s(r.n, WORDS_4096, [e] + tail);
    st.WriteUint64s(r.e, 1, tail);
  }

  method ReadKeys(st: State, q: nat, ghost k: PublicKey, ghost r: Rsa.PublicKey, ghost tail: seq<Field>)
    returns (key: PublicKey, rsaKey: Rsa.PublicKey)
    requires st.Reads() && st.plan == KeysFields(k, r) + tail
    requires KeyOfThreshold(k, |k.coefCommitments|) && k.proof.challenge < q
    modifies st`offset, st`plan
    ensures st.Reads() && st.plan == tail && key == k && rsaKey == r
  {
    hide AllFit, TotalSize, AllBytes, Fits, Wire.Bytes, PublicKeyFields;
    ghost var n, e := Big(r.n, WORDS_4096), Big(r.e, 1);
    assert KeysFields(k, r) + tail == PublicKeyFields(k) + ([n] + ([e] + tail));
    key := ReadPublicKey(st, q, k, [n] + ([e] + tail));
    var rsaN := st.ReadUint64s(WORDS_4096, n, [e] + tail);
    var rsaE := st.ReadUint64s(1, e, tail);
    rsaKey := Rsa.PublicKey(rsaN, rsaE);
  }

  method ReserveKeyGenerated(st: State, m: KeyGenerated)
    requires KeyOfThreshold(m.publicKey, |m.publicKey.coefCommitments|)
    modifies st`len
    ensures st.len == if st.status == Reserving then old(st.len) + TotalSize(KeyGeneratedFields(m)) else old(st.len)
  {
    SizeConcat([U32(m.trusteeIndex)], KeysFields(m.publicKey, m.rsaKey));
    OneField(U32(m.trusteeIndex));
    hide TotalSize, KeysFields;
    st.ReserveUint32();
    ReserveKeys(st, m.publicKey, m.rsaKey);
  }

  method WriteKeyGenerated(st: State, m: KeyGenerated, ghost tail: seq<Field>)
    requires st.Writes() && st.plan == KeyGeneratedFields(m) + tail && m.trusteeIndex < UINT32_LIMIT
    requires |m.publicKey.coefCommitments| < UINT32_LIMIT && |m.publicKey.proof.commitments| < UINT32_LIMIT
    modifies st`status, st`offset, st`written, st`plan, st.buf
    ensures st.Writes() && st.plan == tail
  {
    hide AllFit, TotalSize, AllBytes, Fits, Wire.Bytes, KeysFields;
    HeadFirst(U32(m.trusteeIndex), KeysFields(m.publicKey, m.rsaKey), tail);
    st.WriteUint32(m.trusteeIndex, KeysFields(m.publicKey, m.rsaKey) + tail);
    WriteKeys(st, m.publicKey, m.rsaKey, tail);
  }

  method ReadKeyGenerated(st: State, q: nat, ghost m: KeyGenerated, ghost tail: seq<Field>) returns (r: KeyGenerated)
    requires st.Reads() && st.plan == KeyGeneratedFields(m) + tail
    requires KeyOfThreshold(m.publicKey, |m.publicKey.coefCommitments|) && m.publicKey.proof.challenge < q
    modifies st`offset, st`plan
    ensures st.Reads() && st.plan == tail && r == m
  {
    hide AllFit, TotalSize, AllBytes, Fits, Wire.Bytes, KeysFields;
    HeadFirst(U32(m.trusteeIndex), KeysFields(m.publicKey, m.rsaKey), tail);
    var index := st.ReadUint32(m.trusteeIndex, KeysFields(m.publicKey, m.rsaKey) + tail);
    var key, rsaKey := ReadKeys(st, q, m.publicKey, m.rsaKey, tail);
    r := KeyGenerated(index, key, rsaKey);
  }

  lemma HeadFirst(f: Field, rest: seq<Field>, tail: seq<Field>)
    ensures [f] + rest + tail == [f] + (rest + tail)
  {}

  // ---- what all messages share ------------------------------------------------------------------

  /** A finished writer whose every field could be written holds exactly their bytes, all of them. */
  lemma Finished(st: State, fields: seq<Field>)
    requires st.Writes() && st.plan == [] && st.all == fields
    ensures st.status == Writing <==> AllFit(fields)
    ensures AllFit(fields) ==> st.offset == st.len == TotalSize(fields) && st.buf[..] == AllBytes(fields)
  {
    assert st.written == fields;
    if AllFit(fields) {
      assert st.buf[..st.len] == st.buf[..];
    }
  }

  /** Out through the wire and back: it succeeds exactly if every number fills its words. */
  method TransmitKeyGenerated(m: KeyGenerated, q: nat) returns (ok: bool, message: array?<Byte>, r: KeyGenerated)
    requires KeyOfThreshold(m.publicKey, |m.publicKey.coefCommitments|) && m.publicKey.proof.challenge < q
    requires m.trusteeIndex < UINT32_LIMIT && |m.publicKey.coefCommitments| < UINT32_LIMIT
    ensures ok <==> KeyGeneratedFits(m)
    ensures ok ==> r == m
    ensures ok ==>
      && message != null && AllFit(KeyGeneratedFields(m))
      && message[..] == AllBytes(KeyGeneratedFields(m))
  {
    assert |m.publicKey.proof.commitments| == |m.publicKey.coefCommitments|;
    hide *;
    ghost var fields := KeyGeneratedFields(m);
    KeyGeneratedCanBeWritten(m);
    KeyGeneratedNotEmpty(m);
    assert fields + [] == fields;
    var st := new State();
    ReserveKeyGenerated(st, m);
    st.Allocate(fields);
    WriteKeyGenerated(st, m, []);
    Finished(st, fields);
    ok, r := st.status == Writing, m;
    message := if ok then st.buf else null;
    if ok {
      var reader := new State.FromBytes(st.buf, fields);
      r := ReadKeyGenerated(reader, q, m, []);
    }
  }

  // ---- the state kept for decryption ------------------------------------------------------------

  method ReserveTrusteeState(st: State, s: TrusteeState)
    modifies st`len
    ensures st.len == if st.status == Reserving then old(st.len) + TotalSize(TrusteeStateFields(s)) else old(st.len)
  {
    var head := [U32(s.index), U32(|s.coefficients|)];
    var key := RsaPrivateFields(s.rsaKey);
    SizeOfFour(head, Bigs(s.coefficients, WORDS_4096), key, Bigs(s.myKeyShares, WORDS_SHARE));
    OneField(U32(s.index));
    OneField(U32(|s.coefficients|));
    SizeConcat([U32(s.index)], [U32(|s.coefficients|)]);
    assert [U32(s.index)] + [U32(|s.coefficients|)] == head;
    RsaPrivateSize(s.rsaKey);
    hide TotalSize, RsaPrivateFields;
    st.ReserveUint32();
    st.ReserveUint32();
    ReserveBigs(st, |s.coefficients|, WORDS_4096, s.coefficients);
    ReserveRsaPrivateKey(st);
    ReserveBigs(st, |s.myKeyShares|, WORDS_SHARE, s.myKeyShares);
  }

  const RSA_PRIVATE_BYTES: nat := 1544

  lemma RsaPrivateSize(k: Rsa.PrivateKey)
    ensures TotalSize(RsaPrivateFields(k)) == RSA_PRIVATE_BYTES
  {
    var a, b, c := Big(k.e, 1), Big(k.q, WORDS_PRIME), Big(k.d, WORDS_4096);
    var d, e := Big(k.p, WORDS_PRIME), Big(k.n, WORDS_4096);
    OneField(a);
    OneField(b);
    OneField(c);
    OneField(d);
    OneField(e);
    SizeOfFour([a], [b], [c], [d]);
    SizeConcat([a] + [b] + [c] + [d], [e]);
    assert [a] + [b] + [c] + [d] + [e] == RsaPrivateFields(k);
  }

  method ReserveRsaPrivateKey(st: State)
    modifies st`len
    ensures st.len == if st.status == Reserving then old(st.len) + RSA_PRIVATE_BYTES else old(st.len)
  {
    st.ReserveUint64s(1);
    st.ReserveUint64s(32);
    st.ReserveUint64s(64);
    st.ReserveUint64s(32);
    st.ReserveUint64s(64);
  }

  lemma FiveParts(a: Field, b: Field, c: Field, d: Field, e: Field, tail: seq<Field>)
    ensures [a, b, c, d, e] + tail == [a] + ([b] + ([c] + ([d] + ([e] + tail))))
  {}

  method WriteRsaPrivateKey(st: State, k: Rsa.PrivateKey, ghost tail: seq<Field>)
    requires st.Writes() && st.plan == RsaPrivateFields(k) + tail
    modifies st`status, st`offset, st`written, st`plan, st.buf
    ensures st.Writes() && st.plan == tail
  {
    hide AllFit, TotalSize, AllBytes, Fits, Wire.Bytes;
    ghost var b, c := Big(k.q, WORDS_PRIME), Big(k.d, WORDS_4096);
    ghost var d, e := Big(k.p, WORDS_PRIME), Big(k.n, WORDS_4096);
    FiveParts(Big(k.e, 1), b, c, d, e, tail);
    st.WriteUint64s(k.e, 1, [b] + ([c] + ([d] + ([e] + tail))));
    st.WriteUint64s(k.q, WORDS_PRIME, [c] + ([d] + ([e] + tail)));
    st.WriteUint64s(k.d, WORDS_4096, [d] + ([e] + tail));
    st.WriteUint64s(k.p, WORDS_PRIME, [e] + tail);
    st.WriteUint64s(k.n, WORDS_4096, tail);
  }

  method ReadRsaPrivateKey(st: State, ghost k: Rsa.PrivateKey, ghost tail: seq<Field>) returns (r: Rsa.PrivateKey)
    requires st.Reads() && st.plan == RsaPrivateFields(k) + tail
    modifies st`offset, st`plan
    ensures st.Reads() && st.plan == tail && r == k
  {
    hide AllFit, TotalSize, AllBytes, Fits, Wire.Bytes;
    ghost var b, c := Big(k.q, WORDS_PRIME), Big(k.d, WORDS_4096);
    ghost var d, e := Big(k.p, WORDS_PRIME), Big(k.n, WORDS_4096);
    FiveParts(Big(k.e, 1), b, c, d, e, tail);
    var re := st.ReadUint64s(1, Big(k.e, 1), [b] + ([c] + ([d] + ([e] + tail))));
    var rq := st.ReadUint64s(WORDS_PRIME, b, [c] + ([d] + ([e] + tail)));
    var rd := st.ReadUint64s(WORDS_4096, c, [d] + ([e] + tail));
    var rp := st.ReadUint64s(WORDS_PRIME, d, [e] + tail);
    var rn := st.ReadUint64s(WORDS_4096, e, tail);
    r := Rsa.PrivateKey(rn, re, rd, rp, rq);
  }

  method WriteTrusteeState(st: State, s: TrusteeState, ghost tail: seq<Field>)
    requires st.Writes() && st.plan == TrusteeStateFields(s) + tail
    requires s.index < UINT32_LIMIT && |s.coefficients| < UINT32_LIMIT
    modifies st`status, st`offset, st`written, st`plan, st.buf
    ensures st.Writes() && st.plan == tail
  {
    hide AllFit, TotalSize, AllBytes, Fits, Wire.Bytes, Bigs, RsaPrivateFields;
    ghost var b, c := Bigs(s.coefficients, WORDS_4096), RsaPrivateFields(s.rsaKey);
    ghost var d := Bigs(s.myKeyShares, WORDS_SHARE);
    FourParts([U32(s.index), U32(|s.coefficients|)], b, c, d, tail);
    TwoParts(U32(s.index), U32(|s.coefficients|), b + (c + (d + tail)));
    st.WriteUint32(s.index, [U32(|s.coefficients|)] + (b + (c + (d + tail))));
    st.WriteUint32(|s.coefficients|, b + (c + (d + tail)));
    WriteBigs(st, s.coefficients, WORDS_4096, c + (d + tail));
    WriteRsaPrivateKey(st, s.rsaKey, d + tail);
    WriteBigs(st, s.myKeyShares, WORDS_SHARE, tail);
  }

  lemma TwoParts(a: Field, b: Field, tail: seq<Field>)
    ensures [a, b] + tail == [a] + ([b] + tail)
  {}

  /** The number of trustees is not in the message: the reader has to know it. */
  method ReadTrusteeState(st: State, numTrustees: nat, ghost s: TrusteeState, ghost tail: seq<Field>) returns (r: TrusteeState)
    requires st.Reads() && st.plan == TrusteeStateFields(s) + tail && |s.myKeyShares| == numTrustees
    modifies st`offset, st`plan
    ensures st.Reads() && st.plan == tail && r == s
  {
    hide AllFit, TotalSize, AllBytes, Fits, Wire.Bytes, Bigs, RsaPrivateFields;
    ghost var b, c := Bigs(s.coefficients, WORDS_4096), RsaPrivateFields(s.rsaKey);
    ghost var d := Bigs(s.myKeyShares, WORDS_SHARE);
    FourParts([U32(s.index), U32(|s.coefficients|)], b, c, d, tail);
    TwoParts(U32(s.index), U32(|s.coefficients|), b + (c + (d + tail)));
    var index := st.ReadUint32(s.index, [U32(|s.coefficients|)] + (b + (c + (d + tail))));
    var threshold := st.ReadUint32(|s.coefficients|, b + (c + (d + tail)));
    var coefficients := ReadBigs(st, threshold, WORDS_4096, s.coefficients, c + (d + tail));
    var key := ReadRsaPrivateKey(st, s.rsaKey, d + tail);
    var shares := ReadBigs(st, numTrustees, WORDS_SHARE, s.myKeyShares, tail);
    r := TrusteeState(index, coefficients, shares, key);
  }

  /** From the ceremony to decryption: the state arrives as it was exported, or is not exported. */
  method TransmitTrusteeState(s: TrusteeState) returns (ok: bool, message: array?<Byte>, r: TrusteeState)
    requires s.index < UINT32_LIMIT && |s.coefficients| < UINT32_LIMIT
    ensures ok <==> StateFits(s)
    ensures ok ==> r == s
    ensures ok ==>
      && message != null && AllFit(TrusteeStateFields(s))
      && message[..] == AllBytes(TrusteeStateFields(s))
  {
    hide *;
    ghost var fields := TrusteeStateFields(s);
    TrusteeStateCanBeWritten(s);
    TrusteeStateNotEmpty(s);
    assert fields + [] == fields;
    var st := new State();
    ReserveTrusteeState(st, s);
    st.Allocate(fields);
    WriteTrusteeState(st, s, []);
    Finished(st, fields);
    ok, r := st.status == Writing, s;
    message := if ok then st.buf else null;
    if ok {
      var reader := new State.FromBytes(st.buf, fields);
      r := ReadTrusteeState(reader, |s.myKeyShares|, s, []);
    }
  }

  lemma KeyGeneratedNotEmpty(m: KeyGenerated)
    ensures 0 < TotalSize(KeyGeneratedFields(m))
  {
    var rest := KeysFields(m.publicKey, m.rsaKey);
    NotEmpty(U32(m.trusteeIndex), rest);
  }

  lemma TrusteeStateNotEmpty(s: TrusteeState)
    ensures 0 < TotalSize(TrusteeStateFields(s))
  {
    var rest := [U32(|s.coefficients|)] + Bigs(s.coefficients, WORDS_4096)
      + RsaPrivateFields(s.rsaKey) + Bigs(s.myKeyShares, WORDS_SHARE);
    assert TrusteeStateFields(s) == [U32(s.index)] + rest;
    NotEmpty(U32(s.index), rest);
  }

  lemma NotEmpty(f: Field, rest: seq<Field>)
    requires f.U32?
    ensures 0 < TotalSize([f] + rest)
  {
    SizeConcat([f], rest);
    OneField(f);
  }

  lemma TrusteeStateCanBeWritten(s: TrusteeState)
    requires s.index < UINT32_LIMIT && |s.coefficients| < UINT32_LIMIT
    ensures AllFit(TrusteeStateFields(s)) <==> StateFits(s)
  {
    hide Fills, Bigs, AllFit, Fits, RsaPrivateFields;
    var head := [U32(s.index), U32(|s.coefficients|)];
    var key := RsaPrivateFields(s.rsaKey);
    HeadFits(s.index, |s.coefficients|);
    PrivateKeyFits(s.rsaKey);
    BigsFit(s.coefficients, WORDS_4096);
    BigsFit(s.myKeyShares, WORDS_SHARE);
    FitConcat(head, Bigs(s.coefficients, WORDS_4096));
    FitConcat(head + Bigs(s.coefficients, WORDS_4096), key);
    FitConcat(head + Bigs(s.coefficients, WORDS_4096) + key, Bigs(s.myKeyShares, WORDS_SHARE));
  }

  lemma HeadFits(x: nat, y: nat)
    requires x < UINT32_LIMIT && y < UINT32_LIMIT
    ensures AllFit([U32(x), U32(y)])
  {}

  lemma PrivateKeyFits(k: Rsa.PrivateKey)
    ensures AllFit(RsaPrivateFields(k)) <==>
      && Fills(k.e, 1) && Fills(k.q, WORDS_PRIME) && Fills(k.d, WORDS_4096) && Fills(k.p, WORDS_PRIME)
      && Fills(k.n, WORDS_4096)
  {
    hide Fills;
    var key := RsaPrivateFields(k);
    assert AllFit(key) <==>
      Fits(key[0]) && Fits(key[1]) && Fits(key[2]) && Fits(key[3]) && Fits(key[4]);
  }
}

/**
 The messages that are lists: everybody's keys and shares, a trustee's shares and its
 report (serialize/keyceremony.c), tally shares and requests (serialize/decryption.c),
 the joint key and encrypted ballots (serialize/crypto.c).
 */
module SerializeLists {
  import opened Bignum
  import opened Crypto
  import opened Wire
  import opened Serialize
  import opened SerializeMessages
  import opened SerializeOperations
  import opened DecryptionMessages
  import opened Proofs
  import opened KeyCeremonyCoordinator
  import Rsa

  // ---- rows ---------------------------------------------------------------------------------------

  /** The fields of all rows from the i-th on. */
  function Joined(rows: seq<seq<Field>>, i: nat): seq<Field>
    requires i <= |rows|
    decreases |rows| - i
  {
    if i == |rows| then [] else rows[i] + Joined(rows, i + 1)
  }

  lemma {:induction false} JoinedFit(rows: seq<seq<Field>>, i: nat)
    requires i <= |rows|
    ensures AllFit(Joined(rows, i)) <==> forall m :: i <= m < |rows| ==> AllFit(rows[m])
    decreases |rows| - i
  {
    assert AllFit([]);
    hide AllFit;
    if i < |rows| {
      JoinedFit(rows, i + 1);
      FitConcat(rows[i], Joined(rows, i + 1));
      if AllFit(rows[i]) && AllFit(Joined(rows, i + 1)) {
        forall m | i <= m < |rows| ensures AllFit(rows[m]) {}
      }
    }
  }

  lemma NextJoined(rows: seq<seq<Field>>, i: nat, tail: seq<Field>)
    requires i < |rows|
    ensures Joined(rows, i) + tail == rows[i] + (Joined(rows, i + 1) + tail)
    ensures TotalSize(Joined(rows, i)) == TotalSize(rows[i]) + TotalSize(Joined(rows, i + 1))
  {
    SizeConcat(rows[i], Joined(rows, i + 1));
  }

  lemma NoneJoined(rows: seq<seq<Field>>, tail: seq<Field>)
    ensures Joined(rows, |rows|) + tail == tail && TotalSize(Joined(rows, |rows|)) == 0
  {}

  lemma TwoHeads(a: Field, b: Field, rest: seq<Field>, tail: seq<Field>)
    ensures [a, b] + rest + tail == [a] + ([b] + (rest + tail))
    ensures TotalSize([a, b] + rest) == Size(a) + Size(b) + TotalSize(rest)
    ensures AllFit([a, b] + rest) <==> Fits(a) && Fits(b) && AllFit(rest)
  {
    OneField(a);
    OneField(b);
    SizeConcat([a], [b]);
    assert [a] + [b] == [a, b];
    SizeConcat([a, b], rest);
    FitConcat([a], [b]);
    FitConcat([a, b], rest);
  }

  lemma OneHead(a: Field, rest: seq<Field>, tail: seq<Field>)
    ensures [a] + rest + tail == [a] + (rest + tail)
    ensures TotalSize([a] + rest) == Size(a) + TotalSize(rest)
    ensures AllFit([a] + rest) <==> Fits(a) && AllFit(rest)
  {
    OneField(a);
    SizeConcat([a], rest);
    FitConcat([a], rest);
  }

  lemma Prefix<T>(s: seq<T>, i: nat)
    requires i < |s|
    ensures s[..i + 1] == s[..i] + [s[i]]
  {}

  lemma Whole<T>(s: seq<T>)
    ensures s[..|s|] == s
  {}

  // ---- everybody's keys -----------------------------------------------------------------------------

  function KeyRows(m: AllKeys): (r: seq<seq<Field>>)
    requires |m.publicKeys| == |m.rsaKeys|
  {
    seq(|m.publicKeys|, i requires 0 <= i < |m.publicKeys| => KeysFields(m.publicKeys[i], m.rsaKeys[i]))
  }

  function AllKeysFields(m: AllKeys): seq<Field>
    requires |m.publicKeys| == |m.rsaKeys|
  {
    [U32(|m.publicKeys|)] + Joined(KeyRows(m), 0)
  }

  /** Messages as the coordinator makes them: a key of some threshold, with a reduced challenge, for every trustee. */
  predicate AllKeysShaped(m: AllKeys, q: nat) {
    && |m.publicKeys| == |m.rsaKeys| < UINT32_LIMIT
    && forall i :: 0 <= i < |m.publicKeys| ==>
        var k := m.publicKeys[i];
        KeyOfThreshold(k, |k.coefCommitments|) && |k.coefCommitments| < UINT32_LIMIT && k.proof.challenge < q
  }

  lemma AllKeysCanBeWritten(m: AllKeys, q: nat)
    requires AllKeysShaped(m, q)
    ensures AllFit(AllKeysFields(m)) <==> AllKeysFit(m)
  {
    hide PublicKeyFits, RsaKeyFits, KeysFields, AllFit, Fills;
    forall i | 0 <= i < |m.publicKeys|
      ensures AllFit(KeyRows(m)[i]) <==> PublicKeyFits(m.publicKeys[i]) && RsaKeyFits(m.rsaKeys[i])
    {
      KeysCanBeWritten(m.publicKeys[i], m.rsaKeys[i]);
    }
    JoinedFit(KeyRows(m), 0);
    OneHead(U32(|m.publicKeys|), Joined(KeyRows(m), 0), []);
  }

  method ReserveAllKeys(st: State, m: AllKeys, ghost q: nat)
    requires AllKeysShaped(m, q) && st.status == Reserving
    modifies st`len
    ensures st.len == old(st.len) + TotalSize(AllKeysFields(m))
  {
    ghost var rows := KeyRows(m);
    OneHead(U32(|m.publicKeys|), Joined(rows, 0), []);
    hide TotalSize, KeysFields, Joined;
    st.ReserveUint32();
    ghost var start := st.len;
    for i := 0 to |m.publicKeys|
      invariant st.status == Reserving
      invariant st.len + TotalSize(Joined(rows, i)) == start + TotalSize(Joined(rows, 0))
    {
      NextJoined(rows, i, []);
      ReserveKeys(st, m.publicKeys[i], m.rsaKeys[i]);
    }
    NoneJoined(rows, []);
  }

  method WriteAllKeys(st: State, m: AllKeys, ghost q: nat, ghost tail: seq<Field>)
    requires AllKeysShaped(m, q) && st.Writes() && st.plan == AllKeysFields(m) + tail
    modifies st`status, st`offset, st`written, st`plan, st.buf
    ensures st.Writes() && st.plan == tail
  {
    hide AllFit, TotalSize, AllBytes, Fits, Wire.Bytes, KeysFields, Joined;
    ghost var rows := KeyRows(m);
    OneHead(U32(|m.publicKeys|), Joined(rows, 0), tail);
    st.WriteUint32(|m.publicKeys|, Joined(rows, 0) + tail);
    for i := 0 to |m.publicKeys|
      invariant st.Writes() && st.plan == Joined(rows, i) + tail
    {
      NextJoined(rows, i, tail);
      WriteKeys(st, m.publicKeys[i], m.rsaKeys[i], Joined(rows, i + 1) + tail);
    }
    NoneJoined(rows, tail);
  }

  method ReadAllKeys(st: State, q: nat, ghost m: AllKeys, ghost tail: seq<Field>) returns (r: AllKeys)
    requires AllKeysShaped(m, q) && st.Reads() && st.plan == AllKeysFields(m) + tail
    modifies st`offset, st`plan
    ensures st.Reads() && st.plan == tail && r == m
  {
    hide AllFit, TotalSize, AllBytes, Fits, Wire.Bytes, KeysFields, Joined;
    ghost var rows := KeyRows(m);
    OneHead(U32(|m.publicKeys|), Joined(rows, 0), tail);
    var n := st.ReadUint32(|m.publicKeys|, Joined(rows, 0) + tail);
    var keys: seq<PublicKey>, rsaKeys: seq<Rsa.PublicKey> := [], [];
    for i := 0 to n
      invariant st.Reads() && st.plan == Joined(rows, i) + tail
      invariant keys == m.publicKeys[..i] && rsaKeys == m.rsaKeys[..i]
    {
      NextJoined(rows, i, tail);
      var key, rsaKey := ReadKeys(st, q, m.publicKeys[i], m.rsaKeys[i], Joined(rows, i + 1) + tail);
      keys, rsaKeys := keys + [key], rsaKeys + [rsaKey];
      Prefix(m.publicKeys, i);
      Prefix(m.rsaKeys, i);
    }
    NoneJoined(rows, tail);
    Whole(m.publicKeys);
    Whole(m.rsaKeys);
    r := AllKeys(keys, rsaKeys);
  }

  /** Out through the wire and back: the condition is the one the ceremony's coordinator meets. */
  lemma AsManyKeys(m: AllKeys, q: nat)
    requires AllKeysShaped(m, q)
    ensures |m.publicKeys| == |m.rsaKeys|
  {}

  method SerializeAllKeys(m: AllKeys, q: nat) returns (message: array?<Byte>)
    requires AllKeysShaped(m, q)
    ensures message != null <==> AllKeysFit(m)
    ensures message != null ==>
      fresh(message) && AllFit(AllKeysFields(m)) && message[..] == AllBytes(AllKeysFields(m))
  {
    hide *;
    AsManyKeys(m, q);
    ghost var fields := AllKeysFields(m);
    AllKeysCanBeWritten(m, q);
    AllKeysNotEmpty(m);
    assert fields + [] == fields;
    var st := new State();
    ReserveAllKeys(st, m, q);
    st.Allocate(fields);
    WriteAllKeys(st, m, q, []);
    Finished(st, fields);
    message := if st.status == Writing then st.buf else null;
  }

  method TransmitAllKeys(m: AllKeys, q: nat) returns (ok: bool, message: array?<Byte>, r: AllKeys)
    requires AllKeysShaped(m, q)
    ensures ok <==> AllKeysFit(m)
    ensures ok ==> r == m
    ensures ok ==>
      && message != null && AllFit(AllKeysFields(m))
      && message[..] == AllBytes(AllKeysFields(m))
  {
    hide *;
    AsManyKeys(m, q);
    message := SerializeAllKeys(m, q);
    ok, r := message != null, m;
    if ok {
      ghost var fields := AllKeysFields(m);
      assert fields + [] == fields;
      var reader := new State.FromBytes(message, fields);
      r := ReadAllKeys(reader, q, m, []);
    }
  }

  lemma AllKeysNotEmpty(m: AllKeys)
    requires |m.publicKeys| == |m.rsaKeys|
    ensures 0 < TotalSize(AllKeysFields(m))
  {
    NotEmpty(U32(|m.publicKeys|), Joined(KeyRows(m), 0));
  }

  // ---- the shares dealt ---------------------------------------------------------------------------------

  function SharesGeneratedFields(m: SharesGenerated): seq<Field> {
    [U32(|m.shares|), U32(m.trusteeIndex)] + Bigs(m.shares, WORDS_SHARE)
  }

  lemma SharesGeneratedParts(m: SharesGenerated, tail: seq<Field>)
    requires |m.shares| < UINT32_LIMIT && m.trusteeIndex < UINT32_LIMIT
    ensures SharesGeneratedFields(m) + tail
         == [U32(|m.shares|)] + ([U32(m.trusteeIndex)] + (Bigs(m.shares, WORDS_SHARE) + tail))
    ensures TotalSize(SharesGeneratedFields(m)) == 8 + TotalSize(Bigs(m.shares, WORDS_SHARE))
    ensures AllFit(SharesGeneratedFields(m)) <==> SharesFill(m.shares)
  {
    TwoHeads(U32(|m.shares|), U32(m.trusteeIndex), Bigs(m.shares, WORDS_SHARE), tail);
    BigsFit(m.shares, WORDS_SHARE);
    hide AllFit, TotalSize, Bigs, Fills;
    assert SharesFill(m.shares) <==> AllFill(m.shares, WORDS_SHARE);
  }

  method ReserveSharesGenerated(st: State, m: SharesGenerated)
    requires |m.shares| < UINT32_LIMIT && m.trusteeIndex < UINT32_LIMIT
    modifies st`len
    ensures st.len == if st.status == Reserving then old(st.len) + TotalSize(SharesGeneratedFields(m)) else old(st.len)
  {
    hide AllFit, TotalSize, Bigs, SharesFill, SharesGeneratedFields;
    SharesGeneratedParts(m, []);
    st.ReserveUint32();
    st.ReserveUint32();
    ReserveBigs(st, |m.shares|, WORDS_SHARE, m.shares);
  }

  method WriteSharesGenerated(st: State, m: SharesGenerated, ghost tail: seq<Field>)
    requires |m.shares| < UINT32_LIMIT && m.trusteeIndex < UINT32_LIMIT
    requires st.Writes() && st.plan == SharesGeneratedFields(m) + tail
    modifies st`status, st`offset, st`written, st`plan, st.buf
    ensures st.Writes() && st.plan == tail
  {
    hide AllFit, TotalSize, AllBytes, Fits, Wire.Bytes, Bigs, SharesFill, SharesGeneratedFields;
    SharesGeneratedParts(m, tail);
    st.WriteUint32(|m.shares|, [U32(m.trusteeIndex)] + (Bigs(m.shares, WORDS_SHARE) + tail));
    st.WriteUint32(m.trusteeIndex, Bigs(m.shares, WORDS_SHARE) + tail);
    WriteBigs(st, m.shares, WORDS_SHARE, tail);
  }

  method ReadSharesGenerated(st: State, ghost m: SharesGenerated, ghost tail: seq<Field>) returns (r: SharesGenerated)
    requires |m.shares| < UINT32_LIMIT && m.trusteeIndex < UINT32_LIMIT
    requires st.Reads() && st.plan == SharesGeneratedFields(m) + tail
    modifies st`offset, st`plan
    ensures st.Reads() && st.plan == tail && r == m
  {
    hide AllFit, TotalSize, AllBytes, Fits, Wire.Bytes, Bigs, SharesFill, SharesGeneratedFields;
    SharesGeneratedParts(m, tail);
    var n := st.ReadUint32(|m.shares|, [U32(m.trusteeIndex)] + (Bigs(m.shares, WORDS_SHARE) + tail));
    var index := st.ReadUint32(m.trusteeIndex, Bigs(m.shares, WORDS_SHARE) + tail);
    var shares := ReadBigs(st, n, WORDS_SHARE, m.shares, tail);
    r := SharesGenerated(index, shares);
  }

  method TransmitSharesGenerated(m: SharesGenerated) returns (ok: bool, message: array?<Byte>, r: SharesGenerated)
    requires |m.shares| < UINT32_LIMIT && m.trusteeIndex < UINT32_LIMIT
    ensures ok <==> SharesFill(m.shares)
    ensures ok ==> r == m
    ensures ok ==>
      && message != null && AllFit(SharesGeneratedFields(m))
      && message[..] == AllBytes(SharesGeneratedFields(m))
  {
    hide *;
    ghost var fields := SharesGeneratedFields(m);
    SharesGeneratedParts(m, []);
    assert fields + [] == fields;
    var st := new State();
    ReserveSharesGenerated(st, m);
    st.Allocate(fields);
    WriteSharesGenerated(st, m, []);
    Finished(st, fields);
    ok, r := st.status == Writing, m;
    message := if ok then st.buf else null;
    if ok {
      var reader := new State.FromBytes(st.buf, fields);
      r := ReadSharesGenerated(reader, m, []);
    }
  }

  // ---- all shares ---------------------------------------------------------------------------------------

  function ShareRows(m: AllShares): (r: seq<seq<Field>>)
    ensures |r| == |m.shares| && forall i :: 0 <= i < |r| ==> r[i] == Bigs(m.shares[i], WORDS_SHARE)
  {
    seq(|m.shares|, i requires 0 <= i < |m.shares| => Bigs(m.shares[i], WORDS_SHARE))
  }

  function AllSharesFields(m: AllShares): seq<Field> {
    [U32(|m.shares|)] + Joined(ShareRows(m), 0)
  }

  /** A share from every trustee to every trustee. */
  predicate Square(m: AllShares) {
    |m.shares| < UINT32_LIMIT && forall i :: 0 <= i < |m.shares| ==> |m.shares[i]| == |m.shares|
  }

  lemma AllSharesParts(m: AllShares, tail: seq<Field>)
    requires Square(m)
    ensures AllSharesFields(m) + tail == [U32(|m.shares|)] + (Joined(ShareRows(m), 0) + tail)
    ensures TotalSize(AllSharesFields(m)) == 4 + TotalSize(Joined(ShareRows(m), 0))
    ensures AllFit(AllSharesFields(m)) <==> AllSharesFill(m)
  {
    OneHead(U32(|m.shares|), Joined(ShareRows(m), 0), tail);
    JoinedFit(ShareRows(m), 0);
    hide AllFit, TotalSize, Bigs, Fills, Joined;
    forall i | 0 <= i < |m.shares| ensures AllFit(ShareRows(m)[i]) <==> SharesFill(m.shares[i]) {
      BigsFit(m.shares[i], WORDS_SHARE);
      assert SharesFill(m.shares[i]) <==> AllFill(m.shares[i], WORDS_SHARE);
    }
  }

  method ReserveAllShares(st: State, m: AllShares)
    requires Square(m) && st.status == Reserving
    modifies st`len
    ensures st.len == old(st.len) + TotalSize(AllSharesFields(m))
  {
    hide TotalSize, Bigs, Joined, AllFit, AllSharesFields, AllSharesFill;
    ghost var rows := ShareRows(m);
    AllSharesParts(m, []);
    st.ReserveUint32();
    ghost var start := st.len;
    for i := 0 to |m.shares|
      invariant st.status == Reserving
      invariant st.len + TotalSize(Joined(rows, i)) == start + TotalSize(Joined(rows, 0))
    {
      NextJoined(rows, i, []);
      ReserveBigs(st, |m.shares|, WORDS_SHARE, m.shares[i]);
    }
    NoneJoined(rows, []);
  }

  method WriteAllShares(st: State, m: AllShares, ghost tail: seq<Field>)
    requires Square(m) && st.Writes() && st.plan == AllSharesFields(m) + tail
    modifies st`status, st`offset, st`written, st`plan, st.buf
    ensures st.Writes() && st.plan == tail
  {
    hide AllFit, TotalSize, AllBytes, Fits, Wire.Bytes, Bigs, Joined, AllSharesFields, AllSharesFill;
    ghost var rows := ShareRows(m);
    AllSharesParts(m, tail);
    st.WriteUint32(|m.shares|, Joined(rows, 0) + tail);
    for i := 0 to |m.shares|
      invariant st.Writes() && st.plan == Joined(rows, i) + tail
    {
      NextJoined(rows, i, tail);
      WriteBigs(st, m.shares[i], WORDS_SHARE, Joined(rows, i + 1) + tail);
    }
    NoneJoined(rows, tail);
  }

  method ReadAllShares(st: State, ghost m: AllShares, ghost tail: seq<Field>) returns (r: AllShares)
    requires Square(m) && st.Reads() && st.plan == AllSharesFields(m) + tail
    modifies st`offset, st`plan
    ensures st.Reads() && st.plan == tail && r == m
  {
    hide AllFit, TotalSize, AllBytes, Fits, Wire.Bytes, Bigs, Joined, AllSharesFields, AllSharesFill;
    ghost var rows := ShareRows(m);
    AllSharesParts(m, tail);
    var n := st.ReadUint32(|m.shares|, Joined(rows, 0) + tail);
    var shares: seq<seq<nat>> := [];
    for i := 0 to n
      invariant st.Reads() && st.plan == Joined(rows, i) + tail && shares == m.shares[..i]
    {
      NextJoined(rows, i, tail);
      var row := ReadBigs(st, n, WORDS_SHARE, m.shares[i], Joined(rows, i + 1) + tail);
      shares := shares + [row];
      Prefix(m.shares, i);
    }
    NoneJoined(rows, tail);
    Whole(m.shares);
    r := AllShares(shares);
  }

  method TransmitAllShares(m: AllShares) returns (ok: bool, message: array?<Byte>, r: AllShares)
    requires Square(m)
    ensures ok <==> AllSharesFill(m)
    ensures ok ==> r == m
    ensures ok ==>
      && message != null && AllFit(AllSharesFields(m))
      && message[..] == AllBytes(AllSharesFields(m))
  {
    hide *;
    ghost var fields := AllSharesFields(m);
    AllSharesParts(m, []);
    assert fields + [] == fields;
    var st := new State();
    ReserveAllShares(st, m);
    st.Allocate(fields);
    WriteAllShares(st, m, []);
    Finished(st, fields);
    ok, r := st.status == Writing, m;
    message := if ok then st.buf else null;
    if ok {
      var reader := new State.FromBytes(st.buf, fields);
      r := ReadAllShares(reader, m, []);
    }
  }

  // ---- encryptions ----------------------------------------------------------------------------------------

  function EncryptionFields(e: Encryption): seq<Field> {
    [Big(e.nonceEncoding, WORDS_4096), Big(e.messageEncoding, WORDS_4096)]
  }

  function EncryptionRows(es: seq<Encryption>): (r: seq<seq<Field>>)
    ensures |r| == |es| && forall i :: 0 <= i < |r| ==> r[i] == EncryptionFields(es[i])
  {
    seq(|es|, i requires 0 <= i < |es| => EncryptionFields(es[i]))
  }

  lemma OneEncryption(e: Encryption, tail: seq<Field>)
    ensures EncryptionFields(e) + tail == [Big(e.nonceEncoding, WORDS_4096)] + ([Big(e.messageEncoding, WORDS_4096)] + tail)
    ensures TotalSize(EncryptionFields(e)) == 16 * WORDS_4096
    ensures AllFit(EncryptionFields(e)) <==> EncryptionFits(e)
  {
    TwoHeads(Big(e.nonceEncoding, WORDS_4096), Big(e.messageEncoding, WORDS_4096), [], tail);
    assert EncryptionFields(e) + [] == EncryptionFields(e);
  }

  lemma EncryptionsFit(es: seq<Encryption>)
    ensures AllFit(Joined(EncryptionRows(es), 0)) <==> forall i :: 0 <= i < |es| ==> EncryptionFits(es[i])
  {
    JoinedFit(EncryptionRows(es), 0);
    hide AllFit, EncryptionFits, EncryptionFields, Joined;
    forall i | 0 <= i < |es| ensures AllFit(EncryptionRows(es)[i]) <==> EncryptionFits(es[i]) {
      OneEncryption(es[i], []);
    }
  }

  method ReserveEncryptions(st: State, es: seq<Encryption>)
    requires st.status == Reserving
    modifies st`len
    ensures st.len == old(st.len) + TotalSize(Joined(EncryptionRows(es), 0))
  {
    hide TotalSize, Joined, AllFit, EncryptionFields, EncryptionFits;
    ghost var rows, start := EncryptionRows(es), st.len;
    for i := 0 to |es|
      invariant st.status == Reserving
      invariant st.len + TotalSize(Joined(rows, i)) == start + TotalSize(Joined(rows, 0))
    {
      NextJoined(rows, i, []);
      OneEncryption(es[i], []);
      st.ReserveUint64s(WORDS_4096);
      st.ReserveUint64s(WORDS_4096);
    }
    NoneJoined(rows, []);
  }

  method WriteEncryptions(st: State, es: seq<Encryption>, ghost tail: seq<Field>)
    requires st.Writes() && st.plan == Joined(EncryptionRows(es), 0) + tail
    modifies st`status, st`offset, st`written, st`plan, st.buf
    ensures st.Writes() && st.plan == tail
  {
    hide AllFit, TotalSize, AllBytes, Fits, Wire.Bytes, Joined, EncryptionFields, EncryptionFits;
    ghost var rows := EncryptionRows(es);
    for i := 0 to |es|
      invariant st.Writes() && st.plan == Joined(rows, i) + tail
    {
      ghost var rest := Joined(rows, i + 1) + tail;
      NextJoined(rows, i, tail);
      OneEncryption(es[i], rest);
      st.WriteUint64s(es[i].nonceEncoding, WORDS_4096, [Big(es[i].messageEncoding, WORDS_4096)] + rest);
      st.WriteUint64s(es[i].messageEncoding, WORDS_4096, rest);
    }
    NoneJoined(rows, tail);
  }

  method ReadEncryptions(st: State, count: nat, ghost es: seq<Encryption>, ghost tail: seq<Field>) returns (r: seq<Encryption>)
    requires st.Reads() && st.plan == Joined(EncryptionRows(es), 0) + tail && |es| == count
    modifies st`offset, st`plan
    ensures st.Reads() && st.plan == tail && r == es
  {
    hide AllFit, TotalSize, AllBytes, Fits, Wire.Bytes, Joined, EncryptionFields, EncryptionFits;
    ghost var rows := EncryptionRows(es);
    r := [];
    for i := 0 to count
      invariant st.Reads() && st.plan == Joined(rows, i) + tail && r == es[..i]
    {
      ghost var rest := Joined(rows, i + 1) + tail;
      NextJoined(rows, i, tail);
      OneEncryption(es[i], rest);
      var nonce := st.ReadUint64s(WORDS_4096, Big(es[i].nonceEncoding, WORDS_4096), [Big(es[i].messageEncoding, WORDS_4096)] + rest);
      var message := st.ReadUint64s(WORDS_4096, Big(es[i].messageEncoding, WORDS_4096), rest);
      r := r + [Encryption(nonce, message)];
      Prefix(es, i);
    }
    NoneJoined(rows, tail);
    Whole(es);
  }

  // ---- tally shares and ballots -----------------------------------------------------------------------------

  function ShareFields(s: Share): seq<Field> {
    [U32(s.trusteeIndex), U64(|s.tallyShare|)] + Joined(EncryptionRows(s.tallyShare), 0)
  }

  function BallotFields(b: EncryptedBallot): seq<Field> {
    [U64(b.id), U32(|b.selections|)] + Joined(EncryptionRows(b.selections), 0)
  }

  lemma ShareParts(s: Share, tail: seq<Field>)
    requires s.trusteeIndex < UINT32_LIMIT && |s.tallyShare| < WORD
    ensures ShareFields(s) + tail == [U32(s.trusteeIndex)] + ([U64(|s.tallyShare|)] + (Joined(EncryptionRows(s.tallyShare), 0) + tail))
    ensures TotalSize(ShareFields(s)) == 12 + TotalSize(Joined(EncryptionRows(s.tallyShare), 0))
    ensures AllFit(ShareFields(s)) <==> ShareFits(s)
  {
    TwoHeads(U32(s.trusteeIndex), U64(|s.tallyShare|), Joined(EncryptionRows(s.tallyShare), 0), tail);
    EncryptionsFit(s.tallyShare);
    hide EncryptionFits, Joined;
  }

  method ReserveShare(st: State, s: Share)
    requires s.trusteeIndex < UINT32_LIMIT && |s.tallyShare| < WORD && st.status == Reserving
    modifies st`len
    ensures st.len == old(st.len) + TotalSize(ShareFields(s))
  {
    hide *;
    ShareParts(s, []);
    st.ReserveUint32();
    st.ReserveUint64();
    ReserveEncryptions(st, s.tallyShare);
  }

  method WriteShare(st: State, s: Share, ghost tail: seq<Field>)
    requires s.trusteeIndex < UINT32_LIMIT && |s.tallyShare| < WORD && st.Writes() && st.plan == ShareFields(s) + tail
    modifies st`status, st`offset, st`written, st`plan, st.buf
    ensures st.Writes() && st.plan == tail
  {
    hide *;
    ghost var rows := Joined(EncryptionRows(s.tallyShare), 0) + tail;
    ShareParts(s, tail);
    st.WriteUint32(s.trusteeIndex, [U64(|s.tallyShare|)] + rows);
    st.WriteUint64(|s.tallyShare|, rows);
    WriteEncryptions(st, s.tallyShare, tail);
  }

  method ReadShare(st: State, ghost s: Share, ghost tail: seq<Field>) returns (r: Share)
    requires s.trusteeIndex < UINT32_LIMIT && |s.tallyShare| < WORD && st.Reads() && st.plan == ShareFields(s) + tail
    modifies st`offset, st`plan
    ensures st.Reads() && st.plan == tail && r == s
  {
    hide *;
    ghost var rows := Joined(EncryptionRows(s.tallyShare), 0) + tail;
    ShareParts(s, tail);
    var first := st.ReadUint32(s.trusteeIndex, [U64(|s.tallyShare|)] + rows);
    var n := st.ReadUint64(|s.tallyShare|, rows);
    var encryptions := ReadEncryptions(st, n, s.tallyShare, tail);
    r := Share(first, encryptions);
  }

  /** The condition is the one decryption's coordinator meets. */
  method TransmitShare(s: Share) returns (ok: bool, message: array?<Byte>, r: Share)
    requires s.trusteeIndex < UINT32_LIMIT && |s.tallyShare| < WORD
    ensures ok <==> ShareFits(s)
    ensures ok ==> r == s
    ensures ok ==>
      && message != null && AllFit(ShareFields(s))
      && message[..] == AllBytes(ShareFields(s))
  {
    hide *;
    ghost var fields := ShareFields(s);
    ShareParts(s, []);
    assert fields + [] == fields;
    var st := new State();
    ReserveShare(st, s);
    st.Allocate(fields);
    WriteShare(st, s, []);
    Finished(st, fields);
    ok, r := st.status == Writing, s;
    message := if ok then st.buf else null;
    if ok {
      var reader := new State.FromBytes(st.buf, fields);
      r := ReadShare(reader, s, []);
    }
  }

  lemma BallotParts(b: EncryptedBallot, tail: seq<Field>)
    requires b.id < WORD && |b.selections| < UINT32_LIMIT
    ensures BallotFields(b) + tail == [U64(b.id)] + ([U32(|b.selections|)] + (Joined(EncryptionRows(b.selections), 0) + tail))
    ensures TotalSize(BallotFields(b)) == 12 + TotalSize(Joined(EncryptionRows(b.selections), 0))
    ensures AllFit(BallotFields(b)) <==> BallotFits(b.selections)
  {
    TwoHeads(U64(b.id), U32(|b.selections|), Joined(EncryptionRows(b.selections), 0), tail);
    EncryptionsFit(b.selections);
    hide EncryptionFits, Joined;
  }

  method ReserveBallot(st: State, b: EncryptedBallot)
    requires b.id < WORD && |b.selections| < UINT32_LIMIT && st.status == Reserving
    modifies st`len
    ensures st.len == old(st.len) + TotalSize(BallotFields(b))
  {
    hide *;
    BallotParts(b, []);
    st.ReserveUint64();
    st.ReserveUint32();
    ReserveEncryptions(st, b.selections);
  }

  method WriteBallot(st: State, b: EncryptedBallot, ghost tail: seq<Field>)
    requires b.id < WORD && |b.selections| < UINT32_LIMIT && st.Writes() && st.plan == BallotFields(b) + tail
    modifies st`status, st`offset, st`written, st`plan, st.buf
    ensures st.Writes() && st.plan == tail
  {
    hide *;
    ghost var rows := Joined(EncryptionRows(b.selections), 0) + tail;
    BallotParts(b, tail);
    st.WriteUint64(b.id, [U32(|b.selections|)] + rows);
    st.WriteUint32(|b.selections|, rows);
    WriteEncryptions(st, b.selections, tail);
  }

  method ReadBallot(st: State, ghost b: EncryptedBallot, ghost tail: seq<Field>) returns (r: EncryptedBallot)
    requires b.id < WORD && |b.selections| < UINT32_LIMIT && st.Reads() && st.plan == BallotFields(b) + tail
    modifies st`offset, st`plan
    ensures st.Reads() && st.plan == tail && r == b
  {
    hide *;
    ghost var rows := Joined(EncryptionRows(b.selections), 0) + tail;
    BallotParts(b, tail);
    var first := st.ReadUint64(b.id, [U32(|b.selections|)] + rows);
    var n := st.ReadUint32(|b.selections|, rows);
    var encryptions := ReadEncryptions(st, n, b.selections, tail);
    r := EncryptedBallot(first, encryptions);
  }

  /** The ballot's bytes, or none if a number does not fill its words. */
  method SerializeBallot(b: EncryptedBallot) returns (message: array?<Byte>)
    requires b.id < WORD && |b.selections| < UINT32_LIMIT
    ensures message != null <==> BallotFits(b.selections)
    ensures message != null ==> fresh(message) && AllFit(BallotFields(b)) && message[..] == AllBytes(BallotFields(b))
  {
    hide *;
    ghost var fields := BallotFields(b);
    BallotParts(b, []);
    assert fields + [] == fields;
    var st := new State();
    ReserveBallot(st, b);
    st.Allocate(fields);
    WriteBallot(st, b, []);
    Finished(st, fields);
    message := if st.status == Writing then st.buf else null;
  }

  /** Serialize_deserialize_register_ballot_message */
  method DeserializeBallot(message: array<Byte>, ghost b: EncryptedBallot) returns (r: EncryptedBallot)
    requires b.id < WORD && |b.selections| < UINT32_LIMIT
    requires AllFit(BallotFields(b)) && message[..] == AllBytes(BallotFields(b))
    ensures r == b
  {
    hide *;
    ghost var fields := BallotFields(b);
    assert fields + [] == fields;
    var reader := new State.FromBytes(message, fields);
    r := ReadBallot(reader, b, []);
  }

  /** The condition is the one the encrypter meets. */
  method TransmitBallot(b: EncryptedBallot) returns (ok: bool, message: array?<Byte>, r: EncryptedBallot)
    requires b.id < WORD && |b.selections| < UINT32_LIMIT
    ensures ok <==> BallotFits(b.selections)
    ensures ok ==> r == b
    ensures ok ==>
      && message != null && AllFit(BallotFields(b))
      && message[..] == AllBytes(BallotFields(b))
  {
    hide *;
    message := SerializeBallot(b);
    ok, r := message != null, b;
    if ok {
      r := DeserializeBallot(message, b);
    }
  }

  // ---- requests ---------------------------------------------------------------------------------------------

  function Flags(requested: seq<bool>): (r: seq<Field>)
    ensures |r| == |requested| && forall i :: 0 <= i < |r| ==> r[i] == Flag(requested[i])
  {
    seq(|requested|, i requires 0 <= i < |requested| => Flag(requested[i]))
  }

  function RequestFields(m: Request): seq<Field> {
    [U32(|m.requested|)] + Flags(m.requested)
  }

  lemma {:induction false} FlagsSize(requested: seq<bool>)
    ensures TotalSize(Flags(requested)) == |requested| && AllFit(Flags(requested))
  {
    if requested != [] {
      var n := |requested| - 1;
      FlagsSize(requested[..n]);
      assert Flags(requested)[..n] == Flags(requested[..n]);
    }
  }

  lemma RequestParts(m: Request, tail: seq<Field>)
    requires |m.requested| < UINT32_LIMIT
    ensures RequestFields(m) + tail == [U32(|m.requested|)] + (Flags(m.requested) + tail)
    ensures TotalSize(RequestFields(m)) == 4 + |m.requested| && AllFit(RequestFields(m))
  {
    OneHead(U32(|m.requested|), Flags(m.requested), tail);
    FlagsSize(m.requested);
  }

  lemma NextFlag(requested: seq<bool>, i: nat, tail: seq<Field>)
    requires i < |requested|
    ensures Flags(requested)[i..] + tail == [Flag(requested[i])] + (Flags(requested)[i + 1..] + tail)
  {}

  method ReserveRequest(st: State, m: Request)
    requires |m.requested| < UINT32_LIMIT && st.status == Reserving
    modifies st`len
    ensures st.len == old(st.len) + TotalSize(RequestFields(m))
  {
    hide *;
    RequestParts(m, []);
    st.ReserveUint32();
    ghost var start := st.len;
    for i := 0 to |m.requested|
      invariant st.status == Reserving && st.len == start + i
    {
      st.ReserveBool();
    }
  }

  method WriteRequest(st: State, m: Request, ghost tail: seq<Field>)
    requires |m.requested| < UINT32_LIMIT && st.Writes() && st.plan == RequestFields(m) + tail
    modifies st`status, st`offset, st`written, st`plan, st.buf
    ensures st.Writes() && st.plan == tail
  {
    hide *;
    ghost var flags := Flags(m.requested);
    RequestParts(m, tail);
    assert flags[0..] == flags;
    st.WriteUint32(|m.requested|, flags + tail);
    for i := 0 to |m.requested|
      invariant st.Writes() && st.plan == flags[i..] + tail
    {
      NextFlag(m.requested, i, tail);
      st.WriteBool(m.requested[i], flags[i + 1..] + tail);
    }
    assert flags[|flags|..] + tail == tail;
  }

  method ReadRequest(st: State, ghost m: Request, ghost tail: seq<Field>) returns (r: Request)
    requires |m.requested| < UINT32_LIMIT && st.Reads() && st.plan == RequestFields(m) + tail
    modifies st`offset, st`plan
    ensures st.Reads() && st.plan == tail && r == m
  {
    hide *;
    ghost var flags := Flags(m.requested);
    RequestParts(m, tail);
    assert flags[0..] == flags;
    var n := st.ReadUint32(|m.requested|, flags + tail);
    var requested: seq<bool> := [];
    for i := 0 to n
      invariant st.Reads() && st.plan == flags[i..] + tail && requested == m.requested[..i]
    {
      NextFlag(m.requested, i, tail);
      var flag := st.ReadBool(m.requested[i], flags[i + 1..] + tail);
      requested := requested + [flag];
      Prefix(m.requested, i);
    }
    assert flags[|flags|..] + tail == tail;
    Whole(m.requested);
    r := Request(requested);
  }

  /** A request can always be sent. */
  method TransmitRequest(m: Request) returns (ok: bool, message: array?<Byte>, r: Request)
    requires |m.requested| < UINT32_LIMIT
    ensures ok && r == m
    ensures ok ==>
      && message != null && AllFit(RequestFields(m))
      && message[..] == AllBytes(RequestFields(m))
  {
    hide *;
    ghost var fields := RequestFields(m);
    RequestParts(m, []);
    assert fields + [] == fields;
    var st := new State();
    ReserveRequest(st, m);
    st.Allocate(fields);
    WriteRequest(st, m, []);
    Finished(st, fields);
    ok, r := st.status == Writing, m;
    message := if ok then st.buf else null;
    if ok {
      var reader := new State.FromBytes(st.buf, fields);
      r := ReadRequest(reader, m, []);
    }
  }

  // ---- the joint key and the reports ------------------------------------------------------------------------

  /** The joint key, with the number of trustees. */
  method TransmitJointKey(numTrustees: nat, key: int) returns (ok: bool, message: array?<Byte>, n: nat, r: int)
    requires numTrustees < UINT32_LIMIT
    ensures ok <==> Fills(key, WORDS_4096)
    ensures ok ==> n == numTrustees && r == key
    ensures ok ==>
      && message != null && AllFit([U32(numTrustees), Big(key, WORDS_4096)])
      && message[..] == AllBytes([U32(numTrustees), Big(key, WORDS_4096)])
  {
    hide *;
    ghost var a, b := U32(numTrustees), Big(key, WORDS_4096);
    PairParts(a, b);
    KeyFits(numTrustees, key);
    var st := new State();
    st.ReserveUint32();
    st.ReserveUint64s(WORDS_4096);
    st.Allocate([a, b]);
    st.WriteUint32(numTrustees, [b]);
    st.WriteUint64s(key, WORDS_4096, []);
    Finished(st, [a, b]);
    ok, n, r := st.status == Writing, numTrustees, key;
    message := if ok then st.buf else null;
    if ok {
      var reader := new State.FromBytes(st.buf, [a, b]);
      n := reader.ReadUint32(numTrustees, [b]);
      r := reader.ReadUint64s(WORDS_4096, b, []);
    }
  }

  lemma PairParts(a: Field, b: Field)
    ensures [a, b] == [a] + [b] && [b] == [b] + [] && TotalSize([a, b]) == Size(a) + Size(b)
    ensures AllFit([a, b]) <==> Fits(a) && Fits(b)
  {
    TwoHeads(a, b, [], []);
    assert [a, b] + [] == [a, b];
  }

  lemma KeyFits(n: nat, key: int)
    requires n < UINT32_LIMIT
    ensures Fits(U32(n)) && (Fits(Big(key, WORDS_4096)) <==> Fills(key, WORDS_4096))
    ensures Size(U32(n)) == 4 && Size(Big(key, WORDS_4096)) == 8 * WORDS_4096
  {}

  /** A report can always be sent. */
  method TransmitSharesVerified(m: SharesVerified) returns (ok: bool, message: array?<Byte>, r: SharesVerified)
    requires m.trusteeIndex < UINT32_LIMIT
    ensures ok && r == m
    ensures ok ==>
      && message != null && AllFit([U32(m.trusteeIndex), Flag(m.verified)])
      && message[..] == AllBytes([U32(m.trusteeIndex), Flag(m.verified)])
  {
    hide *;
    ghost var a, b := U32(m.trusteeIndex), Flag(m.verified);
    PairParts(a, b);
    ReportFits(m);
    var st := new State();
    st.ReserveUint32();
    st.ReserveBool();
    st.Allocate([a, b]);
    st.WriteUint32(m.trusteeIndex, [b]);
    st.WriteBool(m.verified, []);
    Finished(st, [a, b]);
    ok, r := st.status == Writing, m;
    message := if ok then st.buf else null;
    if ok {
      var reader := new State.FromBytes(st.buf, [a, b]);
      var index := reader.ReadUint32(m.trusteeIndex, [b]);
      var verified := reader.ReadBool(m.verified, []);
      r := SharesVerified(index, verified);
    }
  }

  lemma ReportFits(m: SharesVerified)
    requires m.trusteeIndex < UINT32_LIMIT
    ensures Fits(U32(m.trusteeIndex)) && Fits(Flag(m.verified))
    ensures Size(U32(m.trusteeIndex)) == 4 && Size(Flag(m.verified)) == 1
  {}
}

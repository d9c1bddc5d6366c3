/**
 The ballot encrypter (voting/encrypter.c): every selection is encrypted and
 proved to be zero or one, and the ballot's total is proved to be the expected
 one. The proofs are checked on the spot.
 */
module Encrypter {
  import opened Arithmetic
  import opened Primes
  import opened Group
  import opened Crypto
  import opened Proofs
  import opened DecryptionMessages
  import opened Publication
  import Serial = SerializeLists
  import Sha = Sha256
  import ShaContext = Sha256Context
  import Wire

  datatype EncrypterStatus = EncrypterSuccess | SelectionError | UnknownError | EncrypterSerializeError

  /** The random draws for one selection. */
  datatype SelectionDraws = SelectionDraws(nonce: nat, proof: DisDraws)

  const UINT64: nat := 0x1_0000_0000_0000_0000

  function Vote(selected: bool): int {
    if selected then 1 else 0
  }

  function Votes(selections: seq<bool>): (r: seq<int>)
    ensures |r| == |selections| && forall i :: 0 <= i < |r| ==> r[i] == Vote(selections[i])
  {
    seq(|selections|, i requires 0 <= i < |selections| => Vote(selections[i]))
  }

  function Nonces(draws: seq<SelectionDraws>): (r: seq<int>)
    ensures |r| == |draws| && forall i :: 0 <= i < |r| ==> r[i] == draws[i].nonce
  {
    seq(|draws|, i requires 0 <= i < |draws| => draws[i].nonce as int)
  }

  function EncryptSelection(G: Group, jointKey: int, selected: bool, nonce: nat): Encryption
    requires G.Positive()
  {
    Encrypt(G, jointKey, nonce, if selected then G.g else 1)
  }

  function EncryptAll(G: Group, jointKey: int, selections: seq<bool>, draws: seq<SelectionDraws>): (r: seq<Encryption>)
    requires G.Positive() && |selections| == |draws|
    ensures |r| == |selections|
    ensures forall i :: 0 <= i < |r| ==> r[i] == EncryptSelection(G, jointKey, selections[i], draws[i].nonce)
  {
    seq(|selections|, i requires 0 <= i < |selections| => EncryptSelection(G, jointKey, selections[i], draws[i].nonce))
  }

  lemma SelectionEncrypts(G: Group, s: int, selected: bool, nonce: nat)
    requires G.Valid()
    ensures Encrypts(G, s, EncryptSelection(G, G.Exp(G.g, s), selected, nonce), nonce, Vote(selected))
  {
    ExpOne(G, G.g);
    EncryptEncrypts(G, s, nonce, Vote(selected));
  }

  /** The ballot encrypts the selections, under the key whose secret is s. */
  lemma BallotEncryptsSelections(G: Group, s: int, cast: bool, selections: seq<bool>, draws: seq<SelectionDraws>)
    requires G.Valid() && |selections| == |draws|
    ensures BallotEncrypts(G, s, Ballot(cast, EncryptAll(G, G.Exp(G.g, s), selections, draws)),
                           Nonces(draws), Votes(selections), |selections|)
  {
    forall i | 0 <= i < |selections|
      ensures Encrypts(G, s, EncryptAll(G, G.Exp(G.g, s), selections, draws)[i], Nonces(draws)[i], Votes(selections)[i])
    {
      SelectionEncrypts(G, s, selections[i], draws[i].nonce);
    }
  }

  lemma {:induction false} VotesCount(selections: seq<bool>)
    ensures Sum(Votes(selections)) == |Listed(selections)|
  {
    if selections != [] {
      var n := |selections| - 1;
      VotesCount(selections[..n]);
      assert Votes(selections)[..n] == Votes(selections[..n]);
    }
  }

  /** Bytes of a message as the digest takes them. */
  function Octets(bytes: seq<Wire.Byte>): (r: seq<Sha.Byte>)
    ensures |r| == |bytes|
  {
    seq(|bytes|, i requires 0 <= i < |bytes| => bytes[i] as bv8)
  }

  class VotingEncrypter {
    const G: Group
    const hash: Oracle
    const baseHash: int
    const jointKey: int
    const numSelections: nat
    /** The secret behind the joint key. */
    ghost const s: int
    var encryptedBallotCount: nat

    ghost predicate Valid()
      reads this
    {
      && G.Valid() && OracleInRange(G, hash) && jointKey == G.Exp(G.g, s)
      && encryptedBallotCount < UINT64 && numSelections < Wire.UINT32_LIMIT
    }

    constructor (G: Group, hash: Oracle, baseHash: int, jointKey: int, numSelections: nat, ghost s: int)
      requires G.Valid() && OracleInRange(G, hash) && jointKey == G.Exp(G.g, s) && numSelections < Wire.UINT32_LIMIT
      ensures Valid() && encryptedBallotCount == 0
      ensures this.G == G && this.hash == hash && this.baseHash == baseHash && this.jointKey == jointKey
      ensures this.numSelections == numSelections && this.s == s
    {
      this.G, this.hash, this.baseHash := G, hash, baseHash;
      this.jointKey, this.numSelections, this.s := jointKey, numSelections, s;
      this.encryptedBallotCount := 0;
    }

    static method ValidateSelections(selections: seq<bool>, expected: nat) returns (ok: bool)
      ensures ok <==> |Listed(selections)| == expected
    {
      var count := 0;
      for i := 0 to |selections|
        invariant count == |Listed(selections[..i])|
      {
        assert selections[..i + 1][..i] == selections[..i];
        if selections[i] {
          count := count + 1;
        }
      }
      assert selections[..|selections|] == selections;
      ok := count == expected;
    }

    /**
     The ballot is made if the selections are as many as expected. None of the
     checks of its own proofs ever fails: UnknownError is not a possible outcome.
     The tracker is the digest of the bytes of the message.
     */
    method EncryptBallot(selections: seq<bool>, expected: nat, draws: seq<SelectionDraws>, u: nat)
      returns (status: EncrypterStatus, ballot: EncryptedBallot, message: array?<Wire.Byte>, tracker: array?<Sha.Byte>)
      requires Valid() && |selections| == |draws| == numSelections
      modifies this
      ensures Valid()
      ensures ballot.id == old(encryptedBallotCount)
      ensures |Listed(selections)| != expected ==> status == SelectionError
      ensures |Listed(selections)| == expected ==>
        && ballot.selections == EncryptAll(G, jointKey, selections, draws)
        && BallotEncrypts(G, s, Ballot(true, ballot.selections), Nonces(draws), Votes(selections), numSelections)
        && status == (if BallotFits(ballot.selections) then EncrypterSuccess else EncrypterSerializeError)
      ensures status == EncrypterSuccess ==>
        && message != null && fresh(message) && Wire.AllFit(Serial.BallotFields(ballot))
        && message[..] == Wire.AllBytes(Serial.BallotFields(ballot))
        && tracker != null && fresh(tracker) && tracker[..] == Sha.Digest(Octets(message[..]))
      ensures encryptedBallotCount ==
        (if status == EncrypterSuccess then (old(encryptedBallotCount) + 1) % UINT64 else old(encryptedBallotCount))
    {
      hide BallotEncrypts, BallotFits, EncryptAll, Wire.AllFit, Wire.AllBytes, Serial.BallotFields, Sha.Digest, Octets;
      var id := encryptedBallotCount;
      message, tracker := null, null;
      status := EncrypterSuccess;
      var encrypted: seq<Encryption> := [];
      var valid := ValidateSelections(selections, expected);
      if !valid {
        status := SelectionError;
      }
      ballot := EncryptedBallot(id, encrypted);
      if status == EncrypterSuccess {
        status, encrypted := EncryptSelections(selections, expected, draws, u);
        BallotEncryptsSelections(G, s, true, selections, draws);
        ballot := EncryptedBallot(id, encrypted);
        message := Serial.SerializeBallot(ballot);
        if message == null {
          status := EncrypterSerializeError;
        }
      }
      if status == EncrypterSuccess {
        tracker := TrackerOf(message);
        encryptedBallotCount := (encryptedBallotCount + 1) % UINT64;
      }
    }

    static method OctetArray(bytes: array<Wire.Byte>) returns (octets: array<Sha.Byte>)
      ensures fresh(octets) && octets[..] == Octets(bytes[..])
    {
      octets := new Sha.Byte[bytes.Length](i requires 0 <= i < bytes.Length reads bytes => bytes[i] as bv8);
    }

    static method TrackerOf(message: array<Wire.Byte>) returns (tracker: array<Sha.Byte>)
      ensures fresh(tracker) && tracker[..] == Sha.Digest(Octets(message[..]))
    {
      hide *;
      var octets := OctetArray(message);
      var context := new ShaContext.Context();
      context.Init();
      context.Update(octets, 0, octets.Length, []);
      assert [] + octets[0..octets.Length] == octets[..];
      tracker := new Sha.Byte[32];
      context.Final(tracker, octets[..]);
    }

    /** The loop over the selections and the proof of the total. */
    method EncryptSelections(selections: seq<bool>, expected: nat, draws: seq<SelectionDraws>, u: nat)
      returns (status: EncrypterStatus, encrypted: seq<Encryption>)
      requires Valid() && |selections| == |draws| == numSelections && |Listed(selections)| == expected
      ensures status == EncrypterSuccess
      ensures encrypted == EncryptAll(G, jointKey, selections, draws)
    {
      status := EncrypterSuccess;
      encrypted := [];
      var tally := ZERO;
      var aggregateNonce: nat := 0;
      ghost var nonces, votes := Nonces(draws), Votes(selections);
      NothingRunning(G, s, nonces, votes);
      hide Encrypts, EncryptSelection, HomomorphicAdd, Cong, IsPrime, G.AddModQ, Running, OracleInRange;
      for i := 0 to numSelections
        invariant |encrypted| == i && status == EncrypterSuccess
        invariant forall j :: 0 <= j < i ==>
          encrypted[j] == EncryptSelection(G, jointKey, selections[j], draws[j].nonce)
        invariant Running(G, s, tally, aggregateNonce, nonces, votes, i)
      {
        var nonce := draws[i].nonce;
        var selection := EncryptSelection(G, jointKey, selections[i], nonce);
        SelectionEncrypts(G, s, selections[i], nonce);
        AddToRunning(G, s, tally, aggregateNonce, selection, nonce, nonces, votes, i);
        encrypted := encrypted + [selection];
        tally := HomomorphicAdd(G, tally, selection);
        if i == 0 {
          aggregateNonce := nonce;
        } else {
          aggregateNonce := G.AddModQ(aggregateNonce, nonce);
        }
        var accepted := ProveSelection(selection, selections[i], draws[i]);
        if !accepted {
          status := UnknownError;
        }
      }
      assert nonces[..numSelections] == nonces && votes[..numSelections] == votes;
      VotesCount(selections);
      AllRunning(G, s, tally, aggregateNonce, nonces, votes);
      var accepted := ProveTotal(tally, aggregateNonce, u, expected, Sum(nonces));
      if !accepted {
        status := UnknownError;
      }
    }

    /** The disjunctive proof of a selection just encrypted is accepted. */
    method ProveSelection(selection: Encryption, selected: bool, draws: SelectionDraws) returns (accepted: bool)
      requires Valid() && Encrypts(G, s, selection, draws.nonce, Vote(selected))
      ensures accepted
    {
      var proof := GenerateDisProof(G, hash, baseHash, draws.proof, selected, jointKey, selection, draws.nonce);
      DisProofComplete(G, hash, baseHash, draws.proof, selected, s, selection, draws.nonce);
      accepted := CheckDisProof(G, proof, selection, jointKey);
    }

    /** So is the proof of the total, if the total is the expected one. */
    method ProveTotal(tally: Encryption, nonce: nat, u: nat, expected: nat, ghost r: int) returns (accepted: bool)
      requires Valid() && Encrypts(G, s, tally, r, expected) && Cong(nonce, r, G.q)
      ensures accepted
    {
      var proof := GenerateAggregateCpProof(G, hash, baseHash, u, nonce, tally, jointKey);
      AggregateProofComplete(G, hash, baseHash, u, nonce, s, r, expected, tally);
      accepted := CheckAggregateCpProof(G, hash, proof, tally, baseHash, jointKey, expected);
    }
  }

  /** The running tally and the aggregate nonce after i selections. */
  ghost predicate Running(G: Group, s: int, tally: Encryption, aggregate: nat, nonces: seq<int>, votes: seq<int>, i: nat)
    requires G.Positive() && i <= |nonces| == |votes|
  {
    Encrypts(G, s, tally, Sum(nonces[..i]), Sum(votes[..i])) && Cong(aggregate, Sum(nonces[..i]), G.q)
  }

  lemma NothingRunning(G: Group, s: int, nonces: seq<int>, votes: seq<int>)
    requires G.Valid() && |nonces| == |votes|
    ensures Running(G, s, ZERO, 0, nonces, votes, 0)
  {
    ZeroEncrypts(G, s);
    CongMod(0, G.q);
    assert nonces[..0] == [] && votes[..0] == [];
  }

  lemma AddToRunning(G: Group, s: int, tally: Encryption, aggregate: nat, selection: Encryption, nonce: nat,
                     nonces: seq<int>, votes: seq<int>, i: nat)
    requires G.Valid() && i < |nonces| == |votes| && nonces[i] == nonce
    requires Running(G, s, tally, aggregate, nonces, votes, i) && Encrypts(G, s, selection, nonce, votes[i])
    ensures Running(G, s, HomomorphicAdd(G, tally, selection), if i == 0 then nonce else G.AddModQ(aggregate, nonce),
                    nonces, votes, i + 1)
  {
    hide Encrypts, Cong, HomomorphicAdd;
    AddSelection(G, s, tally, selection, nonces, votes, i);
    AddNonce(G, aggregate, nonces, i, nonce);
  }

  lemma AllRunning(G: Group, s: int, tally: Encryption, aggregate: nat, nonces: seq<int>, votes: seq<int>)
    requires G.Positive() && |nonces| == |votes| && Running(G, s, tally, aggregate, nonces, votes, |nonces|)
    ensures Encrypts(G, s, tally, Sum(nonces), Sum(votes)) && Cong(aggregate, Sum(nonces), G.q)
  {
    assert nonces[..|nonces|] == nonces && votes[..|votes|] == votes;
  }

  lemma AddSelection(G: Group, s: int, tally: Encryption, selection: Encryption, nonces: seq<int>, votes: seq<int>, i: nat)
    requires G.Valid() && i < |nonces| == |votes|
    requires Encrypts(G, s, tally, Sum(nonces[..i]), Sum(votes[..i]))
    requires Encrypts(G, s, selection, nonces[i], votes[i])
    ensures Encrypts(G, s, HomomorphicAdd(G, tally, selection), Sum(nonces[..i + 1]), Sum(votes[..i + 1]))
  {
    assert nonces[..i + 1][..i] == nonces[..i] && votes[..i + 1][..i] == votes[..i];
    hide Encrypts;
    AddEncrypts(G, s, tally, Sum(nonces[..i]), Sum(votes[..i]), selection, nonces[i], votes[i]);
  }

  /** The aggregate nonce: the first one as it is, then sums modulo q. */
  lemma AddNonce(G: Group, aggregate: nat, nonces: seq<int>, i: nat, nonce: nat)
    requires G.Positive() && i < |nonces| && nonces[i] == nonce && Cong(aggregate, Sum(nonces[..i]), G.q)
    ensures Cong(if i == 0 then nonce else G.AddModQ(aggregate, nonce), Sum(nonces[..i + 1]), G.q)
  {
    assert nonces[..i + 1][..i] == nonces[..i];
    CongMod(aggregate + nonce, G.q);
    CongAdd(aggregate, Sum(nonces[..i]), nonce, nonce, G.q);
    if i == 0 {
      assert nonces[..0] == [];
    }
  }
}

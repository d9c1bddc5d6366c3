/**
 The key-ceremony coordinator (keyceremony/coordinator.c): it takes one message
 from every trustee in each of three phases, and between phases sends all of them
 to everybody. Each method of the class is specified by a function on its state.
 */
module KeyCeremonyCoordinator {
  import opened Group
  import opened Bignum
  import opened Crypto
  import opened Proofs
  import opened DecryptionMessages
  import opened DecryptionCoordinator
  import Rsa

  datatype KeyGenerated = KeyGenerated(trusteeIndex: nat, publicKey: PublicKey, rsaKey: Rsa.PublicKey)
  datatype AllKeys = AllKeys(publicKeys: seq<PublicKey>, rsaKeys: seq<Rsa.PublicKey>)
  datatype SharesGenerated = SharesGenerated(trusteeIndex: nat, shares: seq<nat>)
  datatype AllShares = AllShares(shares: seq<seq<nat>>)
  datatype SharesVerified = SharesVerified(trusteeIndex: nat, verified: bool)

  datatype KeyStatus =
    | KeySuccess | KeyInvalidParams | KeyInvalidTrusteeIndex | KeyDuplicateTrusteeIndex
    | KeyMissingTrustees | KeyTrusteeInvalidation | KeySerializeError | KeyDeserializeError

  // ---- what the wire carries ----------------------------------------------------------------

  const WORDS_SHARE: nat := 12
  const WORDS_PRIME: nat := 32

  predicate AllFill(xs: seq<int>, words: nat) {
    forall i :: 0 <= i < |xs| ==> Fills(xs[i], words)
  }

  predicate PublicKeyFits(k: PublicKey) {
    && AllFill(k.coefCommitments, WORDS_4096)
    && AllFill(k.proof.commitments, WORDS_4096)
    && Fills(k.proof.challenge, WORDS_256)
    && forall i :: 0 <= i < |k.proof.responses| ==> Fills(k.proof.responses[i], WORDS_256)
  }

  predicate RsaKeyFits(k: Rsa.PublicKey) {
    Fills(k.n, WORDS_4096) && Fills(k.e, 1)
  }

  predicate AllKeysFit(m: AllKeys) {
    && (forall i :: 0 <= i < |m.publicKeys| ==> PublicKeyFits(m.publicKeys[i]))
    && forall i :: 0 <= i < |m.rsaKeys| ==> RsaKeyFits(m.rsaKeys[i])
  }

  predicate SharesFill(shares: seq<nat>) {
    forall i :: 0 <= i < |shares| ==> Fills(shares[i], WORDS_SHARE)
  }

  predicate AllSharesFill(m: AllShares) {
    forall i :: 0 <= i < |m.shares| ==> SharesFill(m.shares[i])
  }

  /** A key as everybody expects it: all its parts are as long as the threshold. */
  predicate KeyOfThreshold(k: PublicKey, threshold: nat) {
    |k.coefCommitments| == |k.proof.commitments| == |k.proof.responses| == threshold
  }

  // ---- the state and its steps ----------------------------------------------------------------

  datatype KState = KState(
    numTrustees: nat,
    threshold: nat,
    seen: seq<bool>,
    publicKeys: seq<PublicKey>,
    rsaKeys: seq<Rsa.PublicKey>,
    shares: seq<seq<nat>>)
  {
    predicate Valid() {
      && 1 <= threshold <= numTrustees
      && |seen| == |publicKeys| == |rsaKeys| == |shares| == numTrustees
      && (forall i :: 0 <= i < numTrustees ==> KeyOfThreshold(publicKeys[i], threshold))
      && forall i :: 0 <= i < numTrustees ==> |shares[i]| == numTrustees
    }
  }

  function BlankKey(threshold: nat): PublicKey {
    PublicKey(Repeated(0, threshold), SchnorrProof(Repeated(0, threshold), 0, Repeated(0, threshold)))
  }

  function InitialKeys(numTrustees: nat, threshold: nat): KState {
    KState(numTrustees, threshold, Repeated(false, numTrustees),
           Repeated(BlankKey(threshold), numTrustees), Repeated(Rsa.PublicKey(0, 0), numTrustees),
           Repeated(Repeated(0, numTrustees), numTrustees))
  }

  function IndexUnseen(c: KState, i: nat): KeyStatus
    requires c.Valid()
  {
    if i >= c.numTrustees then KeyInvalidTrusteeIndex
    else if c.seen[i] then KeyDuplicateTrusteeIndex
    else KeySuccess
  }

  /** A key is stored if its trustee has not been seen and its proof holds. */
  ghost function AfterKeyGenerated(G: Group, c: KState, m: KeyGenerated): (KeyStatus, KState)
    requires G.Positive() && c.Valid() && KeyOfThreshold(m.publicKey, c.threshold)
  {
    var status := IndexUnseen(c, m.trusteeIndex);
    if status != KeySuccess then (status, c)
    else if !KeypairProofHolds(G, m.publicKey) then (KeyTrusteeInvalidation, c)
    else (KeySuccess, c.(
      seen := c.seen[m.trusteeIndex := true],
      publicKeys := c.publicKeys[m.trusteeIndex := m.publicKey],
      rsaKeys := c.rsaKeys[m.trusteeIndex := m.rsaKey]))
  }

  function AfterSharesGenerated(c: KState, m: SharesGenerated): (KeyStatus, KState)
    requires c.Valid() && |m.shares| == c.numTrustees
  {
    var status := IndexUnseen(c, m.trusteeIndex);
    if status != KeySuccess then (status, c)
    else (KeySuccess, c.(
      seen := c.seen[m.trusteeIndex := true],
      shares := c.shares[m.trusteeIndex := m.shares]))
  }

  /** The trustee is marked as seen whatever it reports. */
  function AfterSharesVerified(c: KState, m: SharesVerified): (KeyStatus, KState)
    requires c.Valid()
  {
    var status := IndexUnseen(c, m.trusteeIndex);
    if status != KeySuccess then (status, c)
    else (if m.verified then KeySuccess else KeyTrusteeInvalidation,
          c.(seen := c.seen[m.trusteeIndex := true]))
  }

  function ClearSeen(c: KState): KState {
    c.(seen := Repeated(false, c.numTrustees))
  }

  function AfterAllKeysReceived(c: KState): (KeyStatus, KState)
    requires c.Valid()
  {
    if !AllSet(c.seen) then (KeyMissingTrustees, c)
    else (if AllKeysFit(AllKeys(c.publicKeys, c.rsaKeys)) then KeySuccess else KeySerializeError, ClearSeen(c))
  }

  function AfterAllSharesReceived(c: KState): (KeyStatus, KState)
    requires c.Valid()
  {
    if !AllSet(c.seen) then (KeyMissingTrustees, c)
    else (if AllSharesFill(AllShares(c.shares)) then KeySuccess else KeySerializeError, ClearSeen(c))
  }

  function FirstCommitments(keys: seq<PublicKey>): seq<int>
    requires forall k :: k in keys ==> 0 < |k.coefCommitments|
  {
    seq(|keys|, i requires 0 <= i < |keys| => keys[i].coefCommitments[0])
  }

  function JointKeyOf(G: Group, c: KState): int
    requires G.Positive() && c.Valid()
  {
    ProductModP(G, FirstCommitments(c.publicKeys))
  }

  // ---- one message per trustee and phase --------------------------------------------------------

  /** The phase of the keys, for messages arriving in any order and number. */
  ghost function AfterKeys(G: Group, c: KState, ms: seq<KeyGenerated>): (r: KState)
    requires G.Positive() && c.Valid() && forall m :: m in ms ==> KeyOfThreshold(m.publicKey, c.threshold)
    ensures r.Valid() && r.numTrustees == c.numTrustees && r.threshold == c.threshold
  {
    if ms == [] then c
    else AfterKeyGenerated(G, AfterKeys(G, c, ms[..|ms| - 1]), ms[|ms| - 1]).1
  }

  /** The first message from trustee i whose proof holds. */
  ghost function FirstKey(G: Group, ms: seq<KeyGenerated>, i: nat): Option<KeyGenerated>
    requires G.Positive()
  {
    if ms == [] then None
    else
      var before, last := FirstKey(G, ms[..|ms| - 1], i), ms[|ms| - 1];
      if before.Some? then before
      else if last.trusteeIndex == i && KeypairProofHolds(G, last.publicKey) then Some(last)
      else None
  }

  /**
   After any messages, every trustee is counted once: it has been seen, and its keys
   are stored, exactly as of its first message with a proof that holds. Refused and
   repeated messages have left nothing behind.
   */
  lemma {:induction false} KeysAreFirst(G: Group, n: nat, k: nat, ms: seq<KeyGenerated>, i: nat)
    requires G.Positive() && 1 <= k <= n && i < n && forall m :: m in ms ==> KeyOfThreshold(m.publicKey, k)
    ensures
      var c := AfterKeys(G, InitialKeys(n, k), ms);
      && (c.seen[i] <==> FirstKey(G, ms, i).Some?)
      && (c.seen[i] ==>
            && c.publicKeys[i] == FirstKey(G, ms, i).value.publicKey
            && c.rsaKeys[i] == FirstKey(G, ms, i).value.rsaKey
            && KeypairProofHolds(G, c.publicKeys[i]))
  {
    if ms != [] {
      KeysAreFirst(G, n, k, ms[..|ms| - 1], i);
      hide KeypairProofHolds;
    }
  }

  function AfterShareMessages(c: KState, ms: seq<SharesGenerated>): (r: KState)
    requires c.Valid() && forall m :: m in ms ==> |m.shares| == c.numTrustees
    ensures r.Valid() && r.numTrustees == c.numTrustees && r.publicKeys == c.publicKeys
  {
    if ms == [] then c
    else AfterSharesGenerated(AfterShareMessages(c, ms[..|ms| - 1]), ms[|ms| - 1]).1
  }

  function FirstShares(ms: seq<SharesGenerated>, i: nat): Option<seq<nat>> {
    if ms == [] then None
    else
      var before, last := FirstShares(ms[..|ms| - 1], i), ms[|ms| - 1];
      if before.Some? then before
      else if last.trusteeIndex == i then Some(last.shares)
      else None
  }

  /** After any messages, the shares kept for a trustee are those of its first message. */
  lemma {:induction false} SharesAreFirst(c: KState, ms: seq<SharesGenerated>, i: nat)
    requires c.Valid() && i < c.numTrustees && !c.seen[i] && forall m :: m in ms ==> |m.shares| == c.numTrustees
    ensures
      var r := AfterShareMessages(c, ms);
      && (r.seen[i] <==> FirstShares(ms, i).Some?)
      && r.shares[i] == (if r.seen[i] then FirstShares(ms, i).value else c.shares[i])
  {
    if ms != [] {
      SharesAreFirst(c, ms[..|ms| - 1], i);
    }
  }

  /** The trustees reporting in turn, whatever they report. */
  function AfterReports(c: KState, reports: seq<bool>): KState
    requires c.Valid() && |reports| <= c.numTrustees
    ensures AfterReports(c, reports).Valid() && AfterReports(c, reports).numTrustees == c.numTrustees
  {
    if reports == [] then c
    else
      var i := |reports| - 1;
      AfterSharesVerified(AfterReports(c, reports[..i]), SharesVerified(i, reports[i])).1
  }

  /**
   The joint key is published for any reports at all, refusals included: only the
   status of each step tells, so the driver has to stop at the first refusal.
   */
  lemma {:induction false} RefusalsDoNotPreventPublication(c: KState, reports: seq<bool>)
    requires c.Valid() && |reports| <= c.numTrustees && c.seen == Repeated(false, c.numTrustees)
    ensures forall i :: 0 <= i < c.numTrustees ==> (AfterReports(c, reports).seen[i] <==> i < |reports|)
    ensures AllSet(AfterReports(c, reports).seen) <==> |reports| == c.numTrustees
    ensures AfterReports(c, reports).publicKeys == c.publicKeys
  {
    if reports != [] {
      RefusalsDoNotPreventPublication(c, reports[..|reports| - 1]);
    }
    if |reports| < c.numTrustees {
      assert !AfterReports(c, reports).seen[|reports|];
    }
  }

  // ---- the coordinator object ---------------------------------------------------------------------

  class KeyCoordinator {
    const G: Group
    const numTrustees: nat
    const threshold: nat
    var seen: seq<bool>
    var publicKeys: seq<PublicKey>
    var rsaKeys: seq<Rsa.PublicKey>
    var shares: seq<seq<nat>>

    ghost function State(): KState
      reads this
    {
      KState(numTrustees, threshold, seen, publicKeys, rsaKeys, shares)
    }

    ghost predicate Valid()
      reads this
    {
      G.Valid() && State().Valid()
    }

    constructor (G: Group, numTrustees: nat, threshold: nat)
      requires G.Valid() && 1 <= threshold <= numTrustees
      ensures Valid() && this.G == G && State() == InitialKeys(numTrustees, threshold)
    {
      this.G, this.numTrustees, this.threshold := G, numTrustees, threshold;
      this.seen := Repeated(false, numTrustees);
      this.publicKeys := Repeated(BlankKey(threshold), numTrustees);
      this.rsaKeys := Repeated(Rsa.PublicKey(0, 0), numTrustees);
      this.shares := Repeated(Repeated(0, numTrustees), numTrustees);
    }

    static method New(G: Group, numTrustees: nat, threshold: nat) returns (status: KeyStatus, c: KeyCoordinator?)
      requires G.Valid()
      ensures status == (if 1 <= threshold <= numTrustees <= MAX_TRUSTEES then KeySuccess else KeyInvalidParams)
      ensures status == KeySuccess <==> c != null
      ensures c != null ==> fresh(c) && c.Valid() && c.G == G && c.State() == InitialKeys(numTrustees, threshold)
    {
      if !(1 <= threshold && threshold <= numTrustees && numTrustees <= MAX_TRUSTEES) {
        return KeyInvalidParams, null;
      }
      c := new KeyCoordinator(G, numTrustees, threshold);
      status := KeySuccess;
    }

    method AssertIndexUnseen(i: nat) returns (status: KeyStatus)
      requires Valid()
      ensures status == IndexUnseen(State(), i)
    {
      if i >= numTrustees {
        return KeyInvalidTrusteeIndex;
      } else if seen[i] {
        return KeyDuplicateTrusteeIndex;
      } else {
        return KeySuccess;
      }
    }

    method AssertAllSeen() returns (result: KeyStatus)
      requires Valid()
      ensures result == if AllSet(seen) then KeySuccess else KeyMissingTrustees
    {
      result := KeySuccess;
      var i := 0;
      while i < numTrustees && result == KeySuccess
        invariant i <= numTrustees
        invariant result == KeySuccess || result == KeyMissingTrustees
        invariant result == KeySuccess <==> forall j :: 0 <= j < i ==> seen[j]
      {
        if !seen[i] {
          result := KeyMissingTrustees;
        }
        i := i + 1;
      }
    }

    /** A message that the reader gave up on (`intact` is false) is refused and leaves nothing behind. */
    method ReceiveKeyGenerated(m: KeyGenerated, intact: bool) returns (status: KeyStatus)
      requires Valid() && KeyOfThreshold(m.publicKey, threshold)
      modifies this
      ensures Valid()
      ensures (status, State()) ==
        if intact then AfterKeyGenerated(G, old(State()), m) else (KeyDeserializeError, old(State()))
      ensures intact && m.trusteeIndex >= numTrustees ==> status == KeyInvalidTrusteeIndex
      ensures intact && m.trusteeIndex < numTrustees && old(seen)[m.trusteeIndex] ==> status == KeyDuplicateTrusteeIndex
      ensures status == KeyTrusteeInvalidation <==>
        intact && m.trusteeIndex < numTrustees && !old(seen)[m.trusteeIndex] && !KeypairProofHolds(G, m.publicKey)
      ensures status == KeySuccess <==>
        intact && m.trusteeIndex < numTrustees && !old(seen)[m.trusteeIndex] && KeypairProofHolds(G, m.publicKey)
      ensures status != KeySuccess ==> State() == old(State())
      ensures status == KeySuccess ==>
        seen[m.trusteeIndex] && publicKeys[m.trusteeIndex] == m.publicKey && rsaKeys[m.trusteeIndex] == m.rsaKey
    {
      status := if intact then KeySuccess else KeyDeserializeError;
      if status == KeySuccess {
        status := AssertIndexUnseen(m.trusteeIndex);
      }
      if status == KeySuccess {
        var holds := CheckKeypairProof(G, m.publicKey);
        if !holds {
          status := KeyTrusteeInvalidation;
        }
      }
      if status == KeySuccess {
        seen := seen[m.trusteeIndex := true];
        publicKeys := publicKeys[m.trusteeIndex := m.publicKey];
        rsaKeys := rsaKeys[m.trusteeIndex := m.rsaKey];
      }
    }

    method AllKeysReceived() returns (status: KeyStatus, message: AllKeys)
      requires Valid()
      modifies this
      ensures Valid()
      ensures (status, State()) == AfterAllKeysReceived(old(State()))
      ensures status == KeySuccess ==> message == AllKeys(publicKeys, rsaKeys)
      ensures status == KeyMissingTrustees <==> exists i :: 0 <= i < numTrustees && !old(seen)[i]
      ensures status == KeyMissingTrustees ==> State() == old(State())
      ensures status != KeyMissingTrustees ==> State() == old(State()).(seen := seen) && forall i :: 0 <= i < numTrustees ==> !seen[i]
    {
      message := AllKeys([], []);
      status := AssertAllSeen();
      if status == KeySuccess {
        seen := Repeated(false, numTrustees);
        message := AllKeys(publicKeys, rsaKeys);
        if !AllKeysFit(message) {
          status := KeySerializeError;
        }
      }
    }

    /**
     The reader's error is overwritten by the next check: whatever has been read, in full
     or not, is taken like any other message.
     */
    method ReceiveSharesGenerated(m: SharesGenerated, intact: bool) returns (status: KeyStatus)
      requires Valid() && |m.shares| == numTrustees
      modifies this
      ensures Valid()
      ensures (status, State()) == AfterSharesGenerated(old(State()), m)
      ensures status == KeyInvalidTrusteeIndex <==> m.trusteeIndex >= numTrustees
      ensures status == KeyDuplicateTrusteeIndex <==> m.trusteeIndex < numTrustees && old(seen)[m.trusteeIndex]
      ensures status == KeySuccess <==> m.trusteeIndex < numTrustees && !old(seen)[m.trusteeIndex]
      ensures status != KeySuccess ==> State() == old(State())
      ensures status == KeySuccess ==> seen[m.trusteeIndex] && shares[m.trusteeIndex] == m.shares
    {
      status := if intact then KeySuccess else KeyDeserializeError;
      status := AssertIndexUnseen(m.trusteeIndex);
      if status == KeySuccess {
        seen := seen[m.trusteeIndex := true];
        shares := shares[m.trusteeIndex := m.shares];
      }
    }

    method AllSharesReceived() returns (status: KeyStatus, message: AllShares)
      requires Valid()
      modifies this
      ensures Valid()
      ensures (status, State()) == AfterAllSharesReceived(old(State()))
      ensures status == KeySuccess ==> message == AllShares(shares)
      ensures status == KeyMissingTrustees <==> exists i :: 0 <= i < numTrustees && !old(seen)[i]
      ensures status == KeyMissingTrustees ==> State() == old(State())
      ensures status != KeyMissingTrustees ==> State() == old(State()).(seen := seen) && forall i :: 0 <= i < numTrustees ==> !seen[i]
    {
      message := AllShares([]);
      status := AssertAllSeen();
      if status == KeySuccess {
        seen := Repeated(false, numTrustees);
        message := AllShares(shares);
        if !AllSharesFill(message) {
          status := KeySerializeError;
        }
      }
    }

    /** The reader's error is overwritten here as well. */
    method ReceiveSharesVerified(m: SharesVerified, intact: bool) returns (status: KeyStatus)
      requires Valid()
      modifies this
      ensures Valid()
      ensures (status, State()) == AfterSharesVerified(old(State()), m)
      ensures status == KeyInvalidTrusteeIndex <==> m.trusteeIndex >= numTrustees
      ensures status == KeyDuplicateTrusteeIndex <==> m.trusteeIndex < numTrustees && old(seen)[m.trusteeIndex]
      ensures status == KeyTrusteeInvalidation <==>
        m.trusteeIndex < numTrustees && !old(seen)[m.trusteeIndex] && !m.verified
      ensures status == KeySuccess <==> m.trusteeIndex < numTrustees && !old(seen)[m.trusteeIndex] && m.verified
      ensures seen == if m.trusteeIndex < numTrustees then old(seen)[m.trusteeIndex := true] else old(seen)
    {
      status := if intact then KeySuccess else KeyDeserializeError;
      status := AssertIndexUnseen(m.trusteeIndex);
      if status == KeySuccess {
        seen := seen[m.trusteeIndex := true];
      }
      if status == KeySuccess {
        if !m.verified {
          status := KeyTrusteeInvalidation;
        }
      }
    }

    method PublishJointKey() returns (status: KeyStatus, key: int)
      requires Valid()
      ensures status == (
        if !AllSet(seen) then KeyMissingTrustees
        else if Fills(JointKeyOf(G, State()), WORDS_4096) then KeySuccess
        else KeySerializeError)
      ensures status == KeySuccess ==> key == JointKeyOf(G, State())
      ensures status == KeyMissingTrustees <==> exists i :: 0 <= i < numTrustees && !seen[i]
    {
      key := 0;
      status := AssertAllSeen();
      if status == KeySuccess {
        var commitments := seq(|publicKeys|, i requires 0 <= i < |publicKeys| reads this =>
                               publicKeys[i].coefCommitments);
        key := GenerateJointPublicKey(G, commitments);
        assert seq(|commitments|, i requires 0 <= i < |commitments| => commitments[i][0])
            == FirstCommitments(publicKeys);
        if !Fills(key, WORDS_4096) {
          status := KeySerializeError;
        }
      }
    }
  }
}

/**
 The steps of API_CreateElection on the coordinator and trustee objects. When the
 run returns true every trustee has been counted once in every phase, and the keys
 and states it hands out are the ones its draws determine.
 */
module CeremonyDriver {
  import opened Arithmetic
  import opened Group
  import opened Bignum
  import opened Interpolation
  import opened Crypto
  import opened Proofs
  import opened DecryptionMessages
  import opened DecryptionCoordinator
  import opened KeyCeremonyCoordinator
  import opened KeyCeremonyTrustee
  import opened CreateElection
  import Rsa

  /** Exactly the first i trustees have been seen. */
  predicate SeenTo(seen: seq<bool>, i: nat) {
    forall j :: 0 <= j < |seen| ==> (seen[j] <==> j < i)
  }

  lemma AllSeen(seen: seq<bool>)
    requires SeenTo(seen, |seen|)
    ensures AllSet(seen)
  {}

  class ElectionApi {
    ghost const C: Ceremony
    const G: Group
    const n: nat
    const k: nat
    var coordinator: KeyCoordinator?
    var trustees: seq<KeyTrustee>

    constructor (G: Group, n: nat, k: nat, ghost C: Ceremony)
      requires C.Usable() && C.G == G && C.n == n && C.k == k
      ensures this.C == C && Fits() && this.G == G && this.n == n && this.k == k
      ensures coordinator == null && trustees == []
    {
      this.C, this.G, this.n, this.k := C, G, n, k;
      this.coordinator, this.trustees := null, [];
    }

    ghost predicate Fits() {
      C.Usable() && C.G == G && C.n == n && C.k == k
    }

    /** Every place of the table has its own trustee. */
    ghost predicate Placed()
      reads this
    {
      |trustees| == n && forall i :: 0 <= i < n ==> trustees[i].index == i
    }

    // ---- what is known of one trustee after each phase --------------------------------------

    ghost predicate Fresh(i: nat)
      requires i < |trustees|
      reads this, trustees[i]
    {
      trustees[i].Valid() && trustees[i].G == G && trustees[i].numTrustees == n
      && trustees[i].threshold == k && trustees[i].index == i
    }

    ghost predicate HasKeys(i: nat)
      requires Fits() && i < |trustees| <= n
      reads this, trustees[i]
    {
      && Fresh(i)
      && trustees[i].coefficients == C.draws[i].coefficients && trustees[i].rsaKey == C.draws[i].rsaKey
      && trustees[i].publicKeys[i] == C.Key(i)
    }

    ghost predicate KnowsKeys(i: nat)
      requires Fits() && i < |trustees| <= n
      reads this, trustees[i]
    {
      HasKeys(i) && trustees[i].publicKeys == C.Keys()
    }

    ghost predicate HasShares(i: nat)
      requires Fits() && i < |trustees| <= n
      reads this, trustees[i]
    {
      KnowsKeys(i) && trustees[i].myKeyShares == C.Received(i)
    }

    /** What is known of trustee i after this many phases. */
    ghost predicate Stands(phase: nat, i: nat)
      requires Fits() && i < |trustees| <= n
      reads this, trustees[i]
    {
      if phase == 0 then Fresh(i) else if phase == 1 then HasKeys(i)
      else if phase == 2 then KnowsKeys(i) else HasShares(i)
    }

    ghost predicate StandsAt(phase: nat, i: nat, j: nat)
      requires Fits() && j < |trustees| <= n
      reads this, trustees[j]
    {
      if j < i then Stands(phase + 1, j) else Stands(phase, j)
    }

    /** The first i trustees have gone through the next phase as well. */
    ghost predicate Seats(phase: nat, i: nat)
      reads this, trustees
    {
      Fits() && Placed() && forall j :: 0 <= j < n ==> StandsAt(phase, i, j)
    }

    lemma Standing(phase: nat, i: nat)
      requires Seats(phase, i) && i < n
      ensures Fits() && Placed() && |trustees| == n && Stands(phase, i)
      ensures forall j :: 0 <= j < n && j != i ==> trustees[j] != trustees[i]
    {
      hide Stands;
      assert StandsAt(phase, i, i);
    }

    lemma Exporting(i: nat)
      requires Seats(3, 0) && i < n
      ensures Fits() && |trustees| == n && Stands(3, i)
    {
      hide Stands;
      assert StandsAt(3, 0, i);
    }

    lemma NextPhase(phase: nat)
      requires Seats(phase, n)
      ensures Seats(phase + 1, 0)
    {
      hide Stands;
      var next := phase + 1;
      forall j | 0 <= j < n ensures StandsAt(next, 0, j) {
        assert StandsAt(phase, n, j);
      }
    }

    // ---- the steps --------------------------------------------------------------------------

    method InitializeCoordinator() returns (ok: bool)
      requires Fits()
      modifies this`coordinator
      ensures ok <==> C.ParametersAccepted()
      ensures ok ==>
        && coordinator != null && fresh(coordinator) && coordinator.Valid() && coordinator.G == G
        && coordinator.State() == InitialKeys(n, k)
    {
      var status, c := KeyCoordinator.New(G, n, k);
      ok := status == KeySuccess;
      if ok {
        coordinator := c;
      }
    }

    method InitializeTrustees() returns (ok: bool)
      requires Fits() && C.ParametersAccepted() && trustees == []
      modifies this`trustees
      ensures ok && Placed()
      ensures Seats(0, 0) && forall i :: 0 <= i < n ==> fresh(trustees[i])
    {
      for i := 0 to n
        invariant |trustees| == i
        invariant forall j :: 0 <= j < i ==> fresh(trustees[j]) && Fresh(j)
      {
        var status, t := KeyTrustee.New(G, n, k, i);
        trustees := trustees + [t];
      }
      ok := true;
    }

    ghost predicate KeyMessageFits(i: nat)
      requires Fits() && i < n
    {
      KeyGeneratedFits(KeyGenerated(i, C.Key(i), C.RsaKeys()[i]))
    }

    ghost predicate DealtFits(i: nat)
      requires Fits() && i < n
    {
      SharesFill(C.Dealt(i))
    }

    ghost predicate ExportFits(i: nat)
      requires Fits() && i < n
    {
      StateFits(C.StateOf(i))
    }

    /** So far everything could be sent: the key messages, the shares and the states of the first i trustees. */
    ghost predicate KeysFitTo(i: nat)
      requires Fits() && i <= n
    {
      forall j :: 0 <= j < i ==> KeyMessageFits(j)
    }

    lemma NextKeyFits(i: nat)
      requires Fits() && i < n
      ensures KeysFitTo(i + 1) <==> KeysFitTo(i) && KeyMessageFits(i)
    {
      hide KeyMessageFits;
    }

    ghost predicate DealtFitTo(i: nat)
      requires Fits() && i <= n
    {
      forall j :: 0 <= j < i ==> DealtFits(j)
    }

    ghost predicate ExportFitTo(i: nat)
      requires Fits() && i <= n
    {
      forall j :: 0 <= j < i ==> ExportFits(j)
    }

    /** The states of the first i trustees. */
    ghost predicate Exported(states: seq<TrusteeState>, i: nat)
      requires Fits() && i <= n
    {
      |states| == i && forall j :: 0 <= j < i ==> states[j] == C.StateOf(j)
    }

    lemma SucceedsWhenAllFits()
      requires Fits() && C.ParametersAccepted()
      ensures C.Succeeds() <==>
        && (forall i :: 0 <= i < n ==> KeyMessageFits(i)) && (forall i :: 0 <= i < n ==> DealtFits(i))
        && Fills(C.JointKey(), WORDS_4096) && (forall i :: 0 <= i < n ==> ExportFits(i))
    {
      hide KeyGeneratedFits, SharesFill, StateFits, Fills;
      assert forall i :: 0 <= i < n ==> (KeyMessageFits(i) <==> KeyGeneratedFits(KeyGenerated(i, C.Key(i), C.RsaKeys()[i])));
      assert forall i :: 0 <= i < n ==> (DealtFits(i) <==> SharesFill(C.Dealt(i)));
      assert forall i :: 0 <= i < n ==> (ExportFits(i) <==> StateFits(C.StateOf(i)));
    }

    /** The message with everybody's keys can be written if every single one could. */
    lemma KeysFitTogether()
      requires Fits() && forall i :: 0 <= i < n ==> KeyMessageFits(i)
      ensures AllKeysFit(AllKeys(C.Keys(), C.RsaKeys()))
    {
      hide PublicKeyFits, RsaKeyFits;
      forall i | 0 <= i < n ensures PublicKeyFits(C.Keys()[i]) && RsaKeyFits(C.RsaKeys()[i]) {
        assert KeyMessageFits(i);
      }
    }

    /** The coordinator after the keys of the first i trustees. */
    ghost predicate KeysReceived(s: KState, i: nat)
      requires Fits() && i <= n
    {
      && s.Valid() && s.numTrustees == n && s.threshold == k && SeenTo(s.seen, i)
      && forall j :: 0 <= j < i ==> s.publicKeys[j] == C.Key(j) && s.rsaKeys[j] == C.RsaKeys()[j]
    }

    method GenerateKey(draws: Draws, hash: Oracle, baseHash: int, i: nat) returns (ok: bool)
      requires Fits() && |trustees| == n && i < n && Stands(0, i) && draws == C.draws[i]
      requires hash == C.hash && baseHash == C.baseHash
      requires coordinator != null && coordinator.Valid() && coordinator.G == G
      requires KeysReceived(coordinator.State(), i)
      modifies coordinator, trustees[i]
      ensures coordinator.Valid() && Stands(1, i)
      ensures ok <==> KeyMessageFits(i)
      ensures ok ==> KeysReceived(coordinator.State(), i + 1)
    {
      ok := true;
      var status, m := trustees[i].GenerateKey(hash, baseHash, draws);
      if status != TrusteeSuccess {
        ok := false;
      }
      if ok {
        var received := coordinator.ReceiveKeyGenerated(m, true);
        if received != KeySuccess {
          ok := false;
        }
      }
    }

    /** The same, and the other trustees stand where they stood. */
    method KeyStep(draws: Draws, hash: Oracle, baseHash: int, i: nat) returns (ok: bool)
      requires Fits() && i < n && Seats(0, i) && draws == C.draws[i] && hash == C.hash && baseHash == C.baseHash
      requires coordinator != null && coordinator.Valid() && coordinator.G == G
      requires KeysReceived(coordinator.State(), i) && KeysFitTo(i)
      modifies coordinator, trustees
      ensures coordinator.Valid() && Seats(0, i + 1)
      ensures ok <==> KeysFitTo(i + 1)
      ensures ok ==> KeysReceived(coordinator.State(), i + 1)
    {
      hide Stands, KeysReceived, KeyMessageFits, DealtFits, SharesReceived, ReportsReceived, InitialKeys;
      hide C.Usable, C.Dealt, C.Keys, Fits, Placed, KeysFitTo;
      Standing(0, i);
      ok := GenerateKey(draws, hash, baseHash, i);
      var next := i + 1;
      forall j | 0 <= j < n ensures StandsAt(0, next, j) {
        if j != i {
          assert old(StandsAt(0, i, j));
        }
      }
      NextKeyFits(i);
    }

    method GenerateKeys(draws: seq<Draws>, hash: Oracle, baseHash: int) returns (ok: bool)
      requires Fits() && C.ParametersAccepted() && Seats(0, 0)
      requires draws == C.draws && hash == C.hash && baseHash == C.baseHash
      requires coordinator != null && coordinator.Valid() && coordinator.G == G
      requires coordinator.State() == InitialKeys(n, k)
      modifies coordinator, trustees
      ensures coordinator.Valid()
      ensures ok <==> KeysFitTo(n)
      ensures ok ==> KeysReceived(coordinator.State(), n) && Seats(0, n)
    {
      ok := true;
      assert KeysReceived(coordinator.State(), 0) && KeysFitTo(0) && |draws| == |trustees| == n;
      hide Stands, KeysReceived, KeyMessageFits, DealtFits, SharesReceived, ReportsReceived, InitialKeys;
      hide C.Usable, C.Dealt, C.Keys, Fits, Placed, Seats, KeysFitTo, DealtFitTo;
      var i := 0;
      while i < n && ok
        invariant i <= n && coordinator.Valid()
        invariant ok <==> KeysFitTo(i)
        invariant ok ==> KeysReceived(coordinator.State(), i)
        invariant Seats(0, i)
      {
        ok := KeyStep(draws[i], hash, baseHash, i);
        i := i + 1;
      }
    }

    /** The coordinator after the shares of the first i trustees. */
    ghost predicate SharesReceived(s: KState, i: nat)
      requires Fits() && i <= n
    {
      && s.Valid() && s.numTrustees == n && s.threshold == k && SeenTo(s.seen, i)
      && s.publicKeys == C.Keys()
      && forall j :: 0 <= j < i ==> s.shares[j] == C.Dealt(j)
    }

    method ReceiveKeys() returns (ok: bool, message: AllKeys)
      requires Fits() && C.ParametersAccepted() && KeysFitTo(n)
      requires coordinator != null && coordinator.Valid() && coordinator.G == G
      requires KeysReceived(coordinator.State(), n)
      modifies coordinator
      ensures coordinator.Valid()
      ensures ok && message == AllKeys(C.Keys(), C.RsaKeys())
      ensures SharesReceived(coordinator.State(), 0)
    {
      AllSeen(coordinator.seen);
      KeysFitTogether();
      assert coordinator.publicKeys == C.Keys() && coordinator.rsaKeys == C.RsaKeys();
      hide AllKeysFit, KeyMessageFits;
      var status;
      status, message := coordinator.AllKeysReceived();
      ok := status == KeySuccess;
    }

    method GenerateShare(message: AllKeys, i: nat) returns (ok: bool)
      requires Fits() && |trustees| == n && i < n && Stands(1, i)
      requires message == AllKeys(C.Keys(), C.RsaKeys())
      requires coordinator != null && coordinator.Valid() && coordinator.G == G
      requires SharesReceived(coordinator.State(), i)
      modifies coordinator, trustees[i]
      ensures coordinator.Valid() && Stands(2, i)
      ensures ok <==> DealtFits(i)
      ensures ok ==> SharesReceived(coordinator.State(), i + 1)
    {
      ok := true;
      var status, m := trustees[i].GenerateShares(message);
      assert m.shares == C.Dealt(i);
      if status != TrusteeSuccess {
        ok := false;
      }
      if ok {
        var received := coordinator.ReceiveSharesGenerated(m, true);
        if received != KeySuccess {
          ok := false;
        }
      }
    }

    /** The same, and the other trustees stand where they stood. */
    method ShareStep(message: AllKeys, i: nat) returns (ok: bool)
      requires Fits() && i < n && Seats(1, i) && message == AllKeys(C.Keys(), C.RsaKeys())
      requires coordinator != null && coordinator.Valid() && coordinator.G == G
      requires SharesReceived(coordinator.State(), i) && DealtFitTo(i)
      modifies coordinator, trustees
      ensures coordinator.Valid() && Seats(1, i + 1)
      ensures ok <==> DealtFitTo(i + 1)
      ensures ok ==> SharesReceived(coordinator.State(), i + 1)
    {
      hide Stands, KeysReceived, KeyMessageFits, DealtFits, SharesReceived, ReportsReceived, InitialKeys;
      hide C.Usable, C.Dealt, C.Keys, Fits, Placed;
      Standing(1, i);
      ok := GenerateShare(message, i);
      var next := i + 1;
      forall j | 0 <= j < n ensures StandsAt(1, next, j) {
        if j != i {
          assert old(StandsAt(1, i, j));
        }
      }
    }

    method GenerateShares(message: AllKeys) returns (ok: bool)
      requires Fits() && C.ParametersAccepted() && Seats(0, n)
      requires message == AllKeys(C.Keys(), C.RsaKeys())
      requires coordinator != null && coordinator.Valid() && coordinator.G == G
      requires SharesReceived(coordinator.State(), 0)
      modifies coordinator, trustees
      ensures coordinator.Valid()
      ensures ok <==> DealtFitTo(n)
      ensures ok ==> SharesReceived(coordinator.State(), n) && Seats(1, n)
    {
      ok := true;
      assert DealtFitTo(0);
      NextPhase(0);
      hide Stands, KeysReceived, KeyMessageFits, DealtFits, SharesReceived, ReportsReceived, InitialKeys;
      hide C.Usable, C.Dealt, C.Keys, Fits, Placed, Seats, KeysFitTo, DealtFitTo;
      var i := 0;
      while i < n && ok
        invariant i <= n && coordinator.Valid()
        invariant ok <==> DealtFitTo(i)
        invariant ok ==> SharesReceived(coordinator.State(), i)
        invariant Seats(1, i)
      {
        ok := ShareStep(message, i);
        i := i + 1;
      }
    }

    /** The coordinator after the reports of the first i trustees. */
    ghost predicate ReportsReceived(s: KState, i: nat)
      requires Fits() && i <= n
    {
      s.Valid() && s.numTrustees == n && s.threshold == k && SeenTo(s.seen, i) && s.publicKeys == C.Keys()
    }

    method ReceiveShares() returns (ok: bool, message: AllShares)
      requires Fits() && C.ParametersAccepted() && DealtFitTo(n)
      requires coordinator != null && coordinator.Valid() && coordinator.G == G
      requires SharesReceived(coordinator.State(), n)
      modifies coordinator
      ensures coordinator.Valid()
      ensures ok && |message.shares| == n && forall i :: 0 <= i < n ==> message.shares[i] == C.Dealt(i)
      ensures ReportsReceived(coordinator.State(), 0)
    {
      AllSeen(coordinator.seen);
      forall i | 0 <= i < n ensures SharesFill(coordinator.shares[i]) {
        assert DealtFits(i);
      }
      var status;
      status, message := coordinator.AllSharesReceived();
      ok := status == KeySuccess;
    }

    /** Nothing an honest trustee dealt is refused. */
    method VerifyShare(message: AllShares, i: nat) returns (ok: bool)
      requires Fits() && |trustees| == n && i < n && Stands(2, i)
      requires |message.shares| == n && forall j :: 0 <= j < n ==> message.shares[j] == C.Dealt(j)
      requires coordinator != null && coordinator.Valid() && coordinator.G == G
      requires ReportsReceived(coordinator.State(), i)
      modifies coordinator, trustees[i]
      ensures coordinator.Valid() && Stands(3, i)
      ensures ok && ReportsReceived(coordinator.State(), i + 1)
    {
      ok := true;
      forall j | 0 <= j < n
        ensures ShareAgrees(G, trustees[i].publicKeys[j], message.shares[j][i], trustees[i].rsaKey, i)
      {
        DealtShareAgrees(C, i, j);
      }
      hide ShareAgrees;
      var status, m := trustees[i].VerifyShares(message);
      assert trustees[i].myKeyShares == C.Received(i);
      if status != TrusteeSuccess {
        ok := false;
      }
      if ok {
        var received := coordinator.ReceiveSharesVerified(m, true);
        if received != KeySuccess {
          ok := false;
        }
      }
    }

    /** The same, and the other trustees stand where they stood. */
    method VerifyStep(message: AllShares, i: nat) returns (ok: bool)
      requires Fits() && i < n && Seats(2, i)
      requires |message.shares| == n && forall j :: 0 <= j < n ==> message.shares[j] == C.Dealt(j)
      requires coordinator != null && coordinator.Valid() && coordinator.G == G
      requires ReportsReceived(coordinator.State(), i)
      modifies coordinator, trustees
      ensures coordinator.Valid() && Seats(2, i + 1)
      ensures ok && ReportsReceived(coordinator.State(), i + 1)
    {
      hide Stands, KeysReceived, KeyMessageFits, DealtFits, SharesReceived, ReportsReceived, InitialKeys;
      hide C.Usable, C.Dealt, C.Keys, Fits, Placed;
      Standing(2, i);
      ok := VerifyShare(message, i);
      var next := i + 1;
      forall j | 0 <= j < n ensures StandsAt(2, next, j) {
        if j != i {
          assert old(StandsAt(2, i, j));
        }
      }
    }

    method VerifyShares(message: AllShares) returns (ok: bool)
      requires Fits() && C.ParametersAccepted() && Seats(1, n)
      requires |message.shares| == n && forall j :: 0 <= j < n ==> message.shares[j] == C.Dealt(j)
      requires coordinator != null && coordinator.Valid() && coordinator.G == G
      requires ReportsReceived(coordinator.State(), 0)
      modifies coordinator, trustees
      ensures coordinator.Valid()
      ensures ok && ReportsReceived(coordinator.State(), n) && Seats(2, n)
    {
      ok := true;
      NextPhase(1);
      hide Stands, KeysReceived, KeyMessageFits, DealtFits, SharesReceived, ReportsReceived, InitialKeys;
      hide C.Usable, C.Dealt, C.Keys, Fits, Placed, Seats, KeysFitTo, DealtFitTo;
      var i := 0;
      while i < n && ok
        invariant i <= n && coordinator.Valid() && ok
        invariant ReportsReceived(coordinator.State(), i) && Seats(2, i)
      {
        ok := VerifyStep(message, i);
        i := i + 1;
      }
    }

    method ExportState(i: nat) returns (status: TrusteeStatus, s: TrusteeState)
      requires Fits() && i < |trustees| == n && Stands(3, i)
      ensures s == C.StateOf(i) && (status == TrusteeSuccess <==> ExportFits(i))
    {
      status, s := trustees[i].ExportState();
    }

    method ExportStep(i: nat, states: seq<TrusteeState>) returns (ok: bool, more: seq<TrusteeState>)
      requires Fits() && i < n && Seats(3, 0) && ExportFitTo(i) && Exported(states, i)
      ensures ok <==> ExportFitTo(i + 1)
      ensures ok ==> Exported(more, i + 1)
    {
      hide ExportFits, Seats, C.StateOf, C.Usable, Stands;
      Exporting(i);
      var status, s := ExportState(i);
      ok, more := status == TrusteeSuccess, states + [s];
    }

    method ExportTrusteeStates() returns (ok: bool, states: seq<TrusteeState>)
      requires Fits() && Seats(2, n)
      ensures ok <==> ExportFitTo(n)
      ensures ok ==> Exported(states, n)
    {
      ok, states := true, [];
      assert ExportFitTo(0) && Exported(states, 0);
      NextPhase(2);
      hide Fits, Seats, ExportFitTo, Exported;
      var i := 0;
      while i < n && ok
        invariant i <= n
        invariant ok <==> ExportFitTo(i)
        invariant ok ==> Exported(states, i)
      {
        ok, states := ExportStep(i, states);
        i := i + 1;
      }
    }

    method CreateElection(draws: seq<Draws>, hash: Oracle, baseHash: int)
      returns (ok: bool, jointKey: int, states: seq<TrusteeState>)
      requires Fits() && trustees == [] && draws == C.draws && hash == C.hash && baseHash == C.baseHash
      modifies this
      ensures ok <==> C.Succeeds()
      ensures ok ==>
        && jointKey == C.JointKey()
        && |states| == n && forall i :: 0 <= i < n ==> states[i] == C.StateOf(i)
    {
      jointKey, states := 0, [];
      ok := InitializeCoordinator();
      if ok {
        ok := InitializeTrustees();
      }
      if ok {
        ok, jointKey, states := Ceremony(draws, hash, baseHash);
      }
    }

    /** The phases of the keys and of the shares. */
    method Deal(draws: seq<Draws>, hash: Oracle, baseHash: int) returns (ok: bool)
      requires Fits() && C.ParametersAccepted() && Seats(0, 0)
      requires draws == C.draws && hash == C.hash && baseHash == C.baseHash
      requires coordinator != null && coordinator.Valid() && coordinator.G == G
      requires coordinator.State() == InitialKeys(n, k)
      modifies coordinator, trustees
      ensures coordinator.Valid()
      ensures ok <==> (forall i :: 0 <= i < n ==> KeyMessageFits(i)) && (forall i :: 0 <= i < n ==> DealtFits(i))
      ensures ok ==> SharesReceived(coordinator.State(), n) && Seats(1, n)
    {
      assert |trustees| == n;
      hide *;
      var keys := AllKeys([], []);
      ok := GenerateKeys(draws, hash, baseHash);
      if ok {
        ok, keys := ReceiveKeys();
      }
      if ok {
        ok := GenerateShares(keys);
      }
    }

    /** The phase of the reports, the joint key and the states. */
    method Finish() returns (ok: bool, jointKey: int, states: seq<TrusteeState>)
      requires Fits() && C.ParametersAccepted() && Seats(1, n)
      requires forall i :: 0 <= i < n ==> DealtFits(i)
      requires coordinator != null && coordinator.Valid() && coordinator.G == G
      requires SharesReceived(coordinator.State(), n)
      modifies coordinator, trustees
      ensures ok <==> Fills(C.JointKey(), WORDS_4096) && (forall i :: 0 <= i < n ==> ExportFits(i))
      ensures ok ==>
        && jointKey == C.JointKey()
        && |states| == n && forall i :: 0 <= i < n ==> states[i] == C.StateOf(i)
    {
      jointKey, states := 0, [];
      assert |trustees| == n && C.Usable() && C.n == n && 1 <= C.k;
      hide Fills, ExportFits, HasShares, KnowsKeys, DealtFits, SharesReceived, C.Dealt, C.StateOf, C.Keys, C.Usable;
      var shares := AllShares([]);
      ok, shares := ReceiveShares();
      if ok {
        ok := VerifyShares(shares);
      }
      if ok {
        ok, jointKey := PublishJointKey();
      }
      if ok {
        ok, states := ExportTrusteeStates();
      }
    }

    method PublishJointKey() returns (ok: bool, key: int)
      requires Fits() && C.ParametersAccepted() && coordinator != null && coordinator.Valid() && coordinator.G == G
      requires ReportsReceived(coordinator.State(), n)
      ensures ok <==> Fills(C.JointKey(), WORDS_4096)
      ensures ok ==> key == C.JointKey()
    {
      hide Fills;
      AllSeen(coordinator.seen);
      var status;
      status, key := coordinator.PublishJointKey();
      ok := status == KeySuccess;
    }

    method Ceremony(draws: seq<Draws>, hash: Oracle, baseHash: int)
      returns (ok: bool, jointKey: int, states: seq<TrusteeState>)
      requires Fits() && C.ParametersAccepted() && Seats(0, 0)
      requires draws == C.draws && hash == C.hash && baseHash == C.baseHash
      requires coordinator != null && coordinator.Valid() && coordinator.G == G
      requires coordinator.State() == InitialKeys(n, k)
      modifies coordinator, trustees
      ensures ok <==> C.Succeeds()
      ensures ok ==>
        && jointKey == C.JointKey()
        && |states| == n && forall i :: 0 <= i < n ==> states[i] == C.StateOf(i)
    {
      jointKey, states := 0, [];
      SucceedsWhenAllFits();
      hide *;
      ok := Deal(draws, hash, baseHash);
      if ok {
        ok, jointKey, states := Finish();
      }
    }
  }
}

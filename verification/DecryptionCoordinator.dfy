/**
 The decryption coordinator (decryption/coordinator.c): it multiplies together
 the shares of the trustees that announce, asks some of them to stand in for the
 missing ones, multiplies in the weighted fragments, and publishes the tallies.

 Each method of the class is specified by a function on the coordinator's state;
 what holds over whole runs is proved about those functions.
 */
module DecryptionCoordinator {
  import opened Arithmetic
  import opened Primes
  import opened Group
  import opened Bignum
  import opened Crypto
  import opened DecryptionMessages

  datatype Status =
    | Success | InvalidParams | InvalidTrusteeIndex | DuplicateTrusteeIndex
    | ConfusedDecryptionTrustee | MissingTrustees | IoError

  datatype CState = CState(
    numTrustees: nat,
    threshold: nat,
    anounced: seq<bool>,
    talliesInitialized: bool,
    tallies: seq<Encryption>,
    responded: seq<bool>,
    numFragments: seq<nat>)
  {
    predicate Valid() {
      && 1 <= threshold <= numTrustees
      && |anounced| == |responded| == |numFragments| == numTrustees
    }
  }

  function Repeated<T>(x: T, n: nat): (r: seq<T>)
    ensures |r| == n && forall i :: 0 <= i < n ==> r[i] == x
  {
    seq(n, i => x)
  }

  function Initial(numTrustees: nat, threshold: nat): CState {
    CState(numTrustees, threshold, Repeated(false, numTrustees), false, [],
           Repeated(false, numTrustees), Repeated(0, numTrustees))
  }

  // ---- receiving a share -----------------------------------------------------------------

  /** The share agrees with the tally on the first i message encodings. */
  predicate MessagesAgree(tallies: seq<Encryption>, share: seq<Encryption>, i: nat)
    requires i <= |tallies| == |share|
  {
    forall j :: 0 <= j < i ==> tallies[j].messageEncoding == share[j].messageEncoding
  }

  /** Multiplying a share in stops after the first selection whose messages differ. */
  function MultiplyShare(G: Group, tallies: seq<Encryption>, share: seq<Encryption>): seq<Encryption>
    requires G.Positive() && |tallies| == |share|
  {
    seq(|tallies|, i requires 0 <= i < |tallies| =>
      if MessagesAgree(tallies, share, i)
      then tallies[i].(nonceEncoding := G.MulModP(tallies[i].nonceEncoding, share[i].nonceEncoding))
      else tallies[i])
  }

  function AfterShare(G: Group, c: CState, share: Share): (Status, CState)
    requires G.Positive() && c.Valid()
  {
    if share.trusteeIndex >= c.numTrustees then (InvalidTrusteeIndex, c)
    else if c.anounced[share.trusteeIndex] then (DuplicateTrusteeIndex, c)
    else
      var c1 := c.(anounced := c.anounced[share.trusteeIndex := true]);
      if !c.talliesInitialized then
        (Success, c1.(tallies := share.tallyShare, talliesInitialized := true))
      else if |share.tallyShare| != |c.tallies| then
        (ConfusedDecryptionTrustee, c1)
      else
        (if MessagesAgree(c.tallies, share.tallyShare, |c.tallies|) then Success else ConfusedDecryptionTrustee,
         c1.(tallies := MultiplyShare(G, c.tallies, share.tallyShare)))
  }

  // ---- asking for fragments ------------------------------------------------------------------

  function CountAnounced(c: CState): nat {
    |Listed(c.anounced)|
  }

  /** What an announced trustee is asked for: the missing trustees, if it is early enough. */
  function RequestFor(c: CState, i: nat): Request
    requires c.Valid() && i <= c.numTrustees
  {
    if |Listed(c.anounced[..i])| < c.threshold then Request(Negated(c.anounced))
    else Request(Repeated(false, c.numTrustees))
  }

  function AfterAllShares(c: CState): (Status, CState)
    requires c.Valid()
  {
    if CountAnounced(c) < c.threshold then (MissingTrustees, c)
    else (Success, c.(responded := Repeated(false, c.numTrustees), numFragments := Repeated(0, c.numTrustees)))
  }

  // ---- receiving fragments -------------------------------------------------------------------

  /** Missing numbers of a short message read as zero, as the coordinator initialises them. */
  function PartialAt(row: seq<int>, j: nat): int {
    if j < |row| then row[j] else 0
  }

  /** The nonce encoding of tally j after the fragments for the first i trustees. */
  function MultiplyFragments(G: Group, nonce: int, f: Fragments, j: nat, i: nat): int
    requires G.Positive() && i <= |f.requested| == |f.partials|
  {
    if i == 0 then nonce
    else
      var before := MultiplyFragments(G, nonce, f, j, i - 1);
      if f.requested[i - 1] then
        G.MulModP(before, G.PowModP(PartialAt(f.partials[i - 1], j), f.lagrangeCoefficient))
      else before
  }

  function AfterFragments(G: Group, c: CState, f: Fragments): (Status, CState)
    requires G.Positive() && c.Valid() && |f.requested| == |f.partials| == c.numTrustees
  {
    if f.trusteeIndex >= c.numTrustees then (InvalidTrusteeIndex, c)
    else if !c.anounced[f.trusteeIndex] then (InvalidTrusteeIndex, c)
    else if c.responded[f.trusteeIndex] then (DuplicateTrusteeIndex, c)
    else (Success, c.(
      responded := c.responded[f.trusteeIndex := true],
      numFragments := seq(c.numTrustees, i requires 0 <= i < c.numTrustees =>
        if f.requested[i] then c.numFragments[i] + 1 else c.numFragments[i]),
      tallies := seq(|c.tallies|, j requires 0 <= j < |c.tallies| =>
        c.tallies[j].(nonceEncoding := MultiplyFragments(G, c.tallies[j].nonceEncoding, f, j, c.numTrustees)))))
  }

  // ---- publishing ------------------------------------------------------------------------------

  predicate SeenOrCompensated(c: CState)
    requires c.Valid()
  {
    forall i :: 0 <= i < c.numTrustees ==>
      if c.anounced[i] then c.responded[i] else c.numFragments[i] == c.threshold
  }

  /** The group element whose logarithm is published for a tally. */
  function Decoded(G: Group, e: Encryption): int
    requires G.Positive()
  {
    G.DivModP(e.messageEncoding, e.nonceEncoding)
  }

  /** The search for a logarithm ends on this element: what callers must see to. */
  ghost predicate Searchable(G: Group, a: int)
    requires G.Valid()
  {
    G.InSubgroup(a) || a == MAX_DECRYPTION
  }

  /** The tally can be published: its logarithm is found and its numbers can be printed. */
  predicate Publishable(G: Group, e: Encryption)
    requires G.Positive()
  {
    (Decoded(G, e) == 1 || Decoded(G, e) != MAX_DECRYPTION) && EncryptionFits(e)
  }

  const UINT32: nat := 0x1_0000_0000

  ghost function PublishedTally(G: Group, e: Encryption): nat
    requires G.Valid() && G.InSubgroup(Decoded(G, e))
  {
    DiscreteLog(G, Decoded(G, e)) % UINT32
  }

  // ---- the coordinator object --------------------------------------------------------------------

  class Coordinator {
    const G: Group
    const numTrustees: nat
    const threshold: nat
    var anounced: seq<bool>
    var talliesInitialized: bool
    var tallies: seq<Encryption>
    var responded: seq<bool>
    var numFragments: seq<nat>

    ghost function State(): CState
      reads this
    {
      CState(numTrustees, threshold, anounced, talliesInitialized, tallies, responded, numFragments)
    }

    ghost predicate Valid()
      reads this
    {
      G.Valid() && State().Valid()
    }

    constructor (G: Group, numTrustees: nat, threshold: nat)
      requires G.Valid() && 1 <= threshold <= numTrustees
      ensures Valid() && this.G == G && State() == Initial(numTrustees, threshold)
    {
      this.G, this.numTrustees, this.threshold := G, numTrustees, threshold;
      this.anounced := Repeated(false, numTrustees);
      this.talliesInitialized, this.tallies := false, [];
      this.responded := Repeated(false, numTrustees);
      this.numFragments := Repeated(0, numTrustees);
    }

    /** Decryption_Coordinator_new. */
    static method New(G: Group, numTrustees: nat, threshold: nat) returns (status: Status, c: Coordinator?)
      requires G.Valid()
      ensures status == (if 1 <= threshold <= numTrustees <= MAX_TRUSTEES then Success else InvalidParams)
      ensures status == Success <==> c != null
      ensures c != null ==> fresh(c) && c.Valid() && c.G == G && c.State() == Initial(numTrustees, threshold)
    {
      if !(1 <= threshold && threshold <= numTrustees && numTrustees <= MAX_TRUSTEES) {
        return InvalidParams, null;
      }
      c := new Coordinator(G, numTrustees, threshold);
      status := Success;
    }

    /** The loop of receive_share that multiplies a further share in. */
    method MultiplyShareIn(share: seq<Encryption>) returns (status: Status)
      requires G.Positive() && |share| == |tallies|
      modifies this`tallies
      ensures tallies == MultiplyShare(G, old(tallies), share)
      ensures status ==
        if MessagesAgree(old(tallies), share, |share|) then Success else ConfusedDecryptionTrustee
    {
      status := Success;
      var i := 0;
      while i < |share| && status == Success
        invariant i <= |share| == |tallies|
        invariant status == if MessagesAgree(old(tallies), share, i) then Success else ConfusedDecryptionTrustee
        invariant forall j :: 0 <= j < i ==> tallies[j] == MultiplyShare(G, old(tallies), share)[j]
        invariant forall j :: i <= j < |tallies| ==> tallies[j] == old(tallies)[j]
        invariant status == Success || 0 < i
      {
        tallies := tallies[i := tallies[i].(
          nonceEncoding := G.MulModP(tallies[i].nonceEncoding, share[i].nonceEncoding))];
        if tallies[i].messageEncoding != share[i].messageEncoding {
          status := ConfusedDecryptionTrustee;
        }
        i := i + 1;
      }
      if status != Success {
        assert forall j :: i <= j < |share| ==> !MessagesAgree(old(tallies), share, j);
      }
    }

    method ReceiveShare(share: Share) returns (status: Status)
      requires Valid()
      modifies this
      ensures Valid()
      ensures (status, State()) == AfterShare(G, old(State()), share)
      ensures status == InvalidTrusteeIndex <==> share.trusteeIndex >= numTrustees
      ensures status == DuplicateTrusteeIndex <==> share.trusteeIndex < numTrustees && old(anounced)[share.trusteeIndex]
      ensures status == ConfusedDecryptionTrustee <==>
        && share.trusteeIndex < numTrustees && !old(anounced)[share.trusteeIndex] && old(talliesInitialized)
        && (|share.tallyShare| == |old(tallies)| ==>
              exists j :: 0 <= j < |share.tallyShare|
                && share.tallyShare[j].messageEncoding != old(tallies)[j].messageEncoding)
      ensures status == Success <==>
        && share.trusteeIndex < numTrustees && !old(anounced)[share.trusteeIndex]
        && (old(talliesInitialized) ==>
              && |share.tallyShare| == |old(tallies)|
              && forall j :: 0 <= j < |share.tallyShare| ==>
                  share.tallyShare[j].messageEncoding == old(tallies)[j].messageEncoding)
      ensures status == Success || status == ConfusedDecryptionTrustee ==>
        anounced == old(anounced)[share.trusteeIndex := true]
      ensures status != Success && status != ConfusedDecryptionTrustee ==> State() == old(State())
      ensures status == Success ==>
        && talliesInitialized && |tallies| == |share.tallyShare|
        && forall j :: 0 <= j < |tallies| ==>
            && tallies[j].messageEncoding == share.tallyShare[j].messageEncoding
            && tallies[j].nonceEncoding == (
                if old(talliesInitialized)
                then (old(tallies)[j].nonceEncoding * share.tallyShare[j].nonceEncoding) % G.p
                else share.tallyShare[j].nonceEncoding)
    {
      if share.trusteeIndex >= numTrustees {
        return InvalidTrusteeIndex;
      }
      if anounced[share.trusteeIndex] {
        return DuplicateTrusteeIndex;
      }
      status := Success;
      anounced := anounced[share.trusteeIndex := true];
      if talliesInitialized {
        if |share.tallyShare| != |tallies| {
          status := ConfusedDecryptionTrustee;
        } else {
          status := MultiplyShareIn(share.tallyShare);
        }
      } else {
        tallies := share.tallyShare;
        talliesInitialized := true;
      }
    }

    method NumAnounced() returns (count: nat)
      requires Valid()
      ensures count == CountAnounced(State())
    {
      count := 0;
      for i := 0 to numTrustees
        invariant count == |Listed(anounced[..i])|
      {
        assert anounced[..i + 1][..i] == anounced[..i];
        if anounced[i] {
          count := count + 1;
        }
      }
      assert anounced[..numTrustees] == anounced;
    }

    /** A request for every trustee that has announced, none for the others. */
    method FillRequests() returns (requests: seq<Option<Request>>)
      requires Valid()
      ensures |requests| == numTrustees
      ensures forall i :: 0 <= i < numTrustees ==>
        requests[i] == (if anounced[i] then Some(RequestFor(State(), i)) else None)
    {
      var numRequested := 0;
      requests := [];
      for i := 0 to numTrustees
        invariant |requests| == i
        invariant numRequested == (if |Listed(anounced[..i])| < threshold then |Listed(anounced[..i])| else threshold)
        invariant forall m :: 0 <= m < i ==>
          requests[m] == (if anounced[m] then Some(RequestFor(State(), m)) else None)
      {
        assert anounced[..i + 1][..i] == anounced[..i];
        if !anounced[i] {
          requests := requests + [None];
        } else {
          var requested: seq<bool>;
          if numRequested < threshold {
            requested := Negated(anounced);
            numRequested := numRequested + 1;
          } else {
            requested := Repeated(false, numTrustees);
          }
          requests := requests + [Some(Request(requested))];
        }
      }
    }

    method AllSharesReceived() returns (status: Status, requests: seq<Option<Request>>)
      requires Valid()
      modifies this
      ensures Valid()
      ensures (status, State()) == AfterAllShares(old(State()))
      ensures status == MissingTrustees <==> |Listed(old(anounced))| < threshold
      ensures status == MissingTrustees || status == Success
      ensures anounced == old(anounced) && tallies == old(tallies)
      ensures status == Success ==> forall i :: 0 <= i < numTrustees ==> !responded[i] && numFragments[i] == 0
      ensures status == Success ==>
        && |requests| == numTrustees
        && forall i :: 0 <= i < numTrustees ==>
            requests[i] == (if anounced[i] then Some(RequestFor(old(State()), i)) else None)
    {
      var numAnounced := NumAnounced();
      if numAnounced < threshold {
        return MissingTrustees, [];
      }
      requests := FillRequests();
      responded := Repeated(false, numTrustees);
      numFragments := Repeated(0, numTrustees);
      status := Success;
    }

    method ReceiveFragments(f: Fragments) returns (status: Status)
      requires Valid() && |f.requested| == |f.partials| == numTrustees
      modifies this
      ensures Valid()
      ensures (status, State()) == AfterFragments(G, old(State()), f)
      ensures status == InvalidTrusteeIndex <==> f.trusteeIndex >= numTrustees || !old(anounced)[f.trusteeIndex]
      ensures status == DuplicateTrusteeIndex <==>
        f.trusteeIndex < numTrustees && old(anounced)[f.trusteeIndex] && old(responded)[f.trusteeIndex]
      ensures status == Success <==>
        f.trusteeIndex < numTrustees && old(anounced)[f.trusteeIndex] && !old(responded)[f.trusteeIndex]
      ensures status != Success ==> State() == old(State())
      ensures status == Success ==>
        && responded == old(responded)[f.trusteeIndex := true] && anounced == old(anounced)
        && forall i :: 0 <= i < numTrustees ==>
            numFragments[i] == old(numFragments)[i] + (if f.requested[i] then 1 else 0)
    {
      if f.trusteeIndex >= numTrustees {
        return InvalidTrusteeIndex;
      }
      if !anounced[f.trusteeIndex] {
        return InvalidTrusteeIndex;
      }
      if responded[f.trusteeIndex] {
        return DuplicateTrusteeIndex;
      }
      status := Success;
      responded := responded[f.trusteeIndex := true];
      CountFragments(f.requested);
      for i := 0 to numTrustees
        modifies this`tallies
        invariant |tallies| == |old(tallies)|
        invariant forall j :: 0 <= j < |tallies| ==>
          tallies[j] == old(tallies)[j].(nonceEncoding := MultiplyFragments(G, old(tallies)[j].nonceEncoding, f, j, i))
      {
        if f.requested[i] {
          MultiplyFragmentIn(f.partials[i], f.lagrangeCoefficient);
        }
      }
      ghost var after := AfterFragments(G, old(State()), f).1;
      assert numFragments == after.numFragments;
      assert tallies == after.tallies;
    }

    method CountFragments(requested: seq<bool>)
      requires |numFragments| == |requested| == numTrustees
      modifies this`numFragments
      ensures |numFragments| == numTrustees
      ensures forall m :: 0 <= m < numTrustees ==>
        numFragments[m] == if requested[m] then old(numFragments)[m] + 1 else old(numFragments)[m]
    {
      for i := 0 to numTrustees
        invariant |numFragments| == numTrustees
        invariant forall m :: 0 <= m < i ==>
          numFragments[m] == if requested[m] then old(numFragments)[m] + 1 else old(numFragments)[m]
        invariant forall m :: i <= m < numTrustees ==> numFragments[m] == old(numFragments)[m]
      {
        if requested[i] {
          numFragments := numFragments[i := numFragments[i] + 1];
        }
      }
    }

    /** The loop of receive_fragments over the tallies, for one missing trustee. */
    method MultiplyFragmentIn(row: seq<int>, w: nat)
      requires G.Positive()
      modifies this`tallies
      ensures |tallies| == |old(tallies)|
      ensures forall j :: 0 <= j < |tallies| ==> tallies[j] == old(tallies)[j].(
        nonceEncoding := G.MulModP(old(tallies)[j].nonceEncoding, G.PowModP(PartialAt(row, j), w)))
    {
      for j := 0 to |tallies|
        invariant |tallies| == |old(tallies)|
        invariant forall m :: 0 <= m < j ==> tallies[m] == old(tallies)[m].(
          nonceEncoding := G.MulModP(old(tallies)[m].nonceEncoding, G.PowModP(PartialAt(row, m), w)))
        invariant forall m :: j <= m < |tallies| ==> tallies[m] == old(tallies)[m]
      {
        var res := G.PowModP(PartialAt(row, j), w);
        tallies := tallies[j := tallies[j].(nonceEncoding := G.MulModP(tallies[j].nonceEncoding, res))];
      }
    }

    method AllTrusteesSeenOrCompensated() returns (ok: bool)
      requires Valid()
      ensures ok <==> SeenOrCompensated(State())
      ensures ok <==> forall i :: 0 <= i < numTrustees ==>
        (anounced[i] ==> responded[i]) && (!anounced[i] ==> numFragments[i] == threshold)
    {
      ok := true;
      for i := 0 to numTrustees
        invariant ok <==> forall m :: 0 <= m < i ==>
          if anounced[m] then responded[m] else numFragments[m] == threshold
      {
        if anounced[i] {
          ok := ok && responded[i];
        } else {
          ok := ok && numFragments[i] == threshold;
        }
      }
    }

    /**
     Decryption_Coordinator_all_fragments_received. The results are those written
     before the first failure; a tally whose numbers cannot be printed fails after
     its result is written.
     */
    method AllFragmentsReceived() returns (status: Status, results: seq<nat>)
      requires Valid()
      requires forall j :: 0 <= j < |tallies| ==> Searchable(G, Decoded(G, tallies[j]))
      ensures status == (
        if !SeenOrCompensated(State()) then MissingTrustees
        else if forall j :: 0 <= j < |tallies| ==> Publishable(G, tallies[j]) then Success
        else IoError)
      ensures status == Success ==>
        && |results| == |tallies|
        && forall j :: 0 <= j < |tallies| ==>
            G.InSubgroup(Decoded(G, tallies[j])) && results[j] == PublishedTally(G, tallies[j])
    {
      status := Success;
      results := [];
      var ok := AllTrusteesSeenOrCompensated();
      if !ok {
        return MissingTrustees, [];
      }
      var i := 0;
      while i < |tallies| && status == Success
        invariant i <= |tallies| && (status == Success || status == IoError)
        invariant status == Success <==> forall j :: 0 <= j < i ==> Publishable(G, tallies[j])
        invariant status == Success ==>
          && |results| == i
          && forall j :: 0 <= j < i ==>
              G.InSubgroup(Decoded(G, tallies[j])) && results[j] == PublishedTally(G, tallies[j])
        decreases |tallies| - i
      {
        var m := G.DivModP(tallies[i].messageEncoding, tallies[i].nonceEncoding);
        assert m == Decoded(G, tallies[i]);
        var found, decryptedTally := LogGeneratorModP(G, m);
        if !found {
          status := IoError;
        }
        if status == Success {
          results := results + [decryptedTally % UINT32];
          if !EncryptionFits(tallies[i]) {
            status := IoError;
          }
        }
        i := i + 1;
      }
    }
  }
}

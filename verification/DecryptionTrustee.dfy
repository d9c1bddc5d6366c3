/**
 A decryption trustee (decryption/trustee.c): it adds up the cast ballots,
 decrypts its share of the tally, and on request stands in for missing trustees.
 */
module DecryptionTrustee {
  import opened Arithmetic
  import opened Group
  import opened Interpolation
  import opened Crypto
  import opened DecryptionMessages
  import Rsa

  datatype Status = Success | InvalidParams | MalformedInput | SerializeError

  // ---- what the operations compute -------------------------------------------------------

  function TallyAdd(G: Group, tallies: seq<Encryption>, selections: seq<Encryption>): seq<Encryption>
    requires G.Positive() && |tallies| <= |selections|
  {
    seq(|tallies|, i requires 0 <= i < |tallies| => HomomorphicAdd(G, tallies[i], selections[i]))
  }

  /** The tallies after the listed ballots: only cast ballots are added. */
  function TallyOf(G: Group, start: seq<Encryption>, ballots: seq<Ballot>): (r: seq<Encryption>)
    requires G.Positive() && forall b :: b in ballots ==> |start| <= |b.selections|
    ensures |r| == |start|
  {
    if ballots == [] then start
    else
      var before := TallyOf(G, start, ballots[..|ballots| - 1]);
      var last := ballots[|ballots| - 1];
      if last.cast then TallyAdd(G, before, last.selections) else before
  }

  function Zeros(n: nat): seq<Encryption> {
    seq(n, i => ZERO)
  }

  function ShareOf(G: Group, index: nat, secret: nat, tallies: seq<Encryption>): Share
    requires G.Positive()
  {
    Share(index, seq(|tallies|, i requires 0 <= i < |tallies| =>
      Encryption(G.PowModP(tallies[i].nonceEncoding, secret), tallies[i].messageEncoding)))
  }

  function FragmentsOf(G: Group, s: TrusteeState, tallies: seq<Encryption>, requested: seq<bool>): Fragments
    requires G.Positive() && |requested| <= |s.myKeyShares| && 0 < s.rsaKey.n
  {
    Fragments(
      s.index,
      requested,
      seq(|requested|, i requires 0 <= i < |requested| =>
        if requested[i] then PartialsOf(G, Rsa.Decrypt(s.myKeyShares[i], s.rsaKey), tallies) else []),
      Weight(G, Listed(Negated(requested)), s.index))
  }

  function PartialsOf(G: Group, origin: nat, tallies: seq<Encryption>): seq<int>
    requires G.Positive()
  {
    seq(|tallies|, j requires 0 <= j < |tallies| => G.PowModP(tallies[j].nonceEncoding, origin))
  }

  // ---- auxiliary functions -----------------------------------------------------------------

  method ComputeSizeOfAvailableTrustees(requested: seq<bool>) returns (size: nat)
    ensures size == |Listed(Negated(requested))|
  {
    size := 0;
    ghost var free := Negated(requested);
    for i := 0 to |requested|
      invariant size == |Listed(free[..i])|
    {
      assert free[..i + 1][..i] == free[..i];
      if !requested[i] {
        size := size + 1;
      }
    }
    assert free[..|requested|] == free;
  }

  method CreateArrayOfAvailableTrustees(arr: array<nat>, requested: seq<bool>)
    requires arr.Length == |Listed(Negated(requested))|
    modifies arr
    ensures arr[..] == Listed(Negated(requested))
  {
    var j := 0;
    ghost var free := Negated(requested);
    for i := 0 to |requested|
      invariant j == |Listed(free[..i])| && j <= arr.Length
      invariant arr[..j] == Listed(free[..i])
    {
      assert free[..i + 1][..i] == free[..i];
      ListedPrefix(free, i + 1);
      if !requested[i] {
        arr[j] := i;
        j := j + 1;
      }
    }
    assert free[..|requested|] == free;
  }

  lemma {:induction false} ListedPrefix(flags: seq<bool>, i: nat)
    requires i <= |flags|
    ensures Listed(flags[..i]) <= Listed(flags)
  {
    if i == |flags| {
      assert flags[..i] == flags;
    } else {
      ListedPrefix(flags[..|flags| - 1], i);
      assert flags[..|flags| - 1][..i] == flags[..i];
    }
  }

  // ---- the trustee ---------------------------------------------------------------------------

  class Trustee {
    const G: Group
    const numTrustees: nat
    const threshold: nat
    const numSelections: nat
    const state: TrusteeState
    var tallies: seq<Encryption>

    ghost predicate Valid()
      reads this
    {
      && G.Valid()
      && |tallies| == numSelections
      && 1 <= threshold <= numTrustees
      && 0 < |state.coefficients| && |state.myKeyShares| == numTrustees && 0 < state.rsaKey.n
    }

    constructor (G: Group, numTrustees: nat, threshold: nat, numSelections: nat, state: TrusteeState)
      requires G.Valid() && 1 <= threshold <= numTrustees
      requires 0 < |state.coefficients| && |state.myKeyShares| == numTrustees && 0 < state.rsaKey.n
      ensures Valid()
      ensures this.G == G && this.numTrustees == numTrustees && this.threshold == threshold
      ensures this.numSelections == numSelections && this.state == state
      ensures tallies == Zeros(numSelections)
    {
      this.G, this.numTrustees, this.threshold := G, numTrustees, threshold;
      this.numSelections, this.state := numSelections, state;
      this.tallies := Zeros(numSelections);
    }

    /** Decryption_Trustee_new: checks the parameters before it builds anything. */
    static method New(G: Group, numTrustees: nat, threshold: nat, numSelections: nat, state: TrusteeState)
      returns (status: Status, trustee: Trustee?)
      requires G.Valid()
      requires 0 < |state.coefficients| && |state.myKeyShares| == numTrustees && 0 < state.rsaKey.n
      ensures status == Success || status == InvalidParams
      ensures status == Success <==> 1 <= threshold <= numTrustees <= MAX_TRUSTEES
      ensures status == Success <==> trustee != null
      ensures trustee != null ==>
        && fresh(trustee) && trustee.Valid()
        && trustee.G == G && trustee.numTrustees == numTrustees && trustee.threshold == threshold
        && trustee.numSelections == numSelections && trustee.state == state
        && trustee.tallies == Zeros(numSelections)
    {
      if !(1 <= threshold && threshold <= numTrustees && numTrustees <= MAX_TRUSTEES) {
        return InvalidParams, null;
      }
      trustee := new Trustee(G, numTrustees, threshold, numSelections, state);
      status := Success;
    }

    method AccumTally(selections: seq<Encryption>)
      requires Valid() && numSelections <= |selections|
      modifies this
      ensures Valid()
      ensures tallies == TallyAdd(G, old(tallies), selections)
    {
      for i := 0 to numSelections
        invariant |tallies| == numSelections
        invariant forall j :: 0 <= j < i ==> tallies[j] == HomomorphicAdd(G, old(tallies)[j], selections[j])
        invariant forall j :: i <= j < numSelections ==> tallies[j] == old(tallies)[j]
      {
        tallies := tallies[i := HomomorphicAdd(G, tallies[i], selections[i])];
      }
    }

    method TallyVotingRecord(record: VotingRecord) returns (status: Status)
      requires Valid()
      requires forall b :: b in record.ballots ==> |b.selections| == record.numSelections
      modifies this
      ensures Valid()
      ensures status == Success || status == MalformedInput
      ensures status == Success <==> record.numSelections == numSelections
      ensures status == Success ==> tallies == TallyOf(G, old(tallies), record.ballots)
      ensures status != Success ==> tallies == old(tallies)
    {
      if record.numSelections != numSelections {
        return MalformedInput;
      }
      for i := 0 to |record.ballots|
        invariant Valid()
        invariant tallies == TallyOf(G, old(tallies), record.ballots[..i])
      {
        assert record.ballots[..i + 1][..i] == record.ballots[..i];
        if record.ballots[i].cast {
          AccumTally(record.ballots[i].selections);
        }
      }
      assert record.ballots[..|record.ballots|] == record.ballots;
      status := Success;
    }

    method ComputeShare() returns (status: Status, share: Share)
      requires Valid()
      ensures share == ShareOf(G, state.index, state.coefficients[0], tallies)
      ensures status == if ShareFits(share) then Success else SerializeError
    {
      var tallyShare: seq<Encryption> := [];
      for i := 0 to numSelections
        invariant |tallyShare| == i
        invariant forall j :: 0 <= j < i ==>
            tallyShare[j] == Encryption(G.PowModP(tallies[j].nonceEncoding, state.coefficients[0]),
                                        tallies[j].messageEncoding)
      {
        tallyShare := tallyShare +
          [Encryption(G.PowModP(tallies[i].nonceEncoding, state.coefficients[0]), tallies[i].messageEncoding)];
      }
      share := Share(state.index, tallyShare);
      status := if ShareFits(share) then Success else SerializeError;
    }

    method ComputeFragments(req: Request) returns (status: Status, fragments: Fragments)
      requires Valid() && |req.requested| == numTrustees
      ensures fragments == FragmentsOf(G, state, tallies, req.requested)
      ensures status == if FragmentsFit(fragments) then Success else SerializeError
    {
      var requested := req.requested;
      // partial decryptions for every trustee asked for and every tally
      var partials: seq<seq<int>> := [];
      for i := 0 to numTrustees
        invariant |partials| == i
        invariant forall m :: 0 <= m < i ==>
            partials[m] == (if requested[m]
                            then PartialsOf(G, Rsa.Decrypt(state.myKeyShares[m], state.rsaKey), tallies) else [])
      {
        var row: seq<int> := [];
        if requested[i] {
          for j := 0 to numSelections
            invariant |row| == j
            invariant forall m :: 0 <= m < j ==>
                row[m] == G.PowModP(tallies[m].nonceEncoding, Rsa.Decrypt(state.myKeyShares[i], state.rsaKey))
          {
            var origin := Rsa.Decrypt(state.myKeyShares[i], state.rsaKey);
            row := row + [G.PowModP(tallies[j].nonceEncoding, origin)];
          }
        }
        partials := partials + [row];
      }
      // the Lagrange coefficient over the trustees that are not asked for
      var size := ComputeSizeOfAvailableTrustees(requested);
      var arr := new nat[size];
      CreateArrayOfAvailableTrustees(arr, requested);
      var productU := Product1(G, state.index, arr[..]);
      var productD := Product2(G, state.index, arr[..]);
      var w := G.DivModQ(productU, productD);
      fragments := Fragments(state.index, requested, partials, w);
      status := if FragmentsFit(fragments) then Success else SerializeError;
    }
  }
}

/**
 What decryption trustees and their coordinator exchange, and which of these
 messages the wire format can carry (a number must fill exactly the words
 reserved for it).
 */
module DecryptionMessages {
  import opened Bignum
  import opened Crypto
  import Rsa

  const MAX_TRUSTEES: nat := 5

  datatype Option<+T> = None | Some(value: T)

  /** What a trustee keeps between the key ceremony and decryption. */
  datatype TrusteeState = TrusteeState(
    index: nat, coefficients: seq<nat>, myKeyShares: seq<nat>, rsaKey: Rsa.PrivateKey)

  datatype Ballot = Ballot(cast: bool, selections: seq<Encryption>)

  datatype VotingRecord = VotingRecord(numSelections: nat, ballots: seq<Ballot>)

  datatype Share = Share(trusteeIndex: nat, tallyShare: seq<Encryption>)

  datatype Request = Request(requested: seq<bool>)

  /** partials[i] is empty for a trustee i that is not requested. */
  datatype Fragments = Fragments(
    trusteeIndex: nat, requested: seq<bool>, partials: seq<seq<int>>, lagrangeCoefficient: nat)

  predicate EncryptionFits(e: Encryption) {
    Fills(e.nonceEncoding, WORDS_4096) && Fills(e.messageEncoding, WORDS_4096)
  }

  predicate ShareFits(s: Share) {
    forall i :: 0 <= i < |s.tallyShare| ==> EncryptionFits(s.tallyShare[i])
  }

  predicate FragmentsFit(f: Fragments) {
    && (forall i, j :: 0 <= i < |f.partials| && 0 <= j < |f.partials[i]| ==> Fills(f.partials[i][j], WORDS_4096))
    && FillsPadded(f.lagrangeCoefficient, WORDS_256)
  }

  /** A ballot as the encrypter sends it. */
  datatype EncryptedBallot = EncryptedBallot(id: nat, selections: seq<Encryption>)

  predicate BallotFits(selections: seq<Encryption>) {
    forall i :: 0 <= i < |selections| ==> EncryptionFits(selections[i])
  }

  // ---- counting and listing flags -----------------------------------------------------

  /** The positions among the first n that are set, in order. */
  function Listed(flags: seq<bool>): seq<nat> {
    if flags == [] then []
    else Listed(flags[..|flags| - 1]) + (if flags[|flags| - 1] then [|flags| - 1] else [])
  }

  function Negated(flags: seq<bool>): seq<bool> {
    seq(|flags|, i requires 0 <= i < |flags| => !flags[i])
  }

  lemma {:induction false} ListedMembers(flags: seq<bool>)
    ensures forall l :: l in Listed(flags) <==> 0 <= l < |flags| && flags[l]
    ensures |Listed(flags)| <= |flags|
  {
    if flags != [] { ListedMembers(flags[..|flags| - 1]); }
  }

  lemma {:induction false} ListedSorted(flags: seq<bool>)
    ensures forall i, j :: 0 <= i < j < |Listed(flags)| ==> Listed(flags)[i] < Listed(flags)[j]
  {
    if flags != [] {
      var front := flags[..|flags| - 1];
      ListedSorted(front);
      ListedMembers(front);
      var a, b := Listed(front), Listed(flags);
      forall i, j | 0 <= i < j < |b| ensures b[i] < b[j] {
        assert b[i] == a[i] && a[i] in a;
        if j < |a| {
          assert b[j] == a[j];
        }
      }
    }
  }

  predicate AllSet(flags: seq<bool>) {
    forall i :: 0 <= i < |flags| ==> flags[i]
  }

  lemma {:induction false} ListedBounds(flags: seq<bool>)
    ensures |Listed(flags)| == |flags| <==> AllSet(flags)
  {
    if flags != [] {
      var n := |flags| - 1;
      var front := flags[..n];
      ListedBounds(front);
      ListedMembers(front);
      assert flags == front + [flags[n]];
      assert AllSet(flags) <==> AllSet(front) && flags[n] by {
        if AllSet(front) && flags[n] {
          forall i | 0 <= i < |flags| ensures flags[i] {
            if i < n { assert front[i]; }
          }
        }
        if AllSet(flags) {
          forall i | 0 <= i < n ensures front[i] { assert flags[i]; }
        }
      }
    }
  }
}

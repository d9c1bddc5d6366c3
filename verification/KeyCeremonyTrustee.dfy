/**
 A key-ceremony trustee (keyceremony/trustee.c): it makes its keys, deals shares
 of its polynomial, checks the shares dealt to it, and exports what it needs to
 decrypt.
 */
module KeyCeremonyTrustee {
  import opened Arithmetic
  import opened Group
  import opened Bignum
  import opened Interpolation
  import opened Crypto
  import opened Proofs
  import opened DecryptionMessages
  import opened DecryptionCoordinator
  import opened KeyCeremonyCoordinator
  import Rsa

  datatype TrusteeStatus =
    | TrusteeSuccess | TrusteeInvalidParams | MissingPublicKey | InvalidKeyShare | TrusteeSerializeError

  /** The random draws of one trustee; the RSA key is one that generate_keys makes. */
  datatype Draws = Draws(coefficients: seq<nat>, nonces: seq<nat>, rsaKey: Rsa.PrivateKey)

  ghost predicate UsableDraws(G: Group, d: Draws, threshold: nat) {
    |d.coefficients| == |d.nonces| == threshold && Rsa.ValidKey(d.rsaKey) && 0 < d.rsaKey.n && G.q <= d.rsaKey.n
  }

  predicate KeyGeneratedFits(m: KeyGenerated) {
    PublicKeyFits(m.publicKey) && RsaKeyFits(m.rsaKey)
  }

  predicate StateFits(s: TrusteeState) {
    && AllFill(s.coefficients, WORDS_4096)
    && Fills(s.rsaKey.e, 1) && Fills(s.rsaKey.q, WORDS_PRIME) && Fills(s.rsaKey.d, WORDS_4096)
    && Fills(s.rsaKey.p, WORDS_PRIME) && Fills(s.rsaKey.n, WORDS_4096)
    && SharesFill(s.myKeyShares)
  }

  function RsaPublic(k: Rsa.PrivateKey): Rsa.PublicKey {
    Rsa.PublicKey(k.n, k.e)
  }

  function DealtShare(G: Group, coefficients: seq<nat>, rsaKey: Rsa.PublicKey, j: nat): nat
    requires G.Positive() && 0 < rsaKey.n
  {
    Rsa.Encrypt(Rsa.Residue(Poly(coefficients, j + 1), G.q), rsaKey)
  }

  /** The shares a trustee deals, one for every key. */
  function DealtShares(G: Group, coefficients: seq<nat>, rsaKeys: seq<Rsa.PublicKey>): seq<nat>
    requires G.Positive() && forall k :: k in rsaKeys ==> 0 < k.n
  {
    seq(|rsaKeys|, j requires 0 <= j < |rsaKeys| => DealtShare(G, coefficients, rsaKeys[j], j))
  }

  /**
   An encrypted share is the plain cube of a value below q, so it never needs more
   than its twelve words; it can be sent exactly if it needs all of them.
   */
  lemma ShareCubeFits(value: nat, q: nat, key: Rsa.PublicKey)
    requires value < q <= Pow(WORD, WORDS_256) && key.e == 3 && Pow(WORD, WORDS_SHARE) <= key.n
    ensures 0 < key.n && Rsa.Encrypt(value, key) == Pow(value, 3)
    ensures FillsPadded(Rsa.Encrypt(value, key), WORDS_SHARE)
    ensures Fills(Rsa.Encrypt(value, key), WORDS_SHARE) <==> Pow(WORD, WORDS_SHARE - 1) <= Pow(value, 3)
  {
    var b := Pow(WORD, WORDS_256);
    PowPositive(WORD, WORDS_256);
    PowMul(WORD, WORDS_256, 3);
    assert Pow(b, 3) == Pow(WORD, WORDS_SHARE);
    CubeBelow(value, b);
    PowPositive(WORD, WORDS_SHARE);
    CongMod(Pow(value, 3), key.n);
  }

  lemma CubeBelow(x: nat, b: nat)
    requires x < b
    ensures 0 <= Pow(x, 3) < Pow(b, 3)
  {
    assert Pow(x, 3) == x * (x * x) && Pow(b, 3) == b * (b * b) by {
      assert Pow(x, 1) == x && Pow(x, 2) == x * x && Pow(b, 1) == b && Pow(b, 2) == b * b;
    }
    MulMono(x, b, x);
    MulMono(x, b, b);
    MulMono(0, x, x);
    MulMono(x * x, b * b, x);
    MulMono(x + 1, b, b * b);
    MulNonNeg(x, x * x);
    assert (x + 1) * (b * b) == x * (b * b) + b * b;
    MulMono(1, b, b);
  }

  /** Trustee index finds the share dealt to it in agreement with the dealer's commitments. */
  ghost predicate ShareAgrees(G: Group, key: PublicKey, share: nat, rsaKey: Rsa.PrivateKey, index: nat)
    requires G.Positive() && 0 < rsaKey.n
  {
    CombinedCommitment(G, key.coefCommitments, index + 1, |key.coefCommitments|)
      == G.PowModP(G.g, Rsa.Decrypt(share, rsaKey))
  }

  /**
   What a trustee accepts: against commitments to a polynomial's coefficients exactly the
   shares that decrypt, modulo q, to its value at the trustee's index plus one.
   */
  lemma ShareAgreesExactly(G: Group, key: PublicKey, c: seq<nat>, share: nat, rsaKey: Rsa.PrivateKey, index: nat)
    requires G.Valid() && 0 < rsaKey.n && Commits(G, key.coefCommitments, c)
    ensures ShareAgrees(G, key, share, rsaKey, index)
       <==> Cong(Rsa.Decrypt(share, rsaKey), Poly(c, index + 1), G.q)
  {
    ShareCheckExact(G, share, key.coefCommitments, c, rsaKey, index);
  }

  class KeyTrustee {
    const G: Group
    const numTrustees: nat
    const threshold: nat
    const index: nat
    var coefficients: seq<nat>
    var publicKeys: seq<PublicKey>
    var rsaKeys: seq<Rsa.PublicKey>
    var rsaKey: Rsa.PrivateKey
    var myKeyShares: seq<nat>

    ghost predicate Valid()
      reads this
    {
      && G.Valid() && 1 <= threshold <= numTrustees && index < numTrustees
      && |publicKeys| == |rsaKeys| == |myKeyShares| == numTrustees
      && forall i :: 0 <= i < numTrustees ==> KeyOfThreshold(publicKeys[i], threshold)
    }

    constructor (G: Group, numTrustees: nat, threshold: nat, index: nat)
      requires G.Valid() && 1 <= threshold <= numTrustees && index < numTrustees
      ensures Valid()
      ensures this.G == G && this.numTrustees == numTrustees && this.threshold == threshold && this.index == index
    {
      this.G, this.numTrustees, this.threshold, this.index := G, numTrustees, threshold, index;
      this.coefficients := Repeated(0, threshold);
      this.publicKeys := Repeated(BlankKey(threshold), numTrustees);
      this.rsaKeys := Repeated(Rsa.PublicKey(0, 0), numTrustees);
      this.rsaKey := Rsa.PrivateKey(0, 0, 0, 0, 0);
      this.myKeyShares := Repeated(0, numTrustees);
    }

    static method New(G: Group, numTrustees: nat, threshold: nat, index: nat)
      returns (status: TrusteeStatus, t: KeyTrustee?)
      requires G.Valid() && index < numTrustees
      ensures status == (if 1 <= threshold <= numTrustees <= MAX_TRUSTEES then TrusteeSuccess else TrusteeInvalidParams)
      ensures status == TrusteeSuccess <==> t != null
      ensures t != null ==>
        && fresh(t) && t.Valid()
        && t.G == G && t.numTrustees == numTrustees && t.threshold == threshold && t.index == index
    {
      if !(1 <= threshold && threshold <= numTrustees && numTrustees <= MAX_TRUSTEES) {
        return TrusteeInvalidParams, null;
      }
      t := new KeyTrustee(G, numTrustees, threshold, index);
      status := TrusteeSuccess;
    }

    /** The proof it has just made holds, so the branch the source calls unreachable is. */
    method GenerateKey(hash: Oracle, baseHash: int, draws: Draws) returns (status: TrusteeStatus, m: KeyGenerated)
      requires Valid() && UsableDraws(G, draws, threshold)
      modifies this
      ensures Valid()
      ensures m == KeyGenerated(index, KeypairOf(G, hash, baseHash, draws.coefficients, draws.nonces),
                                RsaPublic(draws.rsaKey))
      ensures KeypairProofHolds(G, m.publicKey) && Commits(G, m.publicKey.coefCommitments, draws.coefficients)
      ensures status == if KeyGeneratedFits(m) then TrusteeSuccess else TrusteeSerializeError
      ensures coefficients == draws.coefficients && rsaKey == draws.rsaKey
      ensures publicKeys == old(publicKeys)[index := m.publicKey]
      ensures rsaKeys == old(rsaKeys) && myKeyShares == old(myKeyShares)
    {
      var key := GenKeypair(G, hash, baseHash, draws.coefficients, draws.nonces);
      var holds := CheckKeypairProof(G, key);
      assert holds;
      rsaKey := draws.rsaKey;
      coefficients := draws.coefficients;
      publicKeys := publicKeys[index := key];
      m := KeyGenerated(index, key, RsaPublic(rsaKey));
      status := if KeyGeneratedFits(m) then TrusteeSuccess else TrusteeSerializeError;
    }

    method GenerateShares(message: AllKeys) returns (status: TrusteeStatus, m: SharesGenerated)
      requires Valid() && |message.publicKeys| == |message.rsaKeys| == numTrustees
      requires forall i :: 0 <= i < numTrustees ==>
        KeyOfThreshold(message.publicKeys[i], threshold) && 0 < message.rsaKeys[i].n
      modifies this
      ensures Valid()
      ensures
        var mine := message.publicKeys[index].coefCommitments == old(publicKeys)[index].coefCommitments;
        && (status == MissingPublicKey <==> !mine)
        && (mine ==>
              && m == SharesGenerated(index, DealtShares(G, coefficients, message.rsaKeys))
              && status == (if SharesFill(m.shares) then TrusteeSuccess else TrusteeSerializeError)
              && publicKeys == message.publicKeys && rsaKeys == message.rsaKeys)
        && (!mine ==> publicKeys == old(publicKeys) && rsaKeys == old(rsaKeys))
      ensures coefficients == old(coefficients) && rsaKey == old(rsaKey) && myKeyShares == old(myKeyShares)
    {
      m := SharesGenerated(index, []);
      if message.publicKeys[index].coefCommitments != publicKeys[index].coefCommitments {
        return MissingPublicKey, m;
      }
      publicKeys, rsaKeys := message.publicKeys, message.rsaKeys;
      var shares: seq<nat> := [];
      for i := 0 to numTrustees
        invariant |shares| == i && Valid()
        invariant publicKeys == message.publicKeys && rsaKeys == message.rsaKeys
        invariant coefficients == old(coefficients) && rsaKey == old(rsaKey) && myKeyShares == old(myKeyShares)
        invariant forall j :: 0 <= j < i ==> shares[j] == DealtShare(G, coefficients, rsaKeys[j], j)
      {
        var share := CreateEncryptedKeyShare(G, rsaKeys[i], coefficients, i);
        shares := shares + [share];
      }
      m := SharesGenerated(index, shares);
      status := if SharesFill(shares) then TrusteeSuccess else TrusteeSerializeError;
    }

    method CheckShare(dealer: nat, share: nat) returns (valid: bool)
      requires Valid() && 0 < rsaKey.n && dealer < numTrustees
      ensures valid <==> ShareAgrees(G, publicKeys[dealer], share, rsaKey, index)
    {
      valid := CheckShareAgainstPublicKeys(G, share, publicKeys[dealer].coefCommitments, rsaKey, index);
    }

    /** Shares are kept only if every one of them agrees with its dealer's commitments. */
    method VerifyShares(message: AllShares) returns (status: TrusteeStatus, m: SharesVerified)
      requires Valid() && 0 < rsaKey.n && |message.shares| == numTrustees
      requires forall i :: 0 <= i < numTrustees ==> |message.shares[i]| == numTrustees
      modifies this`myKeyShares
      ensures Valid()
      ensures status == TrusteeSuccess || status == InvalidKeyShare
      ensures status == TrusteeSuccess <==>
        forall i :: 0 <= i < numTrustees ==> ShareAgrees(G, publicKeys[i], message.shares[i][index], rsaKey, index)
      ensures status == TrusteeSuccess ==>
        && m == SharesVerified(index, true)
        && forall i :: 0 <= i < numTrustees ==> myKeyShares[i] == message.shares[i][index]
      ensures status != TrusteeSuccess ==> myKeyShares == old(myKeyShares)
    {
      status := TrusteeSuccess;
      m := SharesVerified(index, true);
      hide ShareAgrees, KeyOfThreshold;
      for i := 0 to numTrustees
        invariant myKeyShares == old(myKeyShares)
        invariant forall j :: 0 <= j < i ==> ShareAgrees(G, publicKeys[j], message.shares[j][index], rsaKey, index)
      {
        var valid := CheckShare(i, message.shares[i][index]);
        if !valid {
          return InvalidKeyShare, m;
        }
      }
      for i := 0 to numTrustees
        invariant |myKeyShares| == numTrustees
        invariant forall j :: 0 <= j < i ==> myKeyShares[j] == message.shares[j][index]
      {
        myKeyShares := myKeyShares[i := message.shares[i][index]];
      }
    }

    method ExportState() returns (status: TrusteeStatus, s: TrusteeState)
      requires Valid()
      ensures s == TrusteeState(index, coefficients, myKeyShares, rsaKey)
      ensures status == if StateFits(s) then TrusteeSuccess else TrusteeSerializeError
    {
      s := TrusteeState(index, coefficients, myKeyShares, rsaKey);
      status := if StateFits(s) then TrusteeSuccess else TrusteeSerializeError;
    }
  }
}

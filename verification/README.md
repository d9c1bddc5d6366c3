# A verified model of the ElectionGuard C SDK

The model covers the parts of the SDK that carry its promise: that the number published
for a selection is the number of cast ballots that chose it, and that the machinery below
(RSA, fixed-width arithmetic, SHA-256, the wire format, the ballot box and the tracker)
computes what it is named after.

- **The election protocol.** `Arithmetic`, `Primes`, `Group` and `Interpolation` hold the number
  theory: Fermat, Euclid, inverses as GMP computes them, exponents modulo the subgroup order,
  Lagrange interpolation over Z_q as the trustees compute it. `Rsa`, `Crypto`, `Proofs` and
  `Bignum` are the cryptographic operations. `KeyCeremonyCoordinator`, `KeyCeremonyTrustee`,
  `CreateElection` and `CeremonyDriver` are the key ceremony, `Encrypter` the ballots,
  `DecryptionTrustee`, `DecryptionCoordinator`, `TallyTheorem`, `Threshold`, `ThresholdExact`,
  `Publication`, `TallyRuns`, `RunsExact`, `TallyVotes`, `TallyDriver` and `TallyEndToEnd` the
  tally and its threshold decryption. `WholeElection` puts the ceremony, the ballots and the
  tally together, `RunNumbers` and `ElectionNumbers` say which numbers have to be written on
  the way, and `ElectionRun` holds an election on the objects themselves, as the example program
  does.
- **Fixed-width numbers** (`Words`, `Karatsuba`, `Barrett`, `BigMod`): big-endian word arrays
  changed in place, with every overlap of inputs and outputs that the callers use.
- **SHA-256** (`Bytes`, `Sha256`, `Sha256Context`): the streaming object against the standard,
  sections 4 to 6 of FIPS 180-4. `Sha256Constants` derives the constants from the first primes,
  and `Sha256Example` computes a published digest.
- **The wire format** (`Wire`, `Serialize`, `SerializeMessages`, `SerializeOperations`,
  `SerializeFragments`, `SerializeLists`): reserve, write and read over one mutable state;
  `SerializeLayout` says at which offsets the parts of a key and of a ballot stand.
- **The ballot box** (`HashIndex`, `BallotBox`) and the **tracker text** (`Tracker`).

What the source updates in place is a class or an array here, and every method is specified
by a function of the old state; the theorems are about those functions. The group is any
primes p and q with a generator of order q; the number of trustees, selections and ballots is
arbitrary up to the source's own limits (at most five trustees where the drivers check it).
Numbers held by GMP are unbounded integers, GMP's operations are their mathematical
specifications. The hash behind the challenges is an arbitrary function into [0, q); random
draws are arbitrary arguments in range. `Fills` says when a number can be written at all:
`export_to_64_t` fails unless it fills exactly its words (src/electionguard/bignum.c:245), so
success of a run is stated as an if-and-only-if with that condition.

Where the code and its own description, or the expected behaviour, differ, the model follows
the code, and the difference is a theorem:

- The Lagrange coefficients range over all announced trustees (decryption/trustee.c:343-365), but only
  the first `threshold` of them are asked for the missing ones (decryption/coordinator.c:236-249).
  The joint secret is rebuilt for every choice of keys exactly when `threshold` or all trustees
  announce (`ThresholdExact.RebuildsExactly`); `Publication.TwoOfThreeFails` is a concrete failure.
  `RunsExact.RunsDecodeExactly` says the same of whole runs: in between, some run of honest
  trustees passes every check and decodes something else than the votes.
- The comment above `uint8192_mod_o` calls violating the assumption on the reciprocal safe. It is
  safe for smaller reciprocals only; `Barrett.ReductionExact` is the exact condition.
- `log_generator_mod_p` compares its argument, not its result, with 5000000
  (src/electionguard/bignum.c:179): `Bignum.LogGeneratorModP` fails exactly on that literal.
- `receive_shares_generated` and `receive_shares_verified` overwrite the error of a message that
  could not be deserialized (keyceremony/coordinator.c:270 and 373); only `receive_key_generated`
  keeps it. The `intact` argument of the three methods says so.
- `uintnwords_succ_o` writes no word to the left of the one that takes the carry, so with an output
  apart from its input it is the successor only if the right words stood there already
  (`Words.SuccessorExactly`). Its only caller works in place.
- `receive_shares_verified` marks a trustee as seen before it looks at the report
  (keyceremony/coordinator.c:378-383): `KeyCeremonyCoordinator.RefusalsDoNotPreventPublication`.
  Claims about whole ceremonies are therefore about the driver, which stops at the first error.
- `API_TallyVotes` clears as many places of the trustee table as states were given, whichever
  places they took: the last postcondition of `TallyDriver.TallyApi.TallyVotes` says what remains.
- Two trackers of different lengths can look alike, as the last chunk is filled up with zeros
  (`Tracker.PaddingIsNotShown`). The text of an empty tracker is not defined: the terminator
  would be written before the buffer.
- src/electionguard/voting/nouns.h speaks of 2^12 words; the list has 5976, of which 4096 are used.

## Model

| member | source | states |
|---|---|---|
| Group.GeneratorInjective | src/electionguard/bignum.c:120-134 | Powers of the generator are equal exactly when their exponents agree modulo q |
| Group.DivModPIsExp | src/electionguard/bignum.c:206-215 | Dividing by an element of order q is multiplying by its opposite power |
| Bignum.LogGeneratorModP | src/electionguard/bignum.c:162-184 | The search ends with the discrete logarithm below q; it fails exactly when the element is the literal 5000000 (and not 1) |
| Bignum.DiscreteLogUnique | src/electionguard/bignum.c:162-184 | The logarithm of g^e with e below q is e |
| Primes.InvertFinds | src/electionguard/bignum.c:206-226 | The number that mpz_invert is taken to return is an inverse whenever there is one |
| Interpolation.Product1 | src/electionguard/decryption/trustee.c:367-379 | The loop computes the product of j + 1 over the other available trustees, modulo q |
| Interpolation.Product2 | src/electionguard/decryption/trustee.c:381-400 | The loop computes the product of j - i over the other available trustees, modulo q |
| Interpolation.DenominatorInvertible | src/electionguard/decryption/trustee.c:381-400 | The denominator of a coefficient is never zero modulo q |
| Interpolation.WeightEquation | src/electionguard/decryption/trustee.c:460-476 | The coefficient a trustee computes is numerator over denominator modulo q |
| Interpolation.WeightsSumToOne | src/electionguard/decryption/trustee.c:460-476 | The coefficients of any set of available trustees sum to one modulo q |
| Interpolation.MomentsVanish | src/electionguard/decryption/trustee.c:460-476 | Weighted with the coefficients, every power from the first to below the number of trustees sums to zero modulo q |
| Interpolation.Reconstruction | src/electionguard/decryption/trustee.c:343-400 | For every set of at least as many trustees as coefficients, the weighted sum of the values of a polynomial is its constant term modulo q |
| Rsa.NextPrime | src/electionguard/rsa.c:47-80 | mpz_nextprime as a search: the least prime above its argument |
| Rsa.SelectPrime | src/electionguard/rsa.c:22-66 | The search for p, and for q: it ends, with the least prime not leaving 1 modulo 3 above the number that the random bytes make |
| Rsa.StartKeepsBytes | src/electionguard/rsa.c:36-44 | That number has the random bytes as its digits to the base 256, but for the top two bits and the bottom bit, which are set |
| Rsa.AttemptByteIs | src/electionguard/rsa.c:55-59 | A byte for q is the low word of a random number modulo 255 |
| Rsa.CarmichaelFacts | src/electionguard/rsa.c:66-86 | The two asserts of key generation hold for every pair of primes it selects: 3 is below lambda and coprime to it |
| Rsa.GenerateKeys | src/electionguard/rsa.c:22-95 | Every key pair is valid, its p is the prime of the bytes for p and its q that of the first attempt with another prime; there is none if and only if all attempts end in p; the modulus has a lower bound from the buffer's size |
| Rsa.DecryptEncrypt | src/electionguard/rsa.c:97-106 | decrypt(encrypt(m)) = m for every m below n, coprime to n or not (sections 5.1.1 and 5.1.2 of RFC 8017) |
| Crypto.ComputeTrusteePolynomial | src/electionguard/crypto.c:357-375 | The accumulating loop computes the polynomial's value modulo q |
| Crypto.CreateEncryptedKeyShare | src/electionguard/crypto.c:412-433 | A share is the encryption of the polynomial's value at the receiver's index plus one |
| Crypto.CheckShareAgainstPublicKeys | src/electionguard/crypto.c:377-409 | The loop's product of commitments, raised to powers of the index, is compared with g to the decrypted share |
| Crypto.CombinedCommitmentIsPower | src/electionguard/crypto.c:377-409 | Against commitments to coefficients, that product is g to the polynomial's value |
| Crypto.ShareCheckExact | src/electionguard/crypto.c:377-409 | The check accepts a share if and only if it decrypts to the polynomial's value modulo q |
| Crypto.HonestShareAccepted | src/electionguard/crypto.c:377-433 | An honestly created share decrypts to the value and is accepted |
| Crypto.GenerateJointPublicKey | src/electionguard/crypto.c:468-482 | The loop multiplies the trustees' first commitments |
| Crypto.ProductOfPowers | src/electionguard/crypto.c:468-482 | The product of powers of g is g to the sum |
| Crypto.EncryptEncrypts | src/electionguard/crypto.c:877-887 | The ciphertext is (g^r, K^r * g^t) for the nonce r and the message g^t |
| Crypto.ZeroEncrypts | src/electionguard/crypto.c:942-946 | The neutral ciphertext encrypts zero |
| Crypto.AddEncrypts | src/electionguard/crypto.c:948-954 | Adding ciphertexts adds the nonces and what is encrypted |
| Crypto.DecryptEncrypts | src/electionguard/decryption/coordinator.c:438-452 | Dividing the message by g^d leaves g to the plaintext, off by s*r - d |
| Proofs.CheckKeypairProof | src/electionguard/crypto.c:98-125 | The loop accepts exactly the keys all of whose Schnorr equations hold |
| Proofs.GenKeypair | src/electionguard/crypto.c:127-222 | For all draws the commitments are to the drawn coefficients and nonces, the challenge is the hash of base hash and both lists of commitments, and the key's own check accepts it |
| Proofs.KeypairProofSound | src/electionguard/crypto.c:98-125 | Two accepted proofs with the same commitments and different challenges give away the logarithm of every coefficient's commitment |
| Proofs.KeyChallengeBinds | src/electionguard/crypto.c:165-195 | Unless the hash has a collision, equal challenges of two keys come from equal base hashes and equal commitments |
| Proofs.DecryptionChallengeBinds | src/electionguard/crypto.c:541-548 | The same for a decryption's proof: base hash, tally entry, the proof's commitment and the share |
| Proofs.AggregateChallengeBinds | src/electionguard/crypto.c:504-510 | The same for a total's proof: base hash, ciphertext and the proof's commitment |
| Proofs.DisChallengeBinds | src/electionguard/crypto.c:751-770 | The same for a selection's proof: base hash, ciphertext and both commitments in their order |
| Proofs.ExtractSecret | src/electionguard/crypto.c:98-125 | Two accepting answers to different challenges for one commitment give away the discrete logarithm |
| Proofs.DecryptionProofComplete | src/electionguard/crypto.c:513-590 | The proof made for a trustee's own share is accepted, for every draw, and its commitment is to the draw |
| Proofs.DecryptionProofSound | src/electionguard/crypto.c:558-590 | Two accepting transcripts with one commitment and different challenges force key and share to have the same exponent |
| Proofs.AggregateProofComplete | src/electionguard/crypto.c:594-688 | The proof of a ballot's total is accepted whenever the ciphertext encrypts the announced total with a nonce congruent to the prover's, and its commitment is to the draw |
| Proofs.AggregateProofSound | src/electionguard/crypto.c:594-661 | Two accepting transcripts with one commitment and different challenges force the ciphertext to encrypt exactly the total |
| Proofs.DisProofComplete | src/electionguard/crypto.c:690-874 | For either selection and every draw the disjunctive proof of an honest encryption is accepted, its challenge is bound to both its commitments, and its real and simulated halves use the draws |
| Proofs.DisProofSound | src/electionguard/crypto.c:810-874 | Two accepting transcripts with equal commitments and different total challenges modulo q force (g^r, K^r) or (g^r, g*K^r), for an r computed from them |
| KeyCeremonyCoordinator.KeyCoordinator.constructor | src/electionguard/keyceremony/coordinator.c:62-107 | Nothing has been seen, at the threshold and number of trustees given |
| KeyCeremonyCoordinator.KeyCoordinator.ReceiveKeyGenerated | src/electionguard/keyceremony/coordinator.c:124-180 | Each status exactly in its case; an unseen index with a proof that holds is stored and marked, anything else changes nothing; a message that could not be deserialized is refused |
| KeyCeremonyCoordinator.KeyCoordinator.AllKeysReceived | src/electionguard/keyceremony/coordinator.c:183-240 | Only when all have been seen the keys are sent and the marks cleared |
| KeyCeremonyCoordinator.KeyCoordinator.ReceiveSharesGenerated | src/electionguard/keyceremony/coordinator.c:243-291 | Each status exactly in its case; the shares of an unseen index are stored and marked, others refused, whether or not the message could be deserialized: that error is overwritten |
| KeyCeremonyCoordinator.KeyCoordinator.AllSharesReceived | src/electionguard/keyceremony/coordinator.c:294-347 | Only when all have been seen the shares are sent and the marks cleared |
| KeyCeremonyCoordinator.KeyCoordinator.ReceiveSharesVerified | src/electionguard/keyceremony/coordinator.c:350-386 | Each status exactly in its case; an unseen index is marked even when its report is a refusal, which only the status tells; the error of a message that could not be deserialized is overwritten |
| KeyCeremonyCoordinator.KeyCoordinator.PublishJointKey | src/electionguard/keyceremony/coordinator.c:389-432 | The joint key is published if all have been seen and it fills its words |
| KeyCeremonyCoordinator.KeysAreFirst | src/electionguard/keyceremony/coordinator.c:124-180 | After any messages in any order, a trustee has been seen exactly if one of its messages had a proof that holds, and the first such key is the one stored |
| KeyCeremonyCoordinator.SharesAreFirst | src/electionguard/keyceremony/coordinator.c:243-291 | After any messages, the shares kept for a trustee are those of its first message |
| KeyCeremonyCoordinator.RefusalsDoNotPreventPublication | src/electionguard/keyceremony/coordinator.c:350-386 | A full set of reports passes the last count whatever they say, and leaves the keys as they are |
| KeyCeremonyTrustee.KeyTrustee.GenerateKey | src/electionguard/keyceremony/trustee.c:98-189 | The message holds the key of the draws and is accepted by its check; secret, own key and status are as stated, nothing else changes |
| KeyCeremonyTrustee.KeyTrustee.GenerateShares | src/electionguard/keyceremony/trustee.c:192-278 | If its own key came back unchanged the trustee deals a share under every key and adopts the keys, otherwise nothing changes |
| KeyCeremonyTrustee.KeyTrustee.VerifyShares | src/electionguard/keyceremony/trustee.c:281-376 | It succeeds exactly if every share agrees with its dealer's commitments; only then the shares are kept |
| KeyCeremonyTrustee.ShareAgreesExactly | src/electionguard/keyceremony/trustee.c:281-376 | A share agrees with commitments to a polynomial if and only if it decrypts to its value at the trustee's index plus one, modulo q |
| CeremonyDriver.ElectionApi.ExportState | src/electionguard/keyceremony/trustee.c:379-426 | After an honest ceremony the exported state is the one the draws determine, and it is exported exactly if it can be written |
| KeyCeremonyTrustee.ShareCubeFits | src/electionguard/keyceremony/trustee.c:217-258 | An encrypted share is the plain cube of a value below q, never needs more than its 12 words, and can be written exactly if it needs all of them |
| CreateElection.DealtShareAgrees | src/electionguard/api/create_election.c:260-348 | Every dealt share decrypts to P_i(l+1) mod q and agrees with its dealer's commitments |
| CreateElection.ExportedStatesAreHonest | src/electionguard/api/create_election.c:363-380 | Every state the ceremony exports holds shares congruent to the polynomials' values, which is all decryption relies on |
| CreateElection.JointKeyIsPowerOfSecrets | src/electionguard/api/create_election.c:350-361 | The joint key is g to the sum of the constant terms |
| CeremonyDriver.ElectionApi.GenerateKeys | src/electionguard/api/create_election.c:207-245 | Every trustee is seen once with the key of its draws, or the phase stops at the first key that cannot be written |
| CeremonyDriver.ElectionApi.GenerateShares | src/electionguard/api/create_election.c:260-298 | Every trustee is seen once with the shares it dealt, or the phase stops at the first that cannot be written |
| CeremonyDriver.ElectionApi.VerifyShares | src/electionguard/api/create_election.c:313-348 | Nobody refuses a share in an honest ceremony, and every trustee is counted once |
| CeremonyDriver.ElectionApi.ExportTrusteeStates | src/electionguard/api/create_election.c:363-380 | All states are exported, or the first that cannot be written stops it |
| CeremonyDriver.ElectionApi.CreateElection | src/electionguard/api/create_election.c:34-150 | The ceremony returns true exactly if the parameters are accepted and all numbers fill their words; then joint key and states are the ones the draws determine |
| Encrypter.VotingEncrypter.ValidateSelections | src/electionguard/voting/encrypter.c:167-176 | Accepts exactly when as many are selected as expected |
| Encrypter.VotingEncrypter.EncryptBallot | src/electionguard/voting/encrypter.c:179-375 | For every valid vector and every draw the ballot encrypts it, no check of its own proofs fails, the message is the bytes of the ballot, the tracker is the SHA-256 digest of the message, and the counter advances exactly on success |
| Encrypter.VotingEncrypter.TrackerOf | src/electionguard/voting/encrypter.c:347-369 | One update with the whole message gives the digest of its bytes |
| Encrypter.VotingEncrypter.EncryptSelections | src/electionguard/voting/encrypter.c:245-309 | Through the whole loop every disjunctive proof and the aggregate proof are accepted |
| Encrypter.BallotEncryptsSelections | src/electionguard/voting/encrypter.c:245-309 | Selection by selection the ballot encrypts 0 or 1 as selected, with its nonce |
| DecryptionTrustee.Trustee.AccumTally | src/electionguard/decryption/trustee.c:198-209 | Every entry is multiplied, in place, by the ballot's entry |
| DecryptionTrustee.Trustee.TallyVotingRecord | src/electionguard/decryption/trustee.c:212-266 | Exactly the cast ballots are added; a record for another number of selections is refused and changes nothing |
| DecryptionTrustee.CreateArrayOfAvailableTrustees | src/electionguard/decryption/trustee.c:343-365 | The array is filled with the indices that are not requested, in order |
| DecryptionTrustee.Trustee.ComputeShare | src/electionguard/decryption/trustee.c:269-340 | The share raises every nonce encoding to the trustee's secret |
| DecryptionTrustee.Trustee.ComputeFragments | src/electionguard/decryption/trustee.c:403-533 | A fragment raises it to the decrypted share of every requested trustee, with the trustee's own coefficient |
| DecryptionCoordinator.Coordinator.ReceiveShare | src/electionguard/decryption/coordinator.c:87-194 | Each status exactly in its case, and the tallies after an accepted share; a disagreement about the messages is reported after the trustee has been marked |
| DecryptionCoordinator.Coordinator.FillRequests | src/electionguard/decryption/coordinator.c:216-284 | The first `threshold` announced trustees are asked for all missing ones, other announced ones for nothing, missing ones not at all |
| DecryptionCoordinator.Coordinator.AllSharesReceived | src/electionguard/decryption/coordinator.c:287-321 | It goes on exactly if at least `threshold` have announced |
| DecryptionCoordinator.Coordinator.ReceiveFragments | src/electionguard/decryption/coordinator.c:324-403 | Each status exactly in its case; the weighted fragments are multiplied in once, counted per requested trustee |
| DecryptionCoordinator.Coordinator.AllTrusteesSeenOrCompensated | src/electionguard/decryption/coordinator.c:406-417 | True exactly if all announced have responded and all missing have been counted `threshold` times |
| DecryptionCoordinator.Coordinator.AllFragmentsReceived | src/electionguard/decryption/coordinator.c:420-482 | The error cases in their order, and as results the logarithms of the decoded elements |
| TallyTheorem.SharePhaseStep | src/electionguard/decryption/coordinator.c:116-194 | From any state of the announcing phase: an honest share is accepted once, a duplicate changes nothing, every nonce encoding stays raised to the sum of the announced secrets |
| TallyTheorem.FragmentPhaseInitially | src/electionguard/decryption/coordinator.c:287-321 | With at least the threshold announced, the compensating phase starts from its invariant |
| TallyTheorem.FragmentPhaseStep | src/electionguard/decryption/coordinator.c:324-403 | From any state of the compensating phase: an honest answer is multiplied in once, a duplicate or one from a missing trustee changes nothing, every missing trustee has been counted once per asked responder |
| TallyTheorem.FragmentsMultiplyIn | src/electionguard/decryption/coordinator.c:354-388 | What one responder multiplies in is its coefficient times its shares of the missing trustees, in the exponent |
| TallyRuns.SharesInAnyOrder | src/electionguard/decryption/coordinator.c:116-194 | After honest shares in any order and number, exactly their senders have announced, and every nonce encoding is raised to the sum of their secrets |
| TallyRuns.AnswersInAnyOrder | src/electionguard/decryption/coordinator.c:324-403 | After honest answers in any order and number, exactly the announced trustees among their senders have responded, and the compensating invariant holds |
| TallyRuns.AnyOrder | src/electionguard/decryption/coordinator.c:87-417 | A run of any shares and then any answers passes the final check exactly if every announced trustee has answered, and then every tally is raised to the combined secret |
| Threshold.AllAnswered | src/electionguard/decryption/coordinator.c:406-417 | Once all announced have answered, every missing trustee has been counted exactly `threshold` times, so the final check passes |
| Threshold.CombinedIsSecret | src/electionguard/decryption/trustee.c:403-533 | With exactly `threshold` or all trustees announced, the exponents multiplied in sum to the joint secret modulo q |
| ThresholdExact.WeightsDiffer | src/electionguard/decryption/trustee.c:343-400 | More available trustees than are asked change the first one's coefficient modulo q |
| ThresholdExact.RebuildFails | src/electionguard/decryption/trustee.c:343-400 | Then some polynomial of the right degree is not rebuilt from the asked trustees' weighted values |
| ThresholdExact.RebuildsExactly | src/electionguard/decryption/coordinator.c:236-249 | With at least the threshold announced, the joint secret is rebuilt for all keys if and only if exactly `threshold` or all announce |
| Publication.TallyEncryptsSums | src/electionguard/decryption/trustee.c:212-266 | The tally of a record encrypts, selection by selection, the sum over its cast ballots |
| Publication.DecodedTally | src/electionguard/decryption/coordinator.c:438-452 | The decoded element is g to the votes, off by the nonce times what is missing from the secret |
| Publication.DecodedIsVotesExactly | src/electionguard/decryption/coordinator.c:438-452 | It is g to the votes exactly if nothing is missing, up to the nonce |
| Publication.PublishedIsVotes | src/electionguard/decryption/coordinator.c:438-475 | With the whole secret the published number is the sum of the votes modulo 2^32 |
| Publication.TwoOfThreeFails | src/electionguard/decryption/coordinator.c:236-249 | Two of three trustees announcing at threshold one do not rebuild the secret of the given keys |
| TallyRuns.AnyOrderPublishesVotes | src/electionguard/decryption/coordinator.c:420-482 | Any such run with exactly `threshold` or all trustees decodes to g to the votes, and publishes the votes modulo 2^32 |
| RunsExact.DecodesExactly | src/electionguard/decryption/coordinator.c:438-452 | What a run that passes the final check decodes is g to the votes if and only if the tally's nonce is 0 modulo q or the announced trustees rebuild the secret |
| RunsExact.SomeRun | src/electionguard/decryption/coordinator.c:87-417 | Every set of at least `threshold` trustees announces in some honest run that passes the final check |
| RunsExact.RunsDecodeExactly | src/electionguard/decryption/coordinator.c:236-249 | For a set of announced trustees, all runs of all elections decode to the votes if and only if the set is exactly `threshold` or all trustees |
| TallyVotes.RunSharesAnnounces | src/electionguard/api/tally_votes.c:183-218 | After any part of the announcing loop exactly the trustees reached have announced, all accepted |
| TallyVotes.RunFragmentsRespond | src/electionguard/api/tally_votes.c:246-293 | After any part of the answering loop exactly the announced trustees reached have responded |
| TallyVotes.HonestRun | src/electionguard/api/tally_votes.c:31-102 | A run of honest trustees, at least the threshold, passes the final check with every tally raised to the combined secret |
| TallyDriver.TallyApi.InitializeTrustees | src/electionguard/api/tally_votes.c:127-147 | Enough states seat the trustees at their own indices, the last state for an index winning |
| TallyVotes.LatestIsLast | src/electionguard/api/tally_votes.c:127-147 | The state that ends up at a place is the last one given for it |
| TallyDriver.TallyApi.TallyBallots | src/electionguard/api/tally_votes.c:149-181 | Every seated trustee reads the record from its start and arrives at the same tally |
| TallyDriver.TallyApi.DecryptTallyShares | src/electionguard/api/tally_votes.c:183-218 | The loop succeeds exactly if every share can be written, and leaves the coordinator in the announced state |
| TallyDriver.TallyApi.RequestMissingTallyShares | src/electionguard/api/tally_votes.c:220-244 | Asking once per trustee gives the same requests every time, to exactly the announced trustees |
| TallyDriver.TallyApi.DecryptTallyDecryptionFragments | src/electionguard/api/tally_votes.c:246-293 | The loop succeeds exactly if every answer can be written, and leaves the coordinator as after all of them |
| TallyDriver.TallyApi.TallyVotes | src/electionguard/api/tally_votes.c:31-102 | A run returns true exactly under the listed conditions, then its results are the published tallies; and what the cleanup leaves in the trustee table |
| TallyEndToEnd.VotesArePublished | src/electionguard/api/tally_votes.c:31-102 | With exactly `threshold` or all trustees of a ceremony, the tallies decode to g^T for the sum T of cast votes, publishing gives T mod 2^32, and only unwritable numbers and the literal 5000000 make the run fail |
| RunNumbers.RunSucceedsExactly | src/electionguard/api/tally_votes.c:31-102 | With any number of honest trustees from the threshold on, a run succeeds if and only if listed powers of g and Lagrange coefficients fill their words and no result decodes to the literal 5000000 |
| WholeElection.ReadyToTally | src/electionguard/api/tally_votes.c:31-102 | What a tally run needs of its inputs holds after every ceremony and voting |
| WholeElection.ElectionBehind | src/electionguard/api/create_election.c:34-150 | Ceremony, ballots and record make up one election whose sums are the voters' counts |
| WholeElection.PublishedCountsVotes | src/electionguard/decryption/coordinator.c:420-482 | After any ceremony and any voting, a run with exactly `threshold` or all trustees publishes for every selection the number of cast ballots that chose it, modulo 2^32 |
| ElectionNumbers.CeremonySucceedsExactly | src/electionguard/api/create_election.c:34-150 | A ceremony goes through if and only if its parameters are accepted and the numbers made of its draws fill their words |
| ElectionNumbers.BallotFitsExactly | src/electionguard/voting/encrypter.c:245-309 | A ballot can be written if and only if g^r and g^(s*r + v) fill their words for each of its nonces r and votes v |
| ElectionNumbers.RunFitsExactly | src/electionguard/api/tally_votes.c:31-102 | The run of exactly `threshold` or all trustees, in the sums of the cast ballots' nonces and votes |
| ElectionRun.EncryptBallots | examples/api/main.c:115-151 | The loop over the voters succeeds exactly if every ballot is valid and can be written, and its ballots encrypt the voters' marks |
| ElectionRun.HoldElection | examples/api/main.c:55-337 | With `threshold` or all trustees attending, an election held on the objects succeeds if and only if the parameters are accepted, enough states are given, every voter marks as many as expected, and each of the listed numbers fits; its results are the cast votes for every selection, modulo 2^32. With fewer there are no results |
| Words.FirstDifference | src/electionguard/uint4096.c:66-73 | The first differing word decides which of two numbers is smaller |
| Words.Add | src/electionguard/uint4096.c:37-47 | Sum and carry are exact, also when the output overlaps an input from above, and nothing outside the output changes |
| Words.Succ | src/electionguard/uint4096.c:50-57 | The words down to the first one without a carry become one more, the words to the left of it are not written |
| Words.SuccessorExactly | src/electionguard/uint4096.c:50-57 | With its carry the output is the successor if and only if the words not written stood there already, as they do in place |
| Words.Negate | src/electionguard/uint4096.c:59-64 | The two's complement, also in place |
| Words.Compare | src/electionguard/uint4096.c:66-73 | The sign of the comparison of the two numbers, zero exactly for equal words |
| Karatsuba.MixedProducts | src/electionguard/uint4096.c:120-150 | The signed product of the differences and the outer products sum to the two mixed products |
| Karatsuba.ProductOfParts | src/electionguard/uint4096.c:97-159 | Outer products and shifted middle make up the product |
| Karatsuba.MiddleValue | src/electionguard/uint4096.c:138-150 | Though taken modulo the middle's words, the three additions end in its true value |
| Karatsuba.MultiplyWords | src/electionguard/uint4096.c:97-118 | One word by one word through half words is exact, the carries between the halves included |
| Karatsuba.AddParts | src/electionguard/uint4096.c:150-159 | The last addition is the product, and has no carry to lose |
| Karatsuba.Multiply | src/electionguard/uint4096.c:97-159 | For every n and all inputs of 2^n words exactly a*b is stored in 2^(n+1) words, wherever the output overlaps the inputs |
| Barrett.AtMostOneRound | src/electionguard/uint4096.c:167-190 | With the reciprocal rounded down the result is a mod m and the correction loop runs at most once |
| Barrett.ReducedIsRemainder | src/electionguard/uint4096.c:167-190 | With any smaller reciprocal the result is a mod m as well |
| Barrett.TooLargeReciprocalFails | src/electionguard/uint4096.c:161-166 | Every larger reciprocal, unless m divides the word range, reduces some number wrongly |
| Barrett.ReductionExact | src/electionguard/uint4096.c:161-190 | Every number is reduced to its remainder if and only if m divides the word range R or reciprocal * m is at most R + 1 |
| BigMod.SubtractWhileFits | src/electionguard/uint4096.c:180-187 | The correction loop ends, with the remainder, after as many rounds as the quotient |
| BigMod.Reduce | src/electionguard/uint4096.c:167-190 | The method on arrays computes exactly the reduction analysed above, for any reciprocal and overlap |
| BigMod.MultMod | src/electionguard/uint4096.c:221-225 | a*b mod m, also when the result overwrites a factor |
| BigMod.BitLength | src/electionguard/uint4096.c:228-236 | The scan ends above the highest set bit, and finds none exactly in zero |
| BigMod.BitOfWords | src/electionguard/uint4096.c:238-246 | The bit looked at in round i is bit i of the exponent |
| BigMod.SquareStep | src/electionguard/uint4096.c:238-246 | A round keeps outcome * base^(rest of the exponent) modulo m |
| BigMod.PowMod | src/electionguard/uint4096.c:226-248 | base^exponent mod m for every base, exponent and m >= 2, zero exponents and bases above m included |
| Sha256Context.Context.Init | src/electionguard/sha2-openbsd.c:285-293 | The context of the empty message |
| Sha256Context.Context.ExtendSchedule | src/electionguard/sha2-openbsd.c:420-440 | Word j of the schedule is computed from, and written over, the sixteen words before it |
| Sha256Context.Context.Transform | src/electionguard/sha2-openbsd.c:382-457 | The compression of section 6.2.2 of FIPS 180-4 with its 64-entry schedule, also when the block is the buffer the schedule is kept in |
| Sha256Context.Context.Update | src/electionguard/sha2-openbsd.c:462-505 | A context that holds m holds m followed by the new bytes afterwards |
| Sha256Context.Context.Final | src/electionguard/sha2-openbsd.c:508-568 | The digest of all bytes as padded in section 5.1.1 of FIPS 180-4; the context is wiped |
| Sha256Context.DigestOfChunks | src/electionguard/sha2-openbsd.c:285-568 | However a message is split into updates, the digest is that of the whole message, as the example and the constants below pin it |
| Sha256Example.DigestOfAbc | src/electionguard/sha2-openbsd.c:285-568 | The digest of "abc" is the published one of the FIPS 180-4 examples |
| Sha256Constants.FirstPrimes | src/electionguard/sha2-openbsd.c:183-201 | The primes used below are the first 64, in order |
| Sha256Constants.RoundConstants | src/electionguard/sha2-openbsd.c:183-201 | Every round constant is the first 32 bits of the fractional part of the cube root of its prime |
| Sha256Constants.InitialWords | src/electionguard/sha2-openbsd.c:203-212 | Every initial hash word is the same of the square root of its prime |
| Sha256.CompressionUndone | src/electionguard/sha2-openbsd.c:382-457 | For every hash value and block: without the hash value added at the end, 64 rounds backwards lead from the compression's result to the hash value |
| Sha256.PaddingShape | src/electionguard/sha2-openbsd.c:508-550 | The padded message is the message, a one bit, the fewest zeros, and the bit count modulo 2^64, most significant byte first |
| Sha256.FilledBlock | src/electionguard/sha2-openbsd.c:462-505 | Filling the last block up compresses it and leaves nothing over |
| Sha256.NotFilled | src/electionguard/sha2-openbsd.c:462-505 | Bytes that do not fill it up change no hash value |
| Sha256.ReversedWord | src/electionguard/sha2-openbsd.c:117-124 | The masks and shifts of REVERSE64 turn the eight bytes of a word around |
| Sha256.ReversedNumber | src/electionguard/sha2-openbsd.c:508-550 | Reversing the word by masks and shifts in a little-endian host stores the bit count most significant byte first |
| Wire.BytesRoundTrip | src/electionguard/serialize/builtins.c:8-24 | Writing bytes and reading them back gives the number modulo the bytes' range |
| Wire.BytesAreDigits | src/electionguard/serialize/builtins.c:8-24 | The bytes of a number are its digits to the base 256, least significant first |
| Wire.NumberBytes | src/electionguard/serialize/crypto.c:15-42 | The bytes of a number field are its 64-bit words from the top, each least significant byte first |
| Wire.ExportImport | src/electionguard/bignum.c:230-369 | Exported words are imported as the same number |
| Wire.BytesConcat | src/electionguard/serialize/builtins.c:26-139 | The bytes of fields one after another |
| Serialize.State.Allocate | src/electionguard/serialize/state.c:5-18 | A buffer of exactly what has been reserved, and the switch to writing |
| Serialize.State.WriteUint32 | src/electionguard/serialize/builtins.c:77-88 | The offset advances by the field and the bytes before it stay |
| Serialize.State.WriteUint64s | src/electionguard/serialize/crypto.c:15-42 | A number that fills its words is appended, any other fails the message for good |
| Serialize.State.WriteUint64sPadded | src/electionguard/serialize/crypto.c:44-71 | A number that needs fewer words is padded |
| Serialize.State.ReadUint32 | src/electionguard/serialize/builtins.c:90-103 | What was written is read, and the offset advances by as much |
| Serialize.State.ReadUint64s | src/electionguard/serialize/crypto.c:73-90 | Either kind of number field is read back as the number |
| SerializeMessages.KeyGeneratedCanBeWritten | src/electionguard/serialize/keyceremony.c:13-19 | The ceremony's condition on a key message is exactly that every field can be written |
| SerializeMessages.FragmentsCanBeWritten | src/electionguard/serialize/decryption.c:77-94 | The same for fragments and the decryption run |
| SerializeOperations.TransmitKeyGenerated | src/electionguard/serialize/keyceremony.c:5-27 | The reserve pass totals the bytes the write pass emits, and those are the message's; writing succeeds exactly if every number fills its words, and then reading gives the same message |
| SerializeOperations.TransmitTrusteeState | src/electionguard/serialize/trustee_state.c:5-36 | The same for the state between ceremony and decryption |
| SerializeFragments.ReserveFragments | src/electionguard/serialize/decryption.c:59-75 | The reserve pass of the message whose shape depends on its own flags totals its bytes |
| SerializeFragments.TransmitFragments | src/electionguard/serialize/decryption.c:59-114 | It is written exactly if its numbers can be, and read back unchanged |
| SerializeLists.TransmitAllKeys | src/electionguard/serialize/keyceremony.c:29-60 | Everybody's keys: success and round trip as above |
| SerializeLists.TransmitSharesGenerated | src/electionguard/serialize/keyceremony.c:62-89 | A trustee's shares: success exactly if each fills its 12 words, and round trip |
| SerializeLists.TransmitAllShares | src/electionguard/serialize/keyceremony.c:91-116 | All shares, in two nested loops: the same |
| SerializeLists.TransmitSharesVerified | src/electionguard/serialize/keyceremony.c:118-137 | A report is always written and read back |
| SerializeLists.TransmitJointKey | src/electionguard/serialize/crypto.c:407-426 | The joint key: success exactly if it fills its words, and round trip |
| SerializeLists.TransmitShare | src/electionguard/serialize/decryption.c:5-30 | A tally share: success exactly if its ciphertexts fill their words, and round trip |
| SerializeLists.TransmitRequest | src/electionguard/serialize/decryption.c:32-57 | A request is always written and read back |
| SerializeLists.TransmitBallot | src/electionguard/serialize/crypto.c:449-489 | An encrypted ballot: success exactly if its ciphertexts fill their words, and round trip |
| SerializeLayout.KeyGeneratedLayout | src/electionguard/serialize/keyceremony.c:13-19 | At which offset of the message each part of a trustee's key stands |
| SerializeLayout.BallotLayout | src/electionguard/serialize/crypto.c:449-489 | The same for an encrypted ballot, whose bytes the tracker is the digest of |
| HashIndex.UnlinkChain | src/electionguard/uthash.h:801-813 | Unlinking an element leaves a chain of the others, linked both ways |
| HashIndex.MoveChain | src/electionguard/uthash.h:864-884 | The elements of an old bucket all end up at the heads of their new buckets, with counts and the excess over the ideal length right |
| HashIndex.ExpandBuckets | src/electionguard/uthash.h:846-896 | Doubling loses no element, duplicates none, and puts each where its hash value is looked for |
| HashIndex.MapOfEntries | src/electionguard/uthash.h:407-428 | With distinct keys the entries are a map of the same size |
| HashIndex.MapWithout | src/electionguard/uthash.h:465-488 | Deleting an entry takes its key and nothing else out of the map |
| HashIndex.NotInOrder | src/electionguard/uthash.h:752-774 | A key that is not in its own bucket is nowhere in the table |
| HashIndex.Table.Find | src/electionguard/uthash.h:164-180 | An element is found exactly if its key is in the map, and it is that one |
| HashIndex.Table.Expand | src/electionguard/uthash.h:846-896 | Bucket count, excess, and the counter and flag that stop ineffective doublings |
| HashIndex.Table.Add | src/electionguard/uthash.h:407-428 | A new key is added last, and the buckets are doubled exactly if its own has reached its multiple of the capacity; the integrity check (HASH_FSCK, lines 533-578) holds afterwards |
| HashIndex.Table.Delete | src/electionguard/uthash.h:465-488 | The element is taken out of order and map, and the check holds; the last element takes the table with it |
| BallotBox.NeverBoth | src/electionguard/voting/ballot_collection.c:36-217 | After any run of operations no ballot is both cast and spoiled |
| BallotBox.MarksAreFinal | src/electionguard/voting/ballot_collection.c:132-191 | In any run, while a ballot stays in the box it keeps index and tracker, and its mark |
| BallotBox.MarkedOnce | src/electionguard/voting/ballot_collection.c:132-217 | In any run at most one mark of a ballot is accepted, and exactly one if it ends up marked |
| BallotBox.MarkedAsFirst | src/electionguard/voting/ballot_collection.c:132-191 | In any run, while a ballot stays in the box it ends up cast if and only if the first mark for it is to cast it, spoiled if and only if it is to spoil it, and every later mark is answered by which it was |
| BallotBox.RegisteredAsFirst | src/electionguard/voting/ballot_collection.c:36-66 | Its first registration, in any run, puts a ballot in the box, unmarked, with that tracker and index |
| BallotBox.OthersDoNotMatter | src/electionguard/voting/ballot_collection.c:36-191 | Operations on other ballots leave a ballot as it is |
| BallotBox.Collection.GetBallot | src/electionguard/voting/ballot_collection.c:78-94 | Success exactly for identifiers in the box, with the record kept for it |
| BallotBox.Collection.RegisterBallot | src/electionguard/voting/ballot_collection.c:36-66 | An identifier is registered once, unmarked, and the answer says which |
| BallotBox.Collection.Update | src/electionguard/voting/ballot_collection.c:132-191 | Deleting the old record and adding the changed copy gives that ballot exactly the two marks asked for and changes nothing else, with every error case |
| BallotBox.Collection.MarkBallotCast | src/electionguard/voting/ballot_collection.c:68-71 | Accepted exactly for an unmarked ballot in the box, which is cast and not spoiled afterwards; the tracker kept at registration is handed out |
| BallotBox.Collection.MarkBallotSpoiled | src/electionguard/voting/ballot_collection.c:73-76 | Accepted exactly for an unmarked ballot in the box, which is spoiled and not cast afterwards |
| BallotBox.Collection.RemoveBallot | src/electionguard/voting/ballot_collection.c:96-117 | Exactly this ballot is taken out, or nothing if it is not there |
| BallotBox.Collection.RemoveAllBallots | src/electionguard/voting/ballot_collection.c:119-130 | Deleting while iterating ends, with an empty box |
| Tracker.Measure | src/electionguard/voting/tracker.c:42-67 | The sizing pass gives the length of the text |
| Tracker.Fill | src/electionguard/voting/tracker.c:69-95 | The filling pass writes the text and ends exactly at the end of the buffer |
| Tracker.DisplayChunk | src/electionguard/voting/tracker.c:24-40 | A chunk fills its own stretch and leaves all other bytes |
| Tracker.DisplayBallotTracker | src/electionguard/voting/tracker.c:42-105 | The final assertion holds, and the result is the text with its last separator replaced |
| Tracker.ChunkShown | src/electionguard/voting/tracker.c:24-105 | Where each chunk stands in the text, the word for its first three half-bytes, and the character of the alphabet for each of its other five |
| Tracker.ShownAlike | src/electionguard/voting/tracker.c:42-105 | With distinct words free of spaces, two trackers look the same if and only if they have as many chunks and differ in nothing but zeros at the end |
| Tracker.DifferentTrackersLookDifferent | src/electionguard/voting/tracker.c:42-105 | Different trackers of equal length never look the same |
| Tracker.PaddingIsNotShown | src/electionguard/voting/tracker.c:57-67 | One byte looks like the same byte followed by a zero |

## Left out

- Files, directories, logging, and reading ballots back from text: a voting record is a list of cast flags and ciphertexts, messages are values or byte buffers.
- Memory allocation failure, malloc and free, GMP's init and clear, secure zeroing: none of the modelled claims depends on them. That one memory block is freed once is not modelled.
- Randomness: draws are arguments, with no claim about their distribution. `Rsa.GenerateKeys` takes its bytes as arguments; when they run out it returns nothing.
- The concrete p, q, g and Barrett reciprocal: their properties are hypotheses (`Group.Valid`, `BigMod.Modulus.Good`).
- Secrecy and hardness claims. The hash behind challenges is a function into [0, q) of what is hashed; `Proofs.CheckKeypairProof` ignores it, as the source does not recompute the challenge there.
- What the coordinators do not check: proofs of decryption shares are not on the wire, and check results the source ignores are ignored here.
- ThresholdExact.RebuildsExactly: assumes n^n < q (5^5 against a 256-bit q), since in a tiny field two different sets of trustees may happen to give the same coefficient.
- RunsExact.RunsDecodeExactly: assumes n^n < q as well.
- Proofs.KeyChallengeBinds: what is hashed is a list of numbers; how the numbers are serialized for the hash, and the digest's reduction modulo q, are not modelled.
- ElectionRun.HoldElection: ballots go to the tally directly, not through the files in between; registering and marking them is `BallotBox`.
- TallyEndToEnd.VotesArePublished: the sums are below q; above it only the sum modulo q can be decoded.
- WholeElection.PublishedCountsVotes: fewer voters than q, and every mark a single selection per entry, as the encrypter accepts it.
- Tracker.DisplayBallotTracker: the empty tracker is excluded, for which the source writes before its buffer.
- HashIndex.Table.Add: a key that is present already is excluded, as the header asks of its callers; the 32-bit counters are unbounded, and bucket numbers are remainders, which the masks are for powers of two.
- HashIndex.Table.Find: the hash function is any function of the key; the Bloom filter, sorting and selecting are left out.
- BallotBox.Collection.RegisterBallot: identifiers and trackers are values; that the record keeps the caller's pointers is not modelled.
- Serialize.State.Allocate: reading a truncated or foreign buffer is not modelled; a buffer read is one that a finished writer filled.
- Bit masks and shifts in serialize/builtins.c are divisions and remainders by powers of 256; in SHA-256 they are bit vectors. The word of the 4096-bit numbers is the source's 64-bit word.
- SHA-384, SHA-512 and the unrolled transform: the same argument again. Bit counts wrap at 2^64 as in the source.
- uint4096_zext, uint4096_logmod, printing and scanning of numbers: not used by the operations modelled.
- The ballot marking screens of voting/coordinator.c, its file names, and the ballot limit it checks.

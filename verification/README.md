# Verified model of elgamal-bn254

A Dafny 4.11 model of the Go library elgamal-bn254: exponential ElGamal over a group of prime order,
baby-step giant-step decryption, six Schnorr-style proofs made non-interactive with a hashed
transcript, and their wire formats. `dafny verify dfyconfig.toml` checks everything.

## What is modelled, and how

- **Group** (`Curve.dfy`). Affine points and Jacobian triples are plain coordinates; the curve test, the
  Jacobian addition and the normalisation to affine form come from the curve library and are
  parameters of the datatype `Curve`. Addition of affine points is computed as the source computes it,
  through Jacobian coordinates. `Curve.Valid` states what is relied on: the points on the curve (the
  identity `(0, 0)` included) are an abelian group of prime order `q` generated by `G`, and Jacobian
  values represent affine ones. Points are never identified with exponents. `CurveInstance.dfy` shows
  the laws consistent for every prime order. Inverses modulo `q` are derived from primality by the
  extended Euclidean algorithm (`Scalars.dfy`).
- **Discrete logarithms** (`DiscreteLogs.dfy`, `DecryptionTable.dfy`, `SplitDecryption.dfy`). The two
  solvers are classes with the source's loops, running Jacobian points and 64-bit results. Their
  specification is exhaustive search.
- **Proofs**. `Sigma.dfy` proves completeness, special soundness, challenge uniqueness and simulation
  once for every linear statement over shared scalars; `FiatShamir.dfy` adds transcript absorption,
  validation, runs over a shared transcript, digest counting and binding of the hashed bytes. Each
  prover and verifier (`Dleq.dfy`, `Equality.dfy`, `ApplyPending.dfy`, `CommitmentEquality.dfy`,
  `Possession.dfy`) is a method with the source's order of checks and early returns, proved to compute
  the generic `HonestProof` or `Accepts` for its own claim; lemmas then say what that claim means for
  keys, plaintexts and decryption. `Sessions.dfy` states the results that span the six,
  `ResponseUniqueness.dfy` that accepted proofs cannot be varied, and `RunBinding.dfy` what the hashed
  bytes determine over runs of many proofs. `Explicit.dfy` writes out, for each protocol, exactly the
  inputs and equations a verifier accepts and the values a prover returns, and `HashedText.dfy` every
  label and datum hashed, in order.
- **Transcript** (`Transcript.dfy`). A class holding the byte string, with length-prefixed frames and
  the digest folded back after each challenge. The hash is a parameter: any function to 32 bytes.
- **Wire formats** (`Serialization.dfy`). Fixed slots written into an array at running offsets and read
  back with early return; reading is proved to accept exactly the strings that writing produces, and
  `WireLayout` gives the byte offset of every field.

Nonces are arguments. `uint64` results wrap explicitly. The verifiers take any points, on the curve or
not, and test exactly what the source tests. The provers, like the source's, do not test every point
they multiply; for a point off the curve their results are those of repeated addition, which the
library's scalar multiplication need not match. The group laws, and hence the lemmas about meaning,
concern points on the curve, which is what reading from the wire guarantees.

## Where the code and its comments differ

- `split_decryption.go:74-76` says the residual of a wrong low part is not a multiple of nG. In a group
  of prime order every residual is one (`EveryResidualIsMultiple`); the wrong ones are rejected because
  the multiplier lies outside the range of the high table.
- The split solver's result is exact on its whole range if and only if
  `splitBits + 2 * hiHalfBits <= 64`, which the constructor does not require; beyond that the value
  comes back modulo 2^64 without an error (`SplitExactIff`).
- `transcript.go:17-20` promises an unambiguous encoding without a length bound. It is exact precisely
  when every length is below 2^32 (`DecodesTranscript`, `LongDomainCollides`).
- `transcript.go:72` gives 2^256 mod q as 0.216 * 2^254; it is 0.2193 * 2^254 (`ChallengeBias`).
- `ciphertext.go:68-69` calls an identity C2 a legitimate encryption of 0 with randomness 0, but that
  ciphertext also has an identity C1 and is rejected (`FreshValidIff`). `KeyGen` and `Encrypt` can draw
  zero, and the verifiers then reject honest proofs (`HonestPossessionAccepted`, `HonestDleqAccepted`).

## Model

| member | source | states |
|---|---|---|
| DiscreteLogs.GiantStep | decryption_table.go:111-121 | j giant steps from P land on baby step i exactly when P is (j*n + i) times the base, for any base point |
| DecryptionTables.DecryptionTable.WithBase | decryption_table.go:49-97 | the loop leaves a table holding exactly the multiples i*base below 2^halfBits, each under a logarithm of it, and the giant step -(2^halfBits)*base; also when the base has small order; any base is taken, the contents are stated for a base on the curve |
| DecryptionTables.DecryptionTable.DiscreteLog | decryption_table.go:101-125 | sound and complete below 2^(2*halfBits) for any base and point on the curve; equal to linear search when the range is within q; exact number of lookups v/2^halfBits + 1, and 2^halfBits on failure; no 64-bit overflow |
| DecryptionTables.DecryptionTable.AddBabySteps | decryption_table.go:68-82 | after the loop the table and the running point are those of 2^halfBits baby steps |
| DecryptionTables.FoundAt | decryption_table.go:116-118 | on a hit j*n + i is in range, does not overflow 64 bits and is the least logarithm |
| DecryptionTables.MissedRow | decryption_table.go:113-121 | a miss excludes the whole row of n logarithms |
| SplitDecryption.SplitDecryptionTable.constructor | split_decryption.go:44-64 | the high table is built to the base 2^splitBits * G |
| SplitDecryption.SplitDecryptionTable.DiscreteLog | split_decryption.go:77-105 | on the curve, succeeds exactly on multiples of G below 2^(splitBits + 2*hiHalfBits); returns the scalar modulo 2^64, and performs exactly lo full searches plus the successful one |
| SplitDecryption.WorkWhenFound | split_decryption.go:16-24 | the lookups spent on m are (m % 2^s) * 2^h + (m / 2^s) / 2^h + 1, never more than 2^s * 2^h |
| SplitDecryption.FoundHigh | split_decryption.go:92-98 | a high part found for residual mG - lo*G makes hi*2^s + lo the one logarithm of mG in range |
| SplitDecryption.EveryResidualIsMultiple | split_decryption.go:74-76 | every residual, right or wrong, is a multiple of nG, contrary to the comment |
| SplitDecryption.SplitExactIff | split_decryption.go:26-64 | every value in range is returned exactly if and only if splitBits + 2*hiHalfBits <= 64; otherwise 2^64 decrypts to 0 |
| SplitDecryption.DeployedOrderCovers | split_decryption.go:44-50 | the admitted parameters keep the range at most 2^92, below the deployed order, so the range hypotheses exclude nothing |
| SplitDecryption.SplitAgreesWithPlain | split_decryption.go:77-105 | over the same range the split and the plain solver return the same result on every curve point, failures included |
| DiscreteLogs.SolveMultiple | decryption_table.go:99-125 | a covering solver answers k*G with k mod q, modulo 2^64, exactly when k mod q is below the range |
| ElGamal.Decryptor.DiscreteLog | decryption_table.go:18-23 | both solver types compute the same specification over their own range, for every curve point |
| ElGamal.Decrypt | elgamal.go:114-145 | decryption answers the discrete logarithm of C2 - sk*C1 over the solver's range, for points on the curve |
| ElGamal.EncryptionHides | elgamal.go:72-107 | encryption fails exactly for a key off the curve or the identity; otherwise it gives (r*G, amount*G + r*pk), whose second part is amount*G only for r zero modulo q |
| ElGamal.UnmaskEncryption | elgamal.go:72-109 | decrypting an encryption of m leaves m*G, whatever the randomness |
| ElGamal.PlaintextUnique | elgamal.go:72-109 | a ciphertext has one plaintext and one randomness under a given key |
| ElGamal.FreshValidIff | ciphertext.go:65-84 | a fresh ciphertext passes validation exactly when its randomness is nonzero modulo q |
| ElGamal.AddEncrypts | elgamal.go:147-172 | adding encryptions of m and n encrypts m + n with the sum of the randomness |
| ElGamal.SubEncrypts | elgamal.go:174-185 | subtracting encryptions of m and n encrypts m - n with the difference of the randomness, modulo q |
| ElGamal.RunEncrypts | elgamal.go:147-185 | any tree of Add and Sub over fresh encryptions encrypts the signed total modulo q |
| ElGamal.RunDecrypts | elgamal.go:114-185 | such a run decrypts to its total when that lies in the solver's range, and to an error when the total is negative but above range - q |
| Sigma.Completeness | dleq.go:60-64 | honest responses satisfy every verification equation of any linear statement |
| Sigma.SpecialSoundness | equality.go:202-251 | two accepting transcripts with one commitment list and two challenges give a solution of any linear statement |
| Sigma.FalseStatementOneChallenge | dleq.go:104-153 | for a false statement and fixed commitments at most one challenge can be answered |
| Sigma.TrueStatementEveryChallenge | dleq.go:60-64 | for a true statement every challenge can be answered, whatever nonces were committed to |
| Sigma.SimulateIffCheck | apply_pending_proof.go:178-280 | the accepting transcripts are exactly those whose commitments are solved from the verification equations |
| Sigma.RespondBijection | equality.go:105-121 | for fixed challenge and witness, nonces and responses correspond one to one |
| Sigma.Simulation | commitment_equality.go:135-145 | for a true statement the honest transcripts over all nonces are exactly the simulated ones over all responses |
| FiatShamir.HonestAccepted | dleq.go:71-154 | an honest proof of a true statement is accepted exactly when it passes the verifier's validation |
| FiatShamir.Lockstep | transcript.go:94-112 | any sequence of admissible honest proofs on one transcript is accepted in order, with prover and verifier states equal after every step |
| FiatShamir.LockstepIff | pop.go:38-60 | with provers that refuse bad inputs and leave the transcript alone, and provers that do not, a run is accepted throughout and in lockstep exactly when every proof in it is made and passes validation |
| FiatShamir.FalseStatementDigests | transcript.go:73-85 | at most 2^256/q + 1 digests, six for the deployed order, can be answered for a false statement |
| FiatShamir.AcceptedDigestIsAnswerable | transcript.go:94-112 | whenever a verifier accepts, with any hash function and transcript, the digest it drew is one of those counted |
| FiatShamir.HashedDetermines | transcript.go:30-42 | equal hashed bytes of two proofs, in any contexts, mean equal domain, absorbed items and challenge label |
| FiatShamir.HashedBinds | transcript.go:44-48 | in one context equal hashed bytes force the same points, data and commitments |
| FiatShamir.ItemsBind | transcript.go:44-48 | claims of one kind that absorb the same items have the same points, data and commitments |
| Reduction.HitCount | transcript.go:65-76 | among N numbers each residue e modulo q is hit N/q times, once more exactly when e < N mod q |
| Reduction.ChallengeBias | transcript.go:67-76 | for the deployed order: five hits, six exactly below 2^256 - 5q |
| Transcripts.Transcript.constructor | transcript.go:21-28 | the state is the four-byte little-endian length of the domain and the domain |
| Transcripts.Transcript.AppendBytes | transcript.go:34-42 | appends the four-byte little-endian length and the bytes of the label, then of the data, nothing else |
| Transcripts.Transcript.AppendPoint | transcript.go:44-48 | appends the canonical 64-byte encoding under its label |
| Transcripts.Transcript.ChallengeScalar | transcript.go:94-112 | the challenge is the hash of the old state and the framed label, reduced modulo q, and those bytes and the hash are the new state |
| Bytes.LittleEndianAt | transcript.go:35-39 | byte i of a little-endian length or amount is its i-th base-256 digit |
| Bytes.BigEndianAt | serialization.go:33-38 | byte i from the right of a big-endian encoding is its i-th base-256 digit |
| Bytes.AsciiCodes | transcript.go:26 | the bytes of a label are its character codes |
| Transcripts.DecodesTranscript | transcript.go:17-42 | a decoder recovers domain, items and challenge label from the bytes hashed at the first challenge, exactly when every length is below 2^32 |
| Transcripts.HashInputInjective | transcript.go:30-33 | equal bytes at the first challenge mean equal domain, items and label |
| Transcripts.LongDomainCollides | transcript.go:23-26 | a domain of 2^32 zero bytes collides with the empty domain followed by 2^29 empty items |
| HashedText.DefaultStart | transcript.go:21-28 | without a caller transcript a proof starts from 17, 0, 0, 0 and the seventeen bytes of the default domain |
| HashedText.DleqText | dleq.go:46-58 | what is hashed decodes to the caller's context, then the type, key, C1, C2, amount in eight little-endian bytes and both commitments under their labels, then the challenge label |
| HashedText.EqualityText | equality.go:167-187 | the same for three keys: type, keys, ciphertexts and six commitments in the source's order |
| HashedText.Equality2Text | equality.go:399-414 | the same for two keys |
| HashedText.ApplyText | apply_pending_proof.go:158-171 | the same for apply-pending |
| HashedText.CommitmentText | commitment_equality.go:47-133 | the same for commitment equality |
| HashedText.PopText | pop.go:32-59 | the same for possession |
| Explicit.DleqDecides | dleq.go:71-154 | accepted exactly when key, C1 and C2 are on the curve, key and C1 are not the identity, S*G == R1 + e*pk and S*C1 == R2 + e*(C2 - amount*G); an input turned away leaves the transcript as it was |
| Explicit.EqualityDecides | equality.go:144-254 | accepted exactly when all keys and ciphertexts are on the curve, no key and no C1 is the identity, and the six equations hold; no condition on distinct keys |
| Explicit.Equality2Decides | equality.go:374-480 | the same for two keys and four equations, so an identity key is never accepted |
| Explicit.ApplyDecides | apply_pending_proof.go:137-281 | accepted exactly when key and both ciphertexts are valid and the four equations hold |
| Explicit.CommitmentDecides | commitment_equality.go:155-238 | accepted exactly when pk, H, the ciphertext, P and the three nonce commitments are valid and the three equations hold |
| Explicit.PopDecides | pop.go:68-96 | accepted exactly when pk and A are on the curve and not the identity and Z*G == A + e*pk |
| Explicit.DleqProves | dleq.go:26-67 | the proof is R1 = k*G, R2 = k*C1, S = k + e*sk modulo q |
| Explicit.EqualityProves | equality.go:57-130 | R1i = kri*G, R2i = km*G + kri*pki, Sm = km + e*m and Sri = kri + e*ri modulo q for three keys |
| Explicit.Equality2Proves | equality.go:296-365 | the same for two keys |
| Explicit.ApplyProves | apply_pending_proof.go:58-132 | the four commitments and three responses of apply-pending, field by field |
| Explicit.CommitmentProves | commitment_equality.go:113-148 | the three commitments and three responses of commitment equality, field by field |
| Explicit.PopProves | pop.go:47-65 | A = k*G and Z = k + e*sk modulo q |
| Dleq.ProveDLEQ | dleq.go:26-67 | computes the generic honest proof for the decryption claim and leaves the transcript in the generic state |
| Dleq.VerifyDLEQ | dleq.go:71-154 | accepts exactly when the generic verifier does; an invalid key or ciphertext leaves the transcript untouched |
| Dleq.CheckDLEQ | dleq.go:104-153 | the two hand-written equations are the two rows of the linear statement |
| Dleq.DleqMeaning | dleq.go:12-14 | the linear statement holds of sk exactly when sk is the key's secret and takes the ciphertext to amount*G |
| Dleq.HonestDleqAccepted | dleq.go:71-82 | an honest proof is accepted exactly when key and C1 are not the identity |
| Dleq.DleqAmountUnique | dleq.go:12-14 | one secret key and one uint64 amount at most make the statement true |
| Dleq.DleqSoundness | dleq.go:104-153 | two accepting transcripts yield the secret key, with which any covering solver decrypts to exactly the claimed amount |
| Equality.CommitKeys | equality.go:57-77 | the commitment loop computes the generic commitments, for any number of keys |
| Equality.RespondKeys | equality.go:105-121 | the response loop computes the generic responses with one shared amount response |
| Equality.CheckKeys | equality.go:197-253 | the verification loop with early return decides the generic check, for any number of keys |
| Equality.ProveEquality | equality.go:26-130 | computes the generic honest proof of the three-key claim |
| Equality.VerifyEquality | equality.go:144-254 | accepts exactly when the generic verifier does for three keys |
| Equality.ProveEquality2 | equality.go:273-365 | computes the generic honest proof of the two-key claim |
| Equality.VerifyEquality2 | equality.go:374-480 | accepts exactly when the generic verifier does for two keys |
| Equality.EqualityMeaning | equality.go:11-18 | the linear statement says every ciphertext encrypts the same m |
| Equality.EqualitySoundness | equality.go:132-143 | two accepting transcripts yield one m and all r_i; every key holder, keys distinct or not, decrypts to m*G and gets the same answer from any solver |
| Equality.EqualityHonest | equality.go:20-25 | encryptions of one amount solve the statement |
| Equality.HonestEqualityAccepted | equality.go:132-160 | for true statements with keys on the curve, and all nonces, an honest proof is accepted exactly when no key and no C1 is the identity, whether the keys are distinct or not |
| Equality.HonestEquality2Accepted | equality.go:370-395 | the same for two keys; rotation to the identity key is never accepted |
| ApplyPending.ProveApplyPending | apply_pending_proof.go:31-132 | computes the generic honest proof of the apply-pending claim |
| ApplyPending.VerifyApplyPending | apply_pending_proof.go:137-281 | accepts exactly when the generic verifier does |
| ApplyPending.CheckApply | apply_pending_proof.go:178-280 | the four blocks with early returns decide the four rows sharing the amount and key responses |
| ApplyPending.ApplyMeaning | apply_pending_proof.go:15-19 | the linear statement is exactly the four documented relations |
| ApplyPending.ApplyHonest | apply_pending_proof.go:25-30 | an honest re-encryption solves the statement |
| ApplyPending.HonestApplyAccepted | apply_pending_proof.go:144-153 | for true statements with pending C1 on the curve, and all nonces, an honest proof is accepted exactly when neither the key nor either C1 is the identity |
| ApplyPending.ApplySoundness | apply_pending_proof.go:134-136 | two accepting transcripts yield m, sk and rNew; pending and new ciphertext then decrypt alike under the only secret key, to one value or both to an error |
| CommitmentEquality.ProveCommitmentEquality | commitment_equality.go:73-148 | fails, without touching the transcript, exactly when pk or H is off the curve or the identity, else computes the generic honest proof |
| CommitmentEquality.VerifyCommitmentEquality | commitment_equality.go:155-238 | accepts exactly when the generic strict verifier does, identity and off-curve nonce commitments rejected |
| CommitmentEquality.CommitmentMeaning | commitment_equality.go:29-37 | the linear statement says ciphertext and commitment open to one value |
| CommitmentEquality.CommitmentSoundness | commitment_equality.go:202-237 | two accepting transcripts yield the ciphertext's only plaintext, which opens the commitment; an opening to another value gives the logarithm of H explicitly |
| CommitmentEquality.TwoOpenings | commitment_equality.go:24-27 | two openings to different values reveal x with H = x*G, by formula |
| CommitmentEquality.CiphertextIsNoCommitment | commitment_equality.go:17-22 | the owner of a nonzero sk opens C2 alone to any value, with the documented randomness |
| CommitmentEquality.HonestCommitmentAccepted | commitment_equality.go:165-189 | an honest proof is accepted exactly when C1, the commitment and the nonce commitments are not the identity |
| Possession.ProvePossession | pop.go:38-66 | fails, without touching the transcript, exactly when pk is off the curve or the identity, else computes the generic honest proof |
| Possession.VerifyPossession | pop.go:68-96 | accepts exactly when the generic strict verifier does |
| Possession.PossessionSoundness | pop.go:87-95 | two accepting transcripts yield the one secret key of pk |
| Possession.HonestPossessionAccepted | pop.go:68-79 | an honest proof is accepted exactly when secret and nonce are nonzero modulo q |
| Sessions.ProversRefuse | pop.go:43-45 | of the six provers only those of possession and commitment equality refuse a statement, exactly when a base is off the curve or the identity |
| Sessions.WitnessIffSatisfies | equality.go:11-12 | for all six protocols the linear statement checked is the intended relation between keys and plaintexts |
| Sessions.StatementSoundness | dleq.go:104-153 | for all six, two accepting transcripts extract a witness of the intended relation |
| Sessions.StatementSimulation | apply_pending_proof.go:112-126 | for all six, honest and simulated transcripts coincide |
| Sessions.MixedRunLockstep | transcript.go:56-63 | any mixed sequence of the six proofs, true and not degenerate, is accepted in order on a shared transcript with equal states after every step |
| Sessions.FalseStatementAtMostSix | transcript.go:78-85 | for a false statement at most six of the 2^256 digests can be answered |
| Sessions.AcceptedDigestCounted | transcript.go:78-85 | whenever the verifier of any of the six accepts, its digest is among the at most six counted for a false statement |
| Sessions.AlwaysTrueStatements | pop.go:16-17 | possession and commitment equality have no false statements, so extraction is the guarantee there |
| Sessions.HashedKind | dleq.go:88-100 | proofs of two kinds never hash the same bytes, in any caller contexts |
| Sessions.HashedStatement | commitment_equality.go:45-63 | in one context equal hashed bytes mean the same keys, ciphertexts, amount and commitments, for each of the six kinds |
| ResponseUniqueness.ResponsesUnique | serialization.go:46-49 | for each of the six admissible statements, commitments and challenge admit at most one canonical response vector that verifies |
| ResponseUniqueness.AcceptedProofUnique | serialization.go:63-71 | two proofs accepted from one transcript with the same commitments are the same proof, so an accepted proof cannot be varied |
| RunBinding.LayoutFixesLength | transcript.go:30-48 | two proofs of one kind write the same number of bytes, whatever their points |
| RunBinding.RunLengths | transcript.go:56-63 | hence transcripts of two runs with the same kinds stay the same distance apart in length |
| RunBinding.StepBinds | transcript.go:30-48 | equal bytes hashed for two proofs of one kind, from any transcripts, force equal transcripts, data and commitments |
| RunBinding.RunBinds | transcript.go:56-63 | two runs, even under two hash functions, hash the same bytes at the last of many proofs if and only if they started from the same transcript, absorbed the same data and commitments at every step and drew the same digest at every earlier step |
| RunBinding.DigestsAreFolded | transcript.go:105-106 | one run under two hash functions hashes the same last bytes only if every earlier digest is the same, so no digest is left out of the state |
| RunBinding.StatementRunBinds | transcript.go:56-63 | for runs of the six in the same order of kinds, equal hashed bytes at step k mean equal statements and commitments at every step up to k |
| Serialization.PointSlotExact | serialization.go:56-91 | a 64-byte slot is read as P exactly when P is on the curve and the slot is its canonical uncompressed encoding |
| Serialization.ScalarSlotExact | serialization.go:46-54 | a 32-byte slot is read as s exactly when s is below q and the slot is its big-endian encoding |
| Serialization.MarshalScalarAt | serialization.go:33-38 | writes the slot at the offset and leaves the rest of the buffer alone |
| Serialization.MarshalPointAt | serialization.go:40-44 | writes the slot at the offset and leaves the rest of the buffer alone |
| Serialization.MarshalScalars | serialization.go:33-38 | running offsets write all scalars one after the other at the front |
| Serialization.MarshalPoints | serialization.go:40-44 | running offsets write all points after what precedes them, which stays as it was |
| Serialization.MarshalProof | serialization.go:130-146 | the buffer is the scalars followed by the points |
| Serialization.UnmarshalProof | serialization.go:148-173 | accepts exactly the encodings of proofs with canonical scalars and curve points, and returns the proof encoded; an error names the first slot that cannot be read |
| Serialization.ProofRoundTrip | serialization.go:93-126 | reading back what was written returns the same proof |
| Serialization.EncodeProofInjective | serialization.go:63-71 | distinct well-formed proofs have distinct encodings |
| Serialization.WireSize | serialization.go:10-31 | the documented proof sizes are 32 bytes per scalar and 64 per point of each type |
| Serialization.Marshal | serialization.go:130-146 | each of the six types is written with every field at its documented byte offset, and nothing else |
| Serialization.Unmarshal | serialization.go:148-173 | for each type, accepts exactly the documented layouts of its well-formed proofs and returns the proof laid out; an error names the first slot that cannot be read |
| Serialization.LayoutIsEncoding | serialization.go:97-105 | the documented layout of fields at offsets and the encoding slot by slot are the same byte string, for all six types |
| Serialization.AnyProofInjective | serialization.go:10-31 | one byte string is the layout of at most one proof of a type |
| Serialization.UnmarshalPublicKey | serialization.go:270-286 | accepts exactly the encodings of curve points other than the identity; the encoding of the identity is the only degenerate error |
| Serialization.UnmarshalCiphertext | ciphertext.go:31-52 | accepts exactly the encodings of ciphertexts on the curve with C1 not the identity, C1 in the first half and C2 in the second |
| Encoding.DeployedFitsWire | serialization.go:56-71 | the deployed moduli fit the slots and leave the two format bits clear, so the hypothesis of the wire results holds of the deployed curve |
| Encoding.MarshalPointInjective | serialization.go:40-44 | points with reduced coordinates have distinct encodings |
| Encoding.PointBytes | serialization.go:40-44 | byte by byte: the x coordinate first, each coordinate most significant byte first |
| Curves.MulOne | elgamal.go:30-36 | multiplication by 1 is the identity map |
| Curves.MulAdds | elgamal.go:30-36 | multiplication by a + b is the sum of the multiplications |
| Curves.MulInjective | elgamal.go:30-36 | multiplication of a non-identity point is injective on canonical scalars, from primality |
| CurveInstance.InstanceIsValid | elgamal.go:30-36 | the group laws relied on hold of an actual group, for every prime order |

## Left out

- The curve library itself: Jacobian formulas, Montgomery form and scalar multiplication algorithms; its coordinate decoding is modelled as canonical big-endian coordinates plus the curve test.
- Keccak-256: any function to 32 bytes; no collision resistance or random-oracle probability is claimed.
- Decoding past a challenge: the folded digest carries no label or length, so decoding without knowing the order of kinds is stated up to the first challenge; for a known order `StatementRunBinds` covers any number of challenges.
- ElGamal.Decrypt: takes any ciphertext but says nothing about the result for one off the curve, which the source does not check there either, because the group laws do not extend to them.
- DecryptionTables.DecryptionTable.WithBase: takes any base, but says what the table holds only for a base on the curve, for the same reason.
- DecryptionTables.DecryptionTable.DiscreteLog: takes any point, but says only the number of lookups and the range of the result for points off the curve.
- SplitDecryption.SplitDecryptionTable.DiscreteLog: the same, for points off the curve.
- ElGamal.Decryptor.DiscreteLog: the same, for points off the curve.
- Dleq.DleqSoundness: takes the commitments to be on the curve, as reading a proof guarantees, because VerifyDLEQ, VerifyEquality, VerifyEquality2 and VerifyApplyPending do not test them.
- Equality.EqualitySoundness: takes the commitments to be on the curve, for the same reason.
- ApplyPending.ApplySoundness: takes the commitments to be on the curve, for the same reason.
- Sessions.StatementSoundness: takes the commitments to be on the curve, for the same reason.
- Sessions.FalseStatementAtMostSix: counts answers for commitments on the curve, for the same reason.
- Serialization.Unmarshal: returns the proof instead of filling a receiver, so the fields a failing read leaves behind are not captured.
- Randomness readers: nonces are arguments; a failed draw returns before the transcript is touched.
- Nil arguments, error texts and panics on bad parameters, which are preconditions here.
- The duplicated loops of the three-key and two-key proofs are written once for any number of keys, and the runs of AppendPoint calls are loops over lists of labels and points, which prover and verifier each write out in the source's order.
- Memos (memo.go): authenticated encryption around one commutation of scalar multiplication.
- Zero-knowledge as a distribution, hardness assumptions, timing and memory.

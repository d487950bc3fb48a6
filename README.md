# zkid-zkp: the encoding layer around an age/attribute proof

zkid-zkp lets a holder prove, with a Groth16 proof over BN254, that their attributes satisfy a
policy without revealing them. The attributes are name, nation, address, age, identity number
and biometric attribute bytes. The prover does four things:

- derives a DID: Keccak-256 over the concatenated attribute bytes;
- turns the attributes into a circuit assignment: hashed strings, raw age, hashed identity bytes,
  hashed attribute bytes and the DID;
- computes an off-circuit MiMC commitment `C` over nine of those values;
- proves a circuit with two constraints: MiMC of the same nine signals equals the public `C`,
  and the public `Threshold` is at most the private `AttrValue`.

The mock verifier rebuilds the same assignment and hands the public part of the witness to Groth16
verification. The public part is `(PolicyID, Version, C, Threshold)`.

This project models that deterministic layer in Dafny and proves properties of it:

- the byte and integer encodings;
- DID derivation;
- the assignment and witness construction;
- the commitment loop;
- the circuit's satisfaction predicate;
- the public-input vector and its decimal export;
- the verifier's duplicate constructor and public-witness assembly.

Keccak-256 and MiMC are the two fields of a `Primitives` value. Every operation takes that value as
a parameter, so every result holds for any pair of hash functions:

- Keccak-256 here is the Ethereum "legacy" Keccak, with the original padding. It maps bytes to a
  32-byte digest.
- MiMC maps a sequence of field elements to a field element.
- One function stands for both the in-circuit MiMC gadget and gnark-crypto's bn254/fr MiMC. This
  is the model's one assumption about them: that they agree on every input.

Modules:

- `Encoding`: bytes, Go's `int64`, and the encodings behind `big.Int.SetBytes`, `big.Int.Bytes`
  and `big.Int.String`, plus fixed-width big-endian encoding.
- `Crypto`: the BN254 scalar field `Fr` and reduction mod r, the `Primitives` pair, the helper
  that reads a Keccak digest as an integer, and `fr.Element.Marshal`.
- `FrMiMC`: the mutable MiMC hasher that the commitment loop writes into, as a class.
- `Circuits`: the `Circuit` struct (generic in its value type), its declared public/private layout,
  the reduction of an assignment into a witness, and `Define` as a predicate.
- `ProveAge`: `ComputeLocalDID`, `NewAssignmentCircuit`, `ComputeCommitment` and its loop,
  `ExportPublicInputs`, the checkable part of `GenerateProof`, and the demonstration run of
  cmd/main.go.
- `VerifyAgeMock`: the mock verifier's duplicate `NewAssignmentCircuit` and `VerifyProof` up to the
  backend call.

How Go behaviour is modelled:

- `log.Fatalf` ends the process. It is modelled as the `Fatal` outcome, separate from a returned
  error (`Failed`).
- Go strings and `[]byte` are both `seq<byte>`.
- `*big.Int` values are unbounded `int`s.

The comparison in `Define` is the main ambiguity:

- circuits/circuit.go:72 compares `Threshold` with `AttrValue`, the Keccak digest of the attribute
  bytes.
- The comments beside that line and in the witness builder speak of comparing the raw `Age`.
- The model follows the code. `Circuits.Compared` names the compared signal, and `SatisfiedWith`
  is parametrised by it.
- `Circuits.AgeNotCompared` shows that, as written, a satisfying witness may have an age below its
  threshold, and that this witness would fail had `Age` been compared.

## Model

| member | source | states |
|---|---|---|
| Encoding.FromBytes | proof/prove_age.go:46 | `SetBytes` reads bytes as an unsigned big-endian number, always below 256^len |
| Encoding.MinimalBytes | proof/prove_age.go:55 | the minimal big-endian encoding of n decodes back to n, is empty exactly for 0 and never starts with a zero byte |
| Encoding.BigIntBytes | proof/prove_age.go:55-58 | `big.NewInt(x).Bytes()` decodes to abs(x), is empty exactly for 0 and has no leading zero byte |
| Encoding.MinimalBytesOfCanonical | proof/prove_age.go:58 | every byte string without a leading zero is the minimal encoding of its value: decoding then encoding is the identity |
| Encoding.MinimalBytesInjective | proof/prove_age.go:110-111 | distinct magnitudes have distinct encodings |
| Encoding.BigIntBytesDropsSign | proof/prove_age.go:110-111 | the encoding decodes to abs(x), and x and -x encode identically |
| Encoding.PadBytes | proof/prove_age.go:199 | the fixed-width encoding has exactly the requested width and decodes to the value |
| Encoding.Decimal | proof/prove_age.go:328 | `big.Int.String` of a non-negative value is a well-formed decimal numeral (digits only, no leading zero) that parses back to the value |
| Encoding.DecimalInjective | proof/prove_age.go:328 | distinct values print as distinct strings |
| Crypto.FieldFitsIn32Bytes | proof/prove_age.go:199 | r is below 2^256, so every field element fits the 32 bytes of `Marshal` |
| Crypto.Reduce | proof/prove_age.go:198 | `SetBigInt` yields a canonical element in [0, r) and leaves values already in [0, r) unchanged |
| Crypto.ReduceCongruent | proof/prove_age.go:208 | the reduced value is congruent to the original modulo r |
| Crypto.ReduceAll | proof/prove_age.go:196-199 | element-wise reduction keeps the length and reduces each element in place |
| Crypto.KeccakToInt | proof/prove_age.go:42-47 | the `toBigInt` helper yields an integer below 2^256 |
| Crypto.Marshal | proof/prove_age.go:199 | `fe.Marshal()` is a 32-byte block that decodes to the element |
| FrMiMC.Hasher.constructor | proof/prove_age.go:193 | a new hasher has absorbed nothing |
| FrMiMC.Hasher.Write | proof/prove_age.go:199 | a 32-byte block is accepted exactly when it encodes a value below r, and is then appended to the absorbed elements; otherwise the state is unchanged |
| FrMiMC.Hasher.Sum | proof/prove_age.go:202 | the 32-byte sum decodes to the MiMC of the absorbed elements |
| Circuits.PublicLayout | circuits/circuit.go:14-17 | the public signals in declaration order are exactly PolicyID, Version, C, Threshold |
| Circuits.PrivateLayout | circuits/circuit.go:20-26 | the private signals in declaration order are exactly Name, Age, Nation, Address, IdentityID, AttrValue, DID |
| Circuits.ToWitness | proof/prove_age.go:243 | `frontend.NewWitness` reduces every signal of the assignment into the field |
| Circuits.PublicPartOrder | circuits/circuit.go:13-17 | the public part of any witness is (PolicyID, Version, C, Threshold) in that order |
| Circuits.PublicPartReduce | proof/prove_age.go:243 | reducing an assignment's public values gives the public part of its witness |
| Circuits.HashInputsOrder | circuits/circuit.go:46-56 | the in-circuit hasher absorbs exactly PolicyID, Version, Name, Age, Nation, Address, IdentityID, AttrValue, DID in that order |
| Circuits.CommitmentInputsReduce | proof/prove_age.go:179-189 | the nine commitment inputs, each reduced, are exactly the nine values the circuit hashes in the witness |
| Circuits.HashIgnoresCAndThreshold | circuits/circuit.go:46-56 | changing C or Threshold leaves the in-circuit hash unchanged |
| Circuits.DefineIff | circuits/circuit.go:35-75 | a witness satisfies the circuit exactly when MiMC of the nine signals equals C and Threshold <= AttrValue; there is no other constraint and no range bound |
| Circuits.ThresholdMonotone | circuits/circuit.go:72 | a satisfying witness still satisfies with any lower threshold |
| Circuits.AgeNotCompared | circuits/circuit.go:70-72 | for any hash function some satisfying witness has Age below Threshold, and that witness would violate the constraint had Age been compared |
| ProveAge.DIDPreimage | proof/prove_age.go:114-120 | the DID preimage is the six fields concatenated without separators; its length is the sum of theirs |
| ProveAge.ComputeLocalDID | proof/prove_age.go:103-127 | the DID is Keccak of the preimage read as an integer, below 2^256 |
| ProveAge.NewAssignmentCircuit | proof/prove_age.go:33-98 | never returns an error; ends the process exactly when the supplied DID differs from `ComputeLocalDID`; otherwise the assignment holds the policy, version, C and threshold unchanged, the Keccak values of name, nation, address, the identity bytes and the attribute bytes, the raw age, and a DID equal to the supplied one |
| ProveAge.ComputeCommitment | proof/prove_age.go:145-214 | never returns an error; ends the process exactly on a DID mismatch; otherwise returns MiMC of the nine values in circuit order, each reduced, whatever threshold and C the assignment carried |
| ProveAge.MiMCOfReduced | proof/prove_age.go:193-211 | the loop that reduces, marshals and writes each input and then reads back and reduces the sum yields MiMC of the reduced inputs in order |
| ProveAge.AssignmentHashIsCommitment | proof/prove_age.go:155-189 | the circuit's hash over the prover's witness equals the off-circuit commitment, for every threshold and C |
| ProveAge.ProverWitnessSatisfiesIff | proof/prove_age.go:234-243 | the prover's witness satisfies the circuit exactly when C reduces to the commitment and the reduced threshold does not exceed the reduced Keccak of the attribute bytes |
| ProveAge.HonestCommitmentDecides | proof/prove_age.go:216-265 | with the DID and commitment computed from the same attributes, a proof exists exactly when the reduced threshold does not exceed the reduced attribute digest; the age does not decide it |
| ProveAge.ExportPublicInputs | proof/prove_age.go:320-332 | one decimal string per public element, in order, each parsing back to its element |
| ProveAge.GenerateProof | proof/prove_age.go:216-293 | ends the process exactly on a DID mismatch; fails exactly when the witness does not satisfy the circuit; on success returns (policyID, version, C, threshold), whose reductions are the witness's public part, and four decimal strings that parse to those reductions |
| ProveAge.NameNationBoundaryIgnored | proof/prove_age.go:115-116 | moving bytes across the name/nation boundary leaves the DID unchanged |
| ProveAge.SplitNamesCollide | proof/prove_age.go:115-117 | name "ab" with nation "c" and name "a" with nation "bc" give the same DID |
| ProveAge.IntegerBoundaryCollision | proof/prove_age.go:118-119 | age 1 with identity 2 and age 258 with identity 0 give the same DID |
| ProveAge.DIDIgnoresAgeSign | proof/prove_age.go:110 | age and -age give the same DID |
| ProveAge.MainScenarioPreimage | cmd/main.go:16 | in the demonstration run, age 28 and identity 123456789 contribute the bytes [28] and [7, 91, 205, 21] to the DID preimage |
| ProveAge.MainScenarioOutcome | cmd/main.go:16-34 | in the demonstration run, the assignment is built, and a proof for threshold 18 exists exactly when 18 does not exceed the reduced Keccak of [1, 2, 3, 4] |
| VerifyAgeMock.NewAssignmentCircuit | verifier_mock/verify_age.go:98-163 | the duplicate never returns an error, ends the process exactly on a DID mismatch, and keeps DID, C and the raw age |
| VerifyAgeMock.SameAssignmentAsProver | verifier_mock/verify_age.go:98-163 | the duplicate constructor yields the prover's outcome for every input |
| VerifyAgeMock.ReassigningCIsNoOp | verifier_mock/verify_age.go:56 | `assignment.C = C` leaves the assignment unchanged |
| VerifyAgeMock.VerifyProof | verifier_mock/verify_age.go:45-86 | ends the process exactly on a DID mismatch; otherwise the public witness passed on is (policyID, version, C, threshold), each reduced |
| VerifyAgeMock.VerifierSeesOnlyPublicInputs | verifier_mock/verify_age.go:76-88 | two holders whose attributes both pass the DID check yield the same public witness |
| VerifyAgeMock.HonestProofVerifies | verifier_mock/verify_age.go:87-92 | when the prover's witness satisfies the circuit, the public witness built from the same inputs is accepted by idealised verification |

## Left out

- Keccak-256 and MiMC internals. Both are uninterpreted parameters. The model assumes the MiMC
  gadget and gnark-crypto's MiMC agree on every input.
- `frontend.Compile`, `groth16.Setup`, `groth16.Prove`, `groth16.Verify` and witness
  serialisation. These are foreign backend calls and their cryptographic soundness is not
  modelled.
- ProveAge.GenerateProof: proving is modelled as failing exactly when the witness does not satisfy
  the circuit. Compilation, key loading, the proof-type cast and writing `proof_age.bin` are
  assumed to succeed. The error text stands for the backend's own message.
- VerifyAgeMock.VerifyProof: stops at the public witness handed to `groth16.Verify`.
  - Loading `proof_age.bin` and the printing loop are omitted.
  - `VerifyAgeMock.IdealVerify` stands for verification itself: a public witness is accepted when
    some satisfying witness has that public part.
- FrMiMC.Hasher.Write: accepts single 32-byte blocks only, which is all the commitment loop
  writes. gnark-crypto's hasher accepts any multiple of 32 bytes.
- `getBig`'s nil and type checks (proof/prove_age.go:168-177) and `ComputeCommitment`'s error
  branch (proof/prove_age.go:162-164) cannot be reached. Every assignment field is a non-nil
  `*big.Int`, and `NewAssignmentCircuit` never returns an error.
- ProveAge.ExportPublicInputs: the error from `w.Public()` is ignored by the code and is not
  modelled.
- A nil `*big.Int` for `did` or `C` is not modelled. Both are arbitrary integers.
- `ExportProofForSol`, keys/setup_keys.go, cmd/setup_keys.go, cmd/export_verifier.go and
  verifier/verify_age.go. These are key ceremony, Solidity export and file plumbing with no logic
  of their own. From cmd/main.go only the demonstration run's values are used.
- Logging (`log.Printf`, `api.Println`) and all file I/O.
- Comments versus code in `Define`. The comments say the age is compared with the threshold, but
  circuits/circuit.go:72 compares `AttrValue`. The model follows the code.

/**
 * The prover side (proof/prove_age.go): attribute preprocessing, DID derivation, the
 * off-circuit commitment, and the public inputs that proof generation emits.
 */
module ProveAge {
  import opened Encoding
  import opened Crypto
  import opened Circuits
  import FrMiMC

  /**
   * How a Go function ends: with a value, with a returned error, or with log.Fatalf, which
   * ends the process instead of returning.
   */
  datatype Outcome<T> = Done(value: T) | Failed(error: string) | Fatal(message: string)

  /** The holder's raw attributes; Go strings are their bytes. */
  datatype Attributes = Attributes(
    name: seq<byte>, nation: seq<byte>, address: seq<byte>,
    age: int64, identityID: int64, attrValue: seq<byte>)

  /**
   * The bytes the DID hasher is fed, in the order of its Write calls:
   * name, nation, address, Bytes(age), Bytes(identityID), attrValue, with no separators
   * and no length prefixes.
   */
  function DIDPreimage(attrs: Attributes): (pre: seq<byte>)
    ensures |pre| == |attrs.name| + |attrs.nation| + |attrs.address|
                     + |BigIntBytes(attrs.age)| + |BigIntBytes(attrs.identityID)| + |attrs.attrValue|
  {
    attrs.name + attrs.nation + attrs.address
      + BigIntBytes(attrs.age) + BigIntBytes(attrs.identityID) + attrs.attrValue
  }

  /** ComputeLocalDID: Keccak-256 of the DID preimage, read as a 256-bit integer. */
  function ComputeLocalDID(p: Primitives, attrs: Attributes): (did: nat)
    ensures did < TWO_256
  {
    KeccakToInt(p, DIDPreimage(attrs))
  }

  /**
   * NewAssignmentCircuit: hashes the string fields, the identity number's bytes and the
   * attribute bytes separately, keeps Age raw, recomputes the DID from its own Write calls
   * and ends the process when the supplied DID differs from it. It never returns an error.
   */
  function NewAssignmentCircuit(p: Primitives, policyID: int64, version: int64, threshold: int64,
                                attrs: Attributes, did: int, c: int): (r: Outcome<Circuit<int>>)
    ensures !r.Failed?
    ensures r.Fatal? <==> did != ComputeLocalDID(p, attrs)
    ensures r.Done? ==> r.value.did == did
    ensures r.Done? ==> r.value == Circuit(
      policyID, version, c, threshold,
      KeccakToInt(p, attrs.name), attrs.age, KeccakToInt(p, attrs.nation),
      KeccakToInt(p, attrs.address), KeccakToInt(p, BigIntBytes(attrs.identityID)),
      KeccakToInt(p, attrs.attrValue), ComputeLocalDID(p, attrs))
  {
    var nameInt := KeccakToInt(p, attrs.name);
    var nationInt := KeccakToInt(p, attrs.nation);
    var addressInt := KeccakToInt(p, attrs.address);
    var ageBytes := BigIntBytes(attrs.age);
    var ageInt := attrs.age;
    var idBytes := BigIntBytes(attrs.identityID);
    var identityInt := KeccakToInt(p, idBytes);
    var attrInt := KeccakToInt(p, attrs.attrValue);
    var didInt := KeccakToInt(p, attrs.name + attrs.nation + attrs.address + ageBytes + idBytes + attrs.attrValue);
    if did != didInt then Fatal("did not match")
    else Done(Circuit(policyID, version, c, threshold,
                      nameInt, ageInt, nationInt, addressInt, identityInt, attrInt, didInt))
  }

  /**
   * The commitment the design prescribes:
   * MiMC(PolicyID, Version, H(Name), Age, H(Nation), H(Address), H(Bytes(IdentityID)),
   * H(AttrValue), DID), each input reduced into the field.
   */
  function Commitment(p: Primitives, policyID: int, version: int, attrs: Attributes): Fr
  {
    p.mimc(ReduceAll([policyID, version, KeccakToInt(p, attrs.name), attrs.age,
                      KeccakToInt(p, attrs.nation), KeccakToInt(p, attrs.address),
                      KeccakToInt(p, BigIntBytes(attrs.identityID)),
                      KeccakToInt(p, attrs.attrValue), ComputeLocalDID(p, attrs)]))
  }

  /**
   * ComputeCommitment: builds the assignment with threshold 0 and C 0 (ending the process
   * on a DID mismatch), takes its 9 hashed fields in the circuit's order and hashes them.
   */
  method ComputeCommitment(p: Primitives, policyID: int64, version: int64, attrs: Attributes, did: int)
    returns (r: Outcome<Fr>)
    ensures !r.Failed?
    ensures r.Fatal? <==> did != ComputeLocalDID(p, attrs)
    ensures r.Done? ==> r.value == Commitment(p, policyID, version, attrs)
  {
    var assignment := NewAssignmentCircuit(p, policyID, version, 0, attrs, did, 0);
    if assignment.Fatal? {
      return Fatal(assignment.message);
    }
    var a := assignment.value;
    var inputs := CommitmentInputs(a);
    var sum := MiMCOfReduced(p, inputs);
    CommitmentInputsReduce(a);
    AssignmentHashIsCommitment(p, policyID, version, 0, attrs, did, 0);
    r := Done(sum);
  }

  /**
   * The hashing loop of ComputeCommitment: each input is reduced into the field, marshalled
   * to 32 bytes and written to a fresh MiMC hasher; the 32-byte sum is read back as an
   * integer and reduced into the field. The result is MiMC over the reduced inputs, in order.
   */
  method MiMCOfReduced(p: Primitives, inputs: seq<int>) returns (c: Fr)
    ensures c == p.mimc(ReduceAll(inputs))
  {
    var h := new FrMiMC.Hasher(p);
    for i := 0 to |inputs|
      invariant h.compress == p.mimc
      invariant h.data == ReduceAll(inputs[..i])
    {
      var fe := Reduce(inputs[i]);
      var _ := h.Write(Marshal(fe));
      assert inputs[..i + 1] == inputs[..i] + [inputs[i]];
      ReduceAllSnoc(inputs[..i], inputs[i]);
    }
    var sum := h.Sum();
    assert inputs[..|inputs|] == inputs;
    c := Reduce(FromBytes(sum));
  }

  /**
   * The hash the circuit computes over the prover's witness is the commitment, whatever
   * threshold and C the assignment was built with: off-circuit and in-circuit absorb the
   * same values in the same order.
   */
  lemma AssignmentHashIsCommitment(p: Primitives, policyID: int64, version: int64, threshold: int64,
                                   attrs: Attributes, did: int, c: int)
    requires NewAssignmentCircuit(p, policyID, version, threshold, attrs, did, c).Done?
    ensures CircuitHash(p, ToWitness(NewAssignmentCircuit(p, policyID, version, threshold, attrs, did, c).value))
            == Commitment(p, policyID, version, attrs)
  {
    var a := NewAssignmentCircuit(p, policyID, version, threshold, attrs, did, c).value;
    CommitmentInputsReduce(a);
  }

  /**
   * The prover's witness satisfies the circuit exactly when the supplied C is the
   * commitment (as a field element) and the threshold does not exceed the reduced Keccak
   * digest of the attribute bytes; the age plays no part in the comparison.
   */
  lemma ProverWitnessSatisfiesIff(p: Primitives, policyID: int64, version: int64, threshold: int64,
                                  attrs: Attributes, did: int, c: int)
    requires NewAssignmentCircuit(p, policyID, version, threshold, attrs, did, c).Done?
    ensures Define(p, ToWitness(NewAssignmentCircuit(p, policyID, version, threshold, attrs, did, c).value))
            <==> Reduce(c) == Commitment(p, policyID, version, attrs)
                 && Reduce(threshold) <= Reduce(KeccakToInt(p, attrs.attrValue))
  {
    AssignmentHashIsCommitment(p, policyID, version, threshold, attrs, did, c);
  }

  /**
   * ExportPublicInputs: the public part of the witness, element by element, as decimal
   * strings; each string reads back as the field element it came from.
   */
  method ExportPublicInputs(w: Circuit<Fr>) returns (result: seq<string>)
    ensures |result| == |PublicPart(w)|
    ensures forall i :: 0 <= i < |result| ==>
      IsDecimal(result[i]) && ParseDecimal(result[i]) == PublicPart(w)[i]
  {
    var elems := PublicPart(w);
    result := [];
    for i := 0 to |elems|
      invariant |result| == i
      invariant forall j :: 0 <= j < i ==> result[j] == Decimal(elems[j])
    {
      result := result + [Decimal(elems[i])];
    }
  }

  /**
   * GenerateProof: builds the assignment (the process ends on a DID mismatch), turns it
   * into a witness and proves it. Proving fails when the witness does not satisfy the
   * circuit. On success it returns (policyID, version, C, threshold) and the decimal strings
   * of the witness's public part, which are those four values reduced into the field.
   */
  method GenerateProof(p: Primitives, policyID: int64, version: int64, threshold: int64,
                       attrs: Attributes, did: int, c: int)
    returns (r: Outcome<(seq<int>, seq<string>)>)
    ensures r.Fatal? <==> did != ComputeLocalDID(p, attrs)
    ensures r.Failed? <==>
      did == ComputeLocalDID(p, attrs)
      && !Define(p, ToWitness(NewAssignmentCircuit(p, policyID, version, threshold, attrs, did, c).value))
    ensures r.Done? ==> r.value.0 == [policyID, version, c, threshold]
    ensures r.Done? ==>
      ReduceAll(r.value.0) == PublicPart(ToWitness(NewAssignmentCircuit(p, policyID, version, threshold, attrs, did, c).value))
    ensures r.Done? ==> |r.value.1| == 4 && forall i :: 0 <= i < 4 ==>
      IsDecimal(r.value.1[i]) && ParseDecimal(r.value.1[i]) == Reduce(r.value.0[i])
  {
    var assignment := NewAssignmentCircuit(p, policyID, version, threshold, attrs, did, c);
    if assignment.Fatal? {
      return Fatal(assignment.message);
    }
    var a := assignment.value;
    var w := ToWitness(a);
    if !Define(p, w) {
      return Failed("failed to generate proof: constraint not satisfied");
    }
    var publicInputs := [policyID as int, version as int, c, threshold as int];
    var pubInputsStr := ExportPublicInputs(w);
    PublicPartOrder(a);
    assert PublicPart(a) == publicInputs;
    PublicPartReduce(a);
    r := Done((publicInputs, pubInputsStr));
  }

  /** Moving a boundary between name and nation leaves the DID unchanged: the fields are not delimited. */
  lemma NameNationBoundaryIgnored(p: Primitives, attrs: Attributes, k: nat)
    requires k <= |attrs.name|
    ensures ComputeLocalDID(p, attrs.(name := attrs.name[..k], nation := attrs.name[k..] + attrs.nation))
            == ComputeLocalDID(p, attrs)
  {
    var moved := attrs.(name := attrs.name[..k], nation := attrs.name[k..] + attrs.nation);
    assert moved.name + moved.nation == attrs.name + attrs.nation;
    assert DIDPreimage(moved) == DIDPreimage(attrs);
  }

  /** name "ab", nation "c" and name "a", nation "bc" give the same DID. */
  lemma SplitNamesCollide(p: Primitives, attrs: Attributes)
    ensures ComputeLocalDID(p, attrs.(name := AsciiBytes("ab"), nation := AsciiBytes("c")))
            == ComputeLocalDID(p, attrs.(name := AsciiBytes("a"), nation := AsciiBytes("bc")))
  {
    var left := attrs.(name := AsciiBytes("ab"), nation := AsciiBytes("c"));
    NameNationBoundaryIgnored(p, left, 1);
    assert left.name[..1] == AsciiBytes("a");
    assert left.name[1..] + left.nation == AsciiBytes("bc");
  }

  /**
   * The minimal integer encodings are not delimited either: age 1 with identity 2 and
   * age 258 with identity 0 both contribute the bytes [1, 2].
   */
  lemma IntegerBoundaryCollision(p: Primitives, attrs: Attributes)
    ensures ComputeLocalDID(p, attrs.(age := 1, identityID := 2))
            == ComputeLocalDID(p, attrs.(age := 258, identityID := 0))
  {
    assert BigIntBytes(258) == [1, 2];
    assert BigIntBytes(1) + BigIntBytes(2) == BigIntBytes(258) + BigIntBytes(0);
    var a1 := attrs.(age := 1, identityID := 2);
    var a2 := attrs.(age := 258, identityID := 0);
    assert DIDPreimage(a1) == DIDPreimage(a2);
  }

  /** The DID does not see the sign of the age: age and -age give the same DID. */
  lemma DIDIgnoresAgeSign(p: Primitives, attrs: Attributes)
    requires attrs.age != INT64_MIN
    ensures ComputeLocalDID(p, attrs.(age := -attrs.age)) == ComputeLocalDID(p, attrs)
  {
    BigIntBytesDropsSign(attrs.age);
  }

  /**
   * The attributes of the demonstration run in cmd/main.go: name "Alice", nation
   * "Wonderland", address "123 Fantasy Rd" (as their ASCII bytes), age 28, identity
   * number 123456789 and attribute bytes [1, 2, 3, 4].
   */
  const Alice: Attributes :=
    Attributes([65, 108, 105, 99, 101],
               [87, 111, 110, 100, 101, 114, 108, 97, 110, 100],
               [49, 50, 51, 32, 70, 97, 110, 116, 97, 115, 121, 32, 82, 100],
               28, 123456789, [1, 2, 3, 4])

  /**
   * In the demonstration run, age 28 and identity 123456789 contribute the bytes [28] and
   * [7, 91, 205, 21] to the DID preimage.
   */
  lemma MainScenarioPreimage()
    ensures DIDPreimage(Alice) == Alice.name + Alice.nation + Alice.address
                                   + [28] + [7, 91, 205, 21] + [1, 2, 3, 4]
  {
    assert FromBytes([28]) == 28;
    MinimalBytesOfCanonical([28]);
    assert FromBytes([7, 91, 205, 21]) == 123456789 by {
      assert [7, 91, 205, 21][..3] == [7, 91, 205];
      assert [7, 91, 205][..2] == [7, 91];
      assert [7, 91][..1] == [7];
    }
    MinimalBytesOfCanonical([7, 91, 205, 21]);
  }

  /**
   * With the DID and the commitment computed from the demonstration attributes, the proof
   * for threshold 18 exists exactly when 18 does not exceed the reduced Keccak digest of
   * [1, 2, 3, 4]: the age 28 does not decide it.
   */
  lemma MainScenarioOutcome(p: Primitives)
    ensures var did := ComputeLocalDID(p, Alice);
            var c := Commitment(p, 1, 1, Alice);
            NewAssignmentCircuit(p, 1, 1, 18, Alice, did, c).Done?
            && (Define(p, ToWitness(NewAssignmentCircuit(p, 1, 1, 18, Alice, did, c).value))
                <==> 18 <= Reduce(KeccakToInt(p, [1, 2, 3, 4])))
  {
    HonestCommitmentDecides(p, 1, 1, Alice, 18);
  }

  /**
   * For any attributes and policy, with the DID and the commitment computed from them, the witness
   * for threshold t satisfies the circuit exactly when t (reduced) does not exceed the
   * reduced Keccak digest of the attribute bytes.
   */
  lemma HonestCommitmentDecides(p: Primitives, policyID: int64, version: int64, attrs: Attributes, t: int64)
    ensures var did := ComputeLocalDID(p, attrs);
            var c := Commitment(p, policyID, version, attrs);
            NewAssignmentCircuit(p, policyID, version, t, attrs, did, c).Done?
            && (Define(p, ToWitness(NewAssignmentCircuit(p, policyID, version, t, attrs, did, c).value))
                <==> Reduce(t) <= Reduce(KeccakToInt(p, attrs.attrValue)))
  {
    var did := ComputeLocalDID(p, attrs);
    var c := Commitment(p, policyID, version, attrs);
    ProverWitnessSatisfiesIff(p, policyID, version, t, attrs, did, c);
  }
}

/**
 * The off-chain verifier (verifier_mock/verify_age.go): its own copy of the witness
 * constructor, and the public witness that VerifyProof hands to Groth16 verification.
 */
module VerifyAgeMock {
  import opened Encoding
  import opened Crypto
  import opened Circuits
  import ProveAge

  /**
   * The verifier's duplicate of NewAssignmentCircuit. It derives the DID from the same
   * preimage order and integer encoding as ComputeLocalDID and ends the process on a mismatch.
   */
  function NewAssignmentCircuit(p: Primitives, policyID: int64, version: int64, threshold: int64,
                                attrs: ProveAge.Attributes, did: int, c: int)
    : (r: ProveAge.Outcome<Circuit<int>>)
    ensures !r.Failed?
    ensures r.Fatal? <==> did != ProveAge.ComputeLocalDID(p, attrs)
    ensures r.Done? ==> r.value.did == did && r.value.c == c && r.value.age == attrs.age
  {
    var nameInt := KeccakToInt(p, attrs.name);
    var nationInt := KeccakToInt(p, attrs.nation);
    var addressInt := KeccakToInt(p, attrs.address);
    var ageBytes := BigIntBytes(attrs.age);
    var ageInt := attrs.age;
    var idBytes := BigIntBytes(attrs.identityID);
    var identityInt := KeccakToInt(p, idBytes);
    var attrInt := KeccakToInt(p, attrs.attrValue);
    var didInt := KeccakToInt(p, attrs.name + attrs.nation + attrs.address + ageBytes + idBytes + attrs.attrValue);
    if did != didInt then ProveAge.Fatal("did not match")
    else ProveAge.Done(Circuit(policyID, version, c, threshold,
                               nameInt, ageInt, nationInt, addressInt, identityInt, attrInt, didInt))
  }

  /** The two witness constructors agree on every input, including the inputs they abort on. */
  lemma SameAssignmentAsProver(p: Primitives, policyID: int64, version: int64, threshold: int64,
                               attrs: ProveAge.Attributes, did: int, c: int)
    ensures NewAssignmentCircuit(p, policyID, version, threshold, attrs, did, c)
            == ProveAge.NewAssignmentCircuit(p, policyID, version, threshold, attrs, did, c)
  {
  }

  /** `assignment.C = C` stores the value the constructor already stored: the assignment is unchanged. */
  lemma ReassigningCIsNoOp(p: Primitives, policyID: int64, version: int64, threshold: int64,
                           attrs: ProveAge.Attributes, did: int, c: int)
    requires NewAssignmentCircuit(p, policyID, version, threshold, attrs, did, c).Done?
    ensures var a := NewAssignmentCircuit(p, policyID, version, threshold, attrs, did, c).value;
            a.(c := c) == a
  {
  }

  /**
   * VerifyProof up to the backend call: rebuilds the assignment (ending the process on a
   * DID mismatch), sets C again, builds the witness and returns its public part, which is
   * what groth16.Verify receives together with the proof and the verifying key.
   */
  function VerifyProof(p: Primitives, policyID: int64, version: int64, threshold: int64,
                       attrs: ProveAge.Attributes, did: int, c: int): (r: ProveAge.Outcome<seq<Fr>>)
    ensures !r.Failed?
    ensures r.Fatal? <==> did != ProveAge.ComputeLocalDID(p, attrs)
    ensures r.Done? ==> r.value == ReduceAll([policyID, version, c, threshold])
  {
    var assignment := NewAssignmentCircuit(p, policyID, version, threshold, attrs, did, c);
    if assignment.Fatal? then ProveAge.Fatal(assignment.message)
    else
      var a := assignment.value.(c := c);
      var w := ToWitness(a);
      SameAssignmentAsProver(p, policyID, version, threshold, attrs, did, c);
      PublicPartOrder(a);
      PublicPartReduce(a);
      ProveAge.Done(PublicPart(w))
  }

  /**
   * What the verifier passes on depends only on the public values: two holders whose
   * attributes both pass the DID check yield the same public witness.
   */
  lemma VerifierSeesOnlyPublicInputs(p: Primitives, policyID: int64, version: int64, threshold: int64,
                                     attrs1: ProveAge.Attributes, did1: int,
                                     attrs2: ProveAge.Attributes, did2: int, c: int)
    requires did1 == ProveAge.ComputeLocalDID(p, attrs1)
    requires did2 == ProveAge.ComputeLocalDID(p, attrs2)
    ensures VerifyProof(p, policyID, version, threshold, attrs1, did1, c)
            == VerifyProof(p, policyID, version, threshold, attrs2, did2, c)
  {
  }

  /**
   * Groth16 verification, idealised: a public witness is accepted exactly when some
   * witness with that public part satisfies the circuit.
   */
  ghost predicate IdealVerify(p: Primitives, pub: seq<Fr>)
  {
    exists w: Circuit<Fr> :: Define(p, w) && PublicPart(w) == pub
  }

  /**
   * The prover and the mock verifier agree: when the prover's witness satisfies the circuit,
   * the public witness that VerifyProof assembles from the same inputs is accepted.
   */
  lemma HonestProofVerifies(p: Primitives, policyID: int64, version: int64, threshold: int64,
                            attrs: ProveAge.Attributes, did: int, c: int)
    requires did == ProveAge.ComputeLocalDID(p, attrs)
    requires Define(p, ToWitness(ProveAge.NewAssignmentCircuit(p, policyID, version, threshold, attrs, did, c).value))
    ensures VerifyProof(p, policyID, version, threshold, attrs, did, c).Done?
    ensures IdealVerify(p, VerifyProof(p, policyID, version, threshold, attrs, did, c).value)
  {
    var w := ToWitness(ProveAge.NewAssignmentCircuit(p, policyID, version, threshold, attrs, did, c).value);
    PublicPartOrder(w);
    assert Define(p, w) && PublicPart(w) == VerifyProof(p, policyID, version, threshold, attrs, did, c).value;
  }
}

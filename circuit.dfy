/**
 * The circuit (circuits/circuit.go): its signal layout and the satisfaction predicate
 * that Define encodes as constraints.
 */
module Circuits {
  import opened Crypto

  /**
   * The Circuit struct: four public signals followed by seven private ones, in the order
   * the struct declares them. V is the value type: big.Int (int) in an assignment built by
   * the prover, a canonical field element (Fr) in a witness.
   */
  datatype Circuit<V> = Circuit(
    policyID: V, version: V, c: V, threshold: V,
    name: V, age: V, nation: V, address: V, identityID: V, attrValue: V, did: V)

  datatype Signal = PolicyID | Version | C | Threshold
                  | Name | Age | Nation | Address | IdentityID | AttrValue | DID

  datatype Visibility = Public | Private

  /** The struct's fields in declaration order, with their gnark visibility tags. */
  const Layout: seq<(Signal, Visibility)> := [
    (PolicyID, Public), (Version, Public), (C, Public), (Threshold, Public),
    (Name, Private), (Age, Private), (Nation, Private), (Address, Private),
    (IdentityID, Private), (AttrValue, Private), (DID, Private)]

  /** The public signals as gnark orders them in a witness vector: the public fields in declaration order. */
  const PublicSignals: seq<Signal> := [PolicyID, Version, C, Threshold]

  /** The signals written into the in-circuit MiMC hasher, in the order Define writes them. */
  const HashedSignals: seq<Signal> :=
    [PolicyID, Version, Name, Age, Nation, Address, IdentityID, AttrValue, DID]

  /**
   * The private signal that the inequality compares against Threshold. The code compares
   * AttrValue (a Keccak digest of the attribute bytes); the surrounding comments speak of
   * the raw Age. The model keeps the code's choice.
   */
  const Compared: Signal := AttrValue

  function Get<V>(w: Circuit<V>, s: Signal): V
  {
    match s
    case PolicyID => w.policyID
    case Version => w.version
    case C => w.c
    case Threshold => w.threshold
    case Name => w.name
    case Age => w.age
    case Nation => w.nation
    case Address => w.address
    case IdentityID => w.identityID
    case AttrValue => w.attrValue
    case DID => w.did
  }

  /**
   * The signals of one visibility among the first n declared fields, in declaration order
   * (gnark orders the public and the secret parts of a witness vector this way).
   */
  function SignalsOf(n: nat, v: Visibility): seq<Signal>
    requires n <= |Layout|
  {
    if n == 0 then []
    else
      var init := SignalsOf(n - 1, v);
      if Layout[n - 1].1 == v then init + [Layout[n - 1].0] else init
  }

  /** The values of some signals, in the given order. */
  function Project<V>(w: Circuit<V>, ss: seq<Signal>): (vs: seq<V>)
    ensures |vs| == |ss|
    ensures forall i :: 0 <= i < |ss| ==> vs[i] == Get(w, ss[i])
  {
    if ss == [] then [] else Project(w, ss[..|ss| - 1]) + [Get(w, ss[|ss| - 1])]
  }

  /** The public part of a witness, which is all a verifier receives. */
  function PublicPart<V>(w: Circuit<V>): seq<V>
  {
    Project(w, PublicSignals)
  }

  /** The 9 values the in-circuit hasher absorbs. */
  function HashInputs<V>(w: Circuit<V>): seq<V>
  {
    Project(w, HashedSignals)
  }

  /** frontend.NewWitness: every big.Int of the assignment reduced into the field. */
  function ToWitness(a: Circuit<int>): (w: Circuit<Fr>)
    ensures forall s :: Get(w, s) == Reduce(Get(a, s))
  {
    Circuit(Reduce(a.policyID), Reduce(a.version), Reduce(a.c), Reduce(a.threshold),
            Reduce(a.name), Reduce(a.age), Reduce(a.nation), Reduce(a.address),
            Reduce(a.identityID), Reduce(a.attrValue), Reduce(a.did))
  }

  /** The 9 values ComputeCommitment takes from an assignment, in the circuit's hashing order. */
  function CommitmentInputs(a: Circuit<int>): seq<int>
  {
    [a.policyID, a.version, a.name, a.age, a.nation, a.address, a.identityID, a.attrValue, a.did]
  }

  /** Reducing the commitment inputs of an assignment gives exactly what the circuit hashes in its witness. */
  lemma CommitmentInputsReduce(a: Circuit<int>)
    ensures ReduceAll(CommitmentInputs(a)) == HashInputs(ToWitness(a))
  {
    var w := ToWitness(a);
    HashInputsOrder(w);
    var lhs, rhs := ReduceAll(CommitmentInputs(a)), HashInputs(w);
    assert |lhs| == |rhs| == 9;
    assert forall i :: 0 <= i < 9 ==> lhs[i] == Reduce(CommitmentInputs(a)[i]);
  }

  /** The in-circuit hash h = MiMC(9 signals). */
  function CircuitHash(p: Primitives, w: Circuit<Fr>): Fr
  {
    p.mimc(HashInputs(w))
  }

  /** Constraint 1: api.AssertIsEqual(h, C). */
  predicate HashConstraint(p: Primitives, w: Circuit<Fr>)
  {
    CircuitHash(p, w) == w.c
  }

  /**
   * Constraint 2: api.AssertIsLessOrEqual(Threshold, compared), comparing the canonical
   * representatives of the two field elements as integers.
   */
  predicate ThresholdConstraint(w: Circuit<Fr>, compared: Signal)
  {
    w.threshold <= Get(w, compared)
  }

  /** A witness satisfies a circuit of this shape comparing `compared` with Threshold. */
  predicate SatisfiedWith(p: Primitives, w: Circuit<Fr>, compared: Signal)
  {
    HashConstraint(p, w) && ThresholdConstraint(w, compared)
  }

  /** Define, as written: satisfaction of both constraints, comparing AttrValue. */
  predicate Define(p: Primitives, w: Circuit<Fr>)
  {
    SatisfiedWith(p, w, Compared)
  }

  /** Four public signals, PolicyID, Version, C, Threshold, in that order. */
  lemma PublicLayout()
    ensures SignalsOf(|Layout|, Public) == PublicSignals
  {
    assert SignalsOf(1, Public) == [PolicyID];
    assert SignalsOf(2, Public) == [PolicyID, Version];
    assert SignalsOf(3, Public) == [PolicyID, Version, C];
    assert SignalsOf(4, Public) == [PolicyID, Version, C, Threshold];
    assert SignalsOf(5, Public) == [PolicyID, Version, C, Threshold];
    assert SignalsOf(6, Public) == [PolicyID, Version, C, Threshold];
    assert SignalsOf(7, Public) == [PolicyID, Version, C, Threshold];
    assert SignalsOf(8, Public) == [PolicyID, Version, C, Threshold];
    assert SignalsOf(9, Public) == [PolicyID, Version, C, Threshold];
    assert SignalsOf(10, Public) == [PolicyID, Version, C, Threshold];
    assert SignalsOf(11, Public) == [PolicyID, Version, C, Threshold];
  }

  /** Seven private signals, in declaration order. */
  lemma PrivateLayout()
    ensures SignalsOf(|Layout|, Private) == [Name, Age, Nation, Address, IdentityID, AttrValue, DID]
  {
    assert SignalsOf(1, Private) == [];
    assert SignalsOf(2, Private) == [];
    assert SignalsOf(3, Private) == [];
    assert SignalsOf(4, Private) == [];
    assert SignalsOf(5, Private) == [Name];
    assert SignalsOf(6, Private) == [Name, Age];
    assert SignalsOf(7, Private) == [Name, Age, Nation];
    assert SignalsOf(8, Private) == [Name, Age, Nation, Address];
    assert SignalsOf(9, Private) == [Name, Age, Nation, Address, IdentityID];
    assert SignalsOf(10, Private) == [Name, Age, Nation, Address, IdentityID, AttrValue];
    assert SignalsOf(11, Private) == [Name, Age, Nation, Address, IdentityID, AttrValue, DID];
  }

  /** The public part of any witness is (PolicyID, Version, C, Threshold), in declared order. */
  lemma PublicPartOrder<V>(w: Circuit<V>)
    ensures PublicPart(w) == [w.policyID, w.version, w.c, w.threshold]
  {
  }

  /** Reducing an assignment's public part gives the public part of its witness. */
  lemma PublicPartReduce(a: Circuit<int>)
    ensures ReduceAll(PublicPart(a)) == PublicPart(ToWitness(a))
  {
    PublicPartOrder(a);
    PublicPartOrder(ToWitness(a));
  }

  /** The hasher absorbs PolicyID, Version, Name, Age, Nation, Address, IdentityID, AttrValue, DID. */
  lemma HashInputsOrder<V>(w: Circuit<V>)
    ensures HashInputs(w) == [w.policyID, w.version, w.name, w.age, w.nation, w.address,
                              w.identityID, w.attrValue, w.did]
  {
  }

  /** Neither C nor Threshold is absorbed: changing them leaves the in-circuit hash unchanged. */
  lemma HashIgnoresCAndThreshold(p: Primitives, w: Circuit<Fr>, c: Fr, t: Fr)
    ensures CircuitHash(p, w.(c := c, threshold := t)) == CircuitHash(p, w)
  {
    HashInputsOrder(w);
    HashInputsOrder(w.(c := c, threshold := t));
  }

  /** Define holds exactly when MiMC(9-tuple) == C and Threshold <= AttrValue; no range bound on any signal. */
  lemma DefineIff(p: Primitives, w: Circuit<Fr>)
    ensures Define(p, w) <==>
      p.mimc([w.policyID, w.version, w.name, w.age, w.nation, w.address, w.identityID,
              w.attrValue, w.did]) == w.c
      && w.threshold <= w.attrValue
  {
    HashInputsOrder(w);
  }

  /** Lowering the threshold keeps a satisfying witness satisfying. */
  lemma ThresholdMonotone(p: Primitives, w: Circuit<Fr>, t: Fr)
    requires Define(p, w) && t <= w.threshold
    ensures Define(p, w.(threshold := t))
  {
    HashIgnoresCAndThreshold(p, w, w.c, t);
  }

  /**
   * With the comparison as written, the age signal is not bounded by the threshold: for any
   * hash function there is a satisfying witness whose Age lies below its Threshold. Had Age
   * been the compared signal, no such witness would satisfy.
   */
  lemma AgeNotCompared(p: Primitives)
    ensures exists w :: Define(p, w) && w.age < w.threshold && !SatisfiedWith(p, w, Age)
  {
    var w0 := Circuit(1, 1, 0, 18, 0, 0, 0, 0, 0, 18, 0);
    var w := w0.(c := CircuitHash(p, w0));
    HashIgnoresCAndThreshold(p, w0, CircuitHash(p, w0), 18);
    assert Define(p, w);
  }
}

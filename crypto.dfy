/**
 * The BN254 scalar field and the two hash primitives the system uses.
 *
 * Keccak-256 (the Ethereum "legacy" Keccak, with the original padding rather than the
 * FIPS 202 SHA3-256 padding) and MiMC over BN254's scalar field are not modelled
 * internally: they are fields of a Primitives value that every operation takes as a
 * parameter, so every statement proved here holds for any choice of the two functions.
 * The MiMC gadget used inside the circuit and gnark-crypto's bn254/fr MiMC used outside it
 * are represented by the one function `mimc`: the model assumes they agree on every input
 * sequence, as they share their round constants.
 */
module Crypto {
  import opened Encoding

  /** The order r of the BN254 scalar field (fr.Modulus()). */
  const R: nat := 21888242871839275222246405745257275088548364400416034343698204186575808495617

  /** A canonical field element, the representative in [0, r). */
  type Fr = x: int | 0 <= x < 21888242871839275222246405745257275088548364400416034343698204186575808495617

  /** The 32 bytes returned by a Keccak-256 or MiMC Sum(nil). */
  type Digest = s: seq<byte> | |s| == 32 witness [0, 0, 0, 0, 0, 0, 0, 0, 0, 0, 0, 0, 0, 0, 0, 0,
                                                  0, 0, 0, 0, 0, 0, 0, 0, 0, 0, 0, 0, 0, 0, 0, 0]

  datatype Primitives = Primitives(keccak: seq<byte> -> Digest, mimc: seq<Fr> -> Fr)

  lemma FieldFitsIn32Bytes()
    ensures R < Pow256(32)
  {
    Pow256Of32();
  }

  /**
   * Reduction into the field, as fr.Element.SetBigInt and big.Int.Mod do: the result is
   * congruent to x and values already in [0, r) are unchanged. Negative values map to
   * r - (|x| mod r) (Euclidean remainder, which is what Go's big.Int.Mod computes).
   */
  function Reduce(x: int): (f: Fr)
    ensures 0 <= x < R ==> f == x
  {
    x % R
  }

  /** The reduced value is congruent to the original one modulo r. */
  lemma ReduceCongruent(x: int)
    ensures (x - Reduce(x)) % R == 0
  {
  }

  function ReduceAll(xs: seq<int>): (fs: seq<Fr>)
    ensures |fs| == |xs|
    ensures forall i :: 0 <= i < |xs| ==> fs[i] == Reduce(xs[i])
  {
    if xs == [] then [] else ReduceAll(xs[..|xs| - 1]) + [Reduce(xs[|xs| - 1])]
  }

  lemma ReduceAllSnoc(xs: seq<int>, x: int)
    ensures ReduceAll(xs + [x]) == ReduceAll(xs) + [Reduce(x)]
  {
    assert (xs + [x])[..|xs|] == xs;
  }

  /** The helper toBigInt: Keccak-256 of the bytes, read as a big-endian integer. */
  function KeccakToInt(p: Primitives, data: seq<byte>): (n: nat)
    ensures n < TWO_256
  {
    var digest := p.keccak(data);
    Pow256Of32();
    FromBytes(digest)
  }

  /** fr.Element.Marshal: the canonical 32-byte big-endian encoding of a field element. */
  function Marshal(f: Fr): (s: Digest)
    ensures FromBytes(s) == f
  {
    FieldFitsIn32Bytes();
    PadBytes(f, 32)
  }
}

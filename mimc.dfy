/**
 * The running state of gnark-crypto's bn254/fr MiMC hasher as the commitment loop uses it:
 * each Write hands it one 32-byte block, which it decodes as a big-endian field element and
 * keeps (or rejects, if the block is not below r); Sum compresses the kept elements.
 */
module FrMiMC {
  import opened Encoding
  import opened Crypto

  class Hasher {
    /** The MiMC compression over the absorbed elements. */
    const compress: seq<Fr> -> Fr
    /** The field elements absorbed so far, in order. */
    var data: seq<Fr>

    /** NewMiMC(): an empty hasher. */
    constructor (p: Primitives)
      ensures compress == p.mimc && data == []
    {
      compress := p.mimc;
      data := [];
    }

    /** Write one block; a block that is not a canonical element is refused and nothing is absorbed. */
    method Write(block: seq<byte>) returns (ok: bool)
      requires |block| == 32
      modifies this
      ensures ok <==> FromBytes(block) < R
      ensures data == if ok then old(data) + [FromBytes(block)] else old(data)
    {
      var elem := FromBytes(block);
      ok := elem < R;
      if ok {
        data := data + [elem];
      }
    }

    /** Sum(nil): the compressed value as 32 big-endian bytes. */
    function Sum(): (digest: Digest)
      reads this
      ensures FromBytes(digest) == compress(data)
    {
      Marshal(compress(data))
    }
  }
}

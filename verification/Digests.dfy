/** Hash functions, the streaming hasher, and files which are read block by block. */
module Digests {

  type Byte = b: int | 0 <= b < 256

  type Bytes = seq<Byte>

  /** A hash algorithm.  Nothing is assumed of `run`, except `FixedWidth` where a result needs it: in
      particular it is not injective, which no function onto a fixed width could be. */
  datatype Hash = Hash(name: Bytes, run: Bytes -> Bytes, width: nat)

  ghost predicate FixedWidth(hash: Hash) {
    forall m: Bytes :: |hash.run(m)| == hash.width
  }

  /** Two different byte strings with one digest. */
  predicate Collision(hash: Hash, x: Bytes, y: Bytes) {
    x != y && hash.run(x) == hash.run(y)
  }

  /** `hashlib.new(...)`: fed piece by piece, it digests the concatenation. */
  class Hasher {
    const hash: Hash
    var fed: Bytes

    constructor (hash: Hash)
      ensures this.hash == hash && fed == []
    {
      this.hash := hash;
      fed := [];
    }

    method Update(block: Bytes)
      modifies this
      ensures fed == old(fed) + block
    {
      fed := fed + block;
    }

    function Digest(): (digest: Bytes)
      reads this
      ensures digest == hash.run(fed)
    {
      hash.run(fed)
    }
  }

  /** An open file.  A read may return fewer bytes than asked for, but nothing only at the end. */
  class Reader {
    const content: Bytes
    var pos: nat

    constructor (content: Bytes)
      ensures this.content == content && pos == 0
    {
      this.content := content;
      pos := 0;
    }

    ghost predicate Valid()
      reads this
    {
      pos <= |content|
    }

    method Read(limit: nat) returns (block: Bytes)
      requires Valid()
      modifies this`pos
      ensures Valid() && pos == old(pos) + |block| && |block| <= limit
      ensures block == content[old(pos)..pos]
      ensures block == [] <==> limit == 0 || old(pos) == |content|
    {
      var available := if limit <= |content| - pos then limit else |content| - pos;
      var taken: nat :| taken <= available && (taken == 0 ==> available == 0);
      block := content[pos..pos + taken];
      pos := pos + taken;
    }
  }
}

/** The pair hash of the Merkle tree, merkle-tree/src/mt_crypto.c. */
module MtCrypto {
  import opened Types
  import opened Sha256Spec
  import opened Sha256Impl

  /** SHA-256 of the two hashes one after the other. */
  function PairHash(left: Hash, right: Hash): Hash {
    Sha256(left + right)
  }

  /** mt_hash. A pointer is an array and a position in it. The output buffer may
      be the array of either input, as the loops of the tree rely on. */
  method MtHash(left: array<byte>, l: nat, right: array<byte>, r: nat, digest: array<byte>)
    returns (e: MtError)
    requires l + HASH_LENGTH <= left.Length && r + HASH_LENGTH <= right.Length
    requires digest.Length == HASH_LENGTH
    modifies digest
    ensures e == MT_SUCCESS
    ensures digest[..]
         == PairHash(old(left[l..l + HASH_LENGTH]), old(right[r..r + HASH_LENGTH]))
    ensures digest[..]
         == Sha256(old(left[l..l + HASH_LENGTH]) + old(right[r..r + HASH_LENGTH]))
  {
    hide Sha256Context.Valid, HashBits, BytesBits, Digest;
    ghost var a, b := left[l..l + HASH_LENGTH], right[r..r + HASH_LENGTH];
    var ctx := new Sha256Context();
    var ok := ctx.Reset();
    if ok != shaSuccess {
      return MT_ERR_ILLEGAL_STATE;
    }
    ok := ctx.Input(left, l, HASH_LENGTH);
    if ok != shaSuccess {
      return MT_ERR_ILLEGAL_STATE;
    }
    assert ctx.input == a;
    ok := ctx.Input(right, r, HASH_LENGTH);
    if ok != shaSuccess {
      return MT_ERR_ILLEGAL_STATE;
    }
    assert ctx.input == a + b;
    ok := ctx.Result(digest);
    if ok != shaSuccess {
      return MT_ERR_ILLEGAL_STATE;
    }
    e := MT_SUCCESS;
  }
}

/** Bytes, hashes and the constants of merkle-tree/src/mt_config.h. */
module Types {
  newtype byte = x: int | 0 <= x < 256

  const HASH_LENGTH: nat := 32
  const TREE_LEVELS: nat := 24
  const MT_AL_MAX_ELEMS: nat := 4194304
  const UINT32: nat := 0x1_0000_0000

  type Hash = s: seq<byte> | |s| == HASH_LENGTH witness seq(HASH_LENGTH, _ => 0 as byte)

  datatype Option<+T> = None | Some(value: T)

  datatype MtError =
    | MT_SUCCESS
    | MT_ERR_OUT_OF_MEMORY
    | MT_ERR_ILLEGAL_PARAM
    | MT_ERR_ILLEGAL_STATE
    | MT_ERR_ROOT_MISMATCH
}

/** The resizable array list of hashes, merkle-tree/src/mt_arr_list.c. */
module ArrList {
  import opened Types
  import opened PowerOfTwo
  import Bits

  /** memcpy(&dst[at], &src[from], len) */
  method Memcpy(dst: array<byte>, at: nat, src: array<byte>, from: nat, len: nat)
    requires at + len <= dst.Length && from + len <= src.Length
    modifies dst
    ensures dst[..] == old(dst[..at]) + old(src[from..from + len]) + old(dst[at + len..])
  {
    forall i | 0 <= i < len { dst[at + i] := src[from + i]; }
  }

  /** The first n hashes in a block of memory. */
  function Chunks(b: seq<byte>, n: nat): (r: seq<Hash>)
    requires n * HASH_LENGTH <= |b|
    ensures |r| == n
    ensures forall i :: 0 <= i < n ==> r[i] == b[i * 32..i * 32 + 32]
  {
    seq(n, i requires 0 <= i < n => b[i * 32..i * 32 + 32])
  }

  /** Writing one hash-sized slot of a block changes that hash and no other. */
  lemma ChunksWrite(b: seq<byte>, b': seq<byte>, n: nat, k: nat, h: Hash)
    requires n * 32 <= |b| && k * 32 + 32 <= |b'| && n * 32 <= |b'|
    requires forall i :: 0 <= i < n * 32 && !(k * 32 <= i < k * 32 + 32) ==> b'[i] == b[i]
    requires b'[k * 32..k * 32 + 32] == h
    ensures k < n ==> Chunks(b', n) == Chunks(b, n)[k := h]
    ensures k == n ==> Chunks(b', n + 1) == Chunks(b, n) + [h]
  {
    forall i | 0 <= i < n && i != k ensures b'[i * 32..i * 32 + 32] == b[i * 32..i * 32 + 32] {
      assert i * 32 + 32 <= n * 32;
    }
  }

  lemma ChunksTake(b: seq<byte>, b': seq<byte>, n: nat, m: nat)
    requires n * 32 <= |b| && m <= n && m * 32 <= |b'|
    requires forall i :: 0 <= i < m * 32 ==> b'[i] == b[i]
    ensures Chunks(b', m) == Chunks(b, n)[..m]
  {
    forall i | 0 <= i < m ensures b'[i * 32..i * 32 + 32] == b[i * 32..i * 32 + 32] {
      assert i * 32 + 32 <= m * 32;
    }
  }

  class ArrayList {
    var elems: nat
    var store: array?<byte>

    /** A list with elements owns the least power of two of hash-sized slots that
        holds them; the store of an empty list is never read. */
    ghost predicate Valid()
      reads this
    {
      && elems <= MT_AL_MAX_ELEMS
      && (elems > 0 ==> store != null && store.Length == Capacity(elems) * HASH_LENGTH)
    }

    ghost function Contents(): (s: seq<Hash>)
      requires Valid()
      reads this, store
      ensures |s| == elems
    {
      if elems == 0 then [] else Chunks(store[..], elems)
    }

    /** mt_al_create */
    constructor ()
      ensures Valid() && Contents() == [] && store == null
    {
      elems := 0;
      store := null;
    }

    /** A list as deserialize_init_mt builds it: `elems` hashes copied into a
        block with next_power_two(elems) slots. */
    constructor FromBytes(n: nat, buf: array<byte>, from: nat)
      requires n <= MT_AL_MAX_ELEMS && from + n * HASH_LENGTH <= buf.Length
      ensures Valid() && elems == n && store != null && fresh(store)
      ensures Contents() == Chunks(buf[from..from + n * HASH_LENGTH], n)
    {
      elems := n;
      var size := NextPowerTwo(n) * HASH_LENGTH;
      var block := new byte[size];
      store := block;
      new;
      if n == 0 {
        NextPowerTwoOfZero();
      } else {
        RoundUpIsCapacity(n);
      }
      Memcpy(block, 0, buf, from, n * HASH_LENGTH);
      if n > 0 {
        ChunksTake(buf[from..from + n * 32], store[..], n, n);
      }
    }

    /** mt_al_add. The precondition is the function's assert. */
    method Add(hash: array<byte>) returns (r: MtError)
      requires Valid() && elems < MT_AL_MAX_ELEMS
      requires hash.Length == HASH_LENGTH && hash != store
      modifies this, store
      ensures Valid() && r == MT_SUCCESS
      ensures Contents() == old(Contents()) + [hash[..]]
      ensures store != null && (store == old(store) || fresh(store))
    {
      hide Capacity, IsPowerOfTwo, Chunks;
      ghost var before := if elems == 0 then [] else store[..];
      ghost var n := elems;
      CapacityOfOne();
      if elems == 0 {
        store := new byte[HASH_LENGTH];
      } else {
        CapacityNext(elems);
        IsPowerOfTwoIsFull(elems);
        if IsPowerOfTwo(elems) {
          if (elems * 2) % UINT32 < elems || (elems * 2) % UINT32 > MT_AL_MAX_ELEMS {
            PowerOfTwoBelowMax(elems);
            return MT_ERR_ILLEGAL_STATE;
          }
          store := Realloc(store, elems * 2 * HASH_LENGTH);
        }
      }
      Memcpy(store, elems * HASH_LENGTH, hash, 0, HASH_LENGTH);
      elems := elems + 1;
      ChunksWrite(before, store[..], n, n, hash[..]);
      r := MT_SUCCESS;
    }

    /** mt_al_update */
    method Update(hash: array<byte>, offset: nat) returns (r: MtError)
      requires Valid() && elems < MT_AL_MAX_ELEMS
      requires hash.Length == HASH_LENGTH && hash != store
      modifies store
      ensures Valid()
      ensures offset >= elems ==> r == MT_ERR_ILLEGAL_PARAM && Contents() == old(Contents())
      ensures offset < elems ==>
                r == MT_SUCCESS && Contents() == old(Contents())[offset := hash[..]]
    {
      if !(offset < elems) {
        return MT_ERR_ILLEGAL_PARAM;
      }
      ghost var before := store[..];
      Memcpy(store, offset * HASH_LENGTH, hash, 0, HASH_LENGTH);
      ChunksWrite(before, store[..], elems, offset, hash[..]);
      r := MT_SUCCESS;
    }

    /** mt_al_update_if_exists */
    method UpdateIfExists(hash: array<byte>, offset: nat) returns (r: MtError)
      requires Valid() && elems < MT_AL_MAX_ELEMS
      requires hash.Length == HASH_LENGTH && hash != store
      modifies store
      ensures Valid() && r == MT_SUCCESS
      ensures Contents()
           == if offset < elems then old(Contents())[offset := hash[..]] else old(Contents())
    {
      if offset >= elems {
        return MT_SUCCESS;
      }
      r := Update(hash, offset);
    }

    /** mt_al_add_or_update */
    method AddOrUpdate(hash: array<byte>, offset: nat) returns (r: MtError)
      requires Valid() && elems < MT_AL_MAX_ELEMS
      requires hash.Length == HASH_LENGTH && hash != store
      modifies this, store
      ensures Valid()
      ensures store == old(store) || fresh(store)
      ensures offset <= old(elems) ==> store != null
      ensures offset > old(elems) ==> r == MT_ERR_ILLEGAL_PARAM && Contents() == old(Contents())
      ensures offset == old(elems) ==> r == MT_SUCCESS && Contents() == old(Contents()) + [hash[..]]
      ensures offset < old(elems) ==>
                r == MT_SUCCESS && Contents() == old(Contents())[offset := hash[..]]
    {
      if offset > elems {
        return MT_ERR_ILLEGAL_PARAM;
      }
      if offset == elems {
        r := Add(hash);
      } else {
        r := Update(hash, offset);
      }
    }

    /** mt_al_truncate */
    method Truncate(n: nat) returns (r: MtError)
      requires Valid() && elems < MT_AL_MAX_ELEMS
      modifies this
      ensures Valid()
      ensures n >= old(elems) ==> r == MT_ERR_ILLEGAL_PARAM && Contents() == old(Contents())
      ensures n < old(elems) ==> r == MT_SUCCESS && Contents() == old(Contents())[..n]
      ensures store == old(store) || fresh(store)
    {
      if !(n < elems) {
        return MT_ERR_ILLEGAL_PARAM;
      }
      ghost var before, m := store[..], elems;
      elems := n;
      if n == 0 {
        return MT_SUCCESS;
      }
      RoundUpIsCapacity(n);
      var alloc := RoundNextPowerTwo(n) * HASH_LENGTH;
      store := Realloc(store, alloc);
      ChunksTake(before, store[..], m, n);
      r := MT_SUCCESS;
    }

    /** mt_al_get: the byte position of an element inside the store, or None. */
    method Get(offset: nat) returns (r: Option<nat>)
      requires Valid() && elems < MT_AL_MAX_ELEMS
      ensures offset >= elems ==> r == None
      ensures offset < elems ==>
                && r == Some(offset * HASH_LENGTH)
                && store != null && r.value + HASH_LENGTH <= store.Length
                && store[r.value..r.value + HASH_LENGTH] == Contents()[offset]
    {
      if !(offset < elems) {
        return None;
      }
      r := Some(offset * HASH_LENGTH);
    }
  }

  /** realloc: a block of the new size that keeps the common prefix. */
  method Realloc(block: array?<byte>, size: nat) returns (b: array<byte>)
    requires block != null
    ensures fresh(b) && b.Length == size
    ensures forall i :: 0 <= i < size && i < block.Length ==> b[i] == block[i]
  {
    b := new byte[size];
    forall i | 0 <= i < size && i < block.Length { b[i] := block[i]; }
  }

  /** The overflow branch of mt_al_add is not taken below the maximum: a full
      list that may still grow has at most half of it. */
  lemma {:induction false} PowerOfTwoBelowMax(n: nat)
    requires 0 < n < MT_AL_MAX_ELEMS && Capacity(n) == n
    ensures 2 * n <= MT_AL_MAX_ELEMS
  {
    Bits.Pow2Values();
    var j := CapacityIsPow2(n);
    if j >= 22 { Bits.Pow2Monotone(22, j); }
    Bits.Pow2Monotone(j, 21);
  }
}

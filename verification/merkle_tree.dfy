/** The Merkle tree, merkle-tree/src/mt_impl.c: one array list per level. */
module MerkleTrees {
  import opened Types
  import opened Bits
  import opened ArrList
  import opened MtCrypto
  import opened MerkleSpec
  import opened MerkleChange
  import opened MerkleWalk
  import opened PowerOfTwo

  /** What a call does: it returns a code, or gives memcmp or memcpy a NULL node. */
  datatype Result = Returns(e: MtError) | ReadsNull

  /** A tag filled up with zeros to the length of a hash. */
  function PadTag(tag: seq<byte>): (h: Hash)
    requires |tag| <= HASH_LENGTH
  {
    tag + seq(HASH_LENGTH - |tag|, _ => 0 as byte)
  }

  /** The bytes of the tag in their order, then zeros. */
  lemma PadTagBytes(tag: seq<byte>, i: nat)
    requires |tag| <= HASH_LENGTH && i < HASH_LENGTH
    ensures PadTag(tag)[i] == if i < |tag| then tag[i] else 0
  {
  }

  /** mt_init_hash */
  method InitHash(hash: array<byte>, tag: array<byte>, len: nat)
    requires hash.Length == HASH_LENGTH && len <= HASH_LENGTH && len <= tag.Length && hash != tag
    modifies hash
    ensures hash[..] == PadTag(tag[..len])
    ensures forall i :: 0 <= i < HASH_LENGTH ==> hash[i] == if i < len then tag[i] else 0
  {
    forall i | 0 <= i < HASH_LENGTH { hash[i] := 0; }
    Memcpy(hash, 0, tag, 0, len);
  }

  /** The local buffer of mt_add, mt_verify and mt_update. */
  method PaddedTag(tag: array<byte>, len: nat) returns (digest: array<byte>)
    requires len <= HASH_LENGTH && len <= tag.Length
    ensures fresh(digest) && digest.Length == HASH_LENGTH && digest[..] == PadTag(tag[..len])
  {
    digest := new byte[HASH_LENGTH];
    InitHash(digest, tag, len);
  }

  ghost predicate IsPairHash(h: Combine<Hash>) {
    forall l: Hash, r: Hash {:trigger PairHash(l, r)} :: h(l, r) == PairHash(l, r)
  }

  /** mt_hash, in terms of the name h for it. */
  method HashPair(ghost h: Combine<Hash>, left: array<byte>, l: nat, right: array<byte>, r: nat, digest: array<byte>)
    returns (e: MtError)
    requires IsPairHash(h)
    requires l + HASH_LENGTH <= left.Length && r + HASH_LENGTH <= right.Length
    requires digest.Length == HASH_LENGTH
    modifies digest
    ensures e == MT_SUCCESS
    ensures digest[..] == h(old(left[l..l + HASH_LENGTH]), old(right[r..r + HASH_LENGTH]))
  {
    hide PairHash;
    e := MtHash(left, l, right, r, digest);
  }

  /** Levels up to l of the new tree, the levels above of the old one. */
  function Mixed(h: Combine<Hash>, now: seq<Hash>, was: seq<Hash>, l: nat): (r: seq<seq<Hash>>)
    ensures |r| == TREE_LEVELS
    ensures forall k :: 0 <= k < TREE_LEVELS ==>
              r[k] == if k <= l then Level(h, now, k) else Level(h, was, k)
  {
    seq(TREE_LEVELS, k requires 0 <= k < TREE_LEVELS =>
      if k <= l then Level(h, now, k) else Level(h, was, k))
  }

  /** Filled lists that share no memory. */
  ghost predicate ListsApart(lists: seq<ArrayList>)
    reads lists
  {
    && (forall k :: 0 <= k < |lists| ==>
          lists[k].Valid() && lists[k].elems < MT_AL_MAX_ELEMS && lists[k].store != null)
    && (forall i, j :: 0 <= i < j < |lists| ==>
          lists[i] != lists[j] && lists[i].store != lists[j].store)
  }

  /** What an accepted tag means: the zero-padded stored leaf is accepted, and if
      any other is, then its path and the stored one contain two different pairs
      with the same hash. */
  lemma {:induction false} AcceptedTag(h: Combine<Hash>, leaves: seq<Hash>, offset: nat, tag: seq<byte>)
    requires IsPairHash(h) && offset < |leaves| && |tag| <= HASH_LENGTH
    ensures var other := leaves[offset := PadTag(tag)];
            && (PadTag(tag) == leaves[offset] ==> RangeHash(h, other) == RangeHash(h, leaves))
            && (PadTag(tag) != leaves[offset] && RangeHash(h, other) == RangeHash(h, leaves) ==>
                  var (x, y) := Collision(h, other, leaves);
                  x != y && PairHash(x.0, x.1) == PairHash(y.0, y.1))
  {
    hide PairHash, RangeHash, PadTag, Collision;
    var other := leaves[offset := PadTag(tag)];
    if PadTag(tag) == leaves[offset] {
      assert other == leaves;
    } else if RangeHash(h, other) == RangeHash(h, leaves) {
      assert other[offset] != leaves[offset];
      RootBinds(h, other, leaves);
      var (x, y) := Collision(h, other, leaves);
      assert h(x.0, x.1) == PairHash(x.0, x.1) && h(y.0, y.1) == PairHash(y.0, y.1);
    }
  }

  /** The outcome of mt_verify on a tree with the given leaves and counter. */
  ghost function VerifyResult(h: Combine<Hash>, leaves: seq<Hash>, elems: nat, tag: seq<byte>, offset: nat): Result {
    if |tag| > HASH_LENGTH || offset >= elems then Returns(MT_ERR_ILLEGAL_PARAM)
    else
      var top := Height(|leaves|);
      match Walk(h, leaves, offset, PadTag(tag), top)
      case None => Returns(MT_ERR_ILLEGAL_PARAM)
      case Some(x) => Compared(Level(h, leaves, top), Shr(offset, top), x)
  }

  function Compared(row: seq<Hash>, q: nat, x: Hash): Result {
    if q >= |row| then ReadsNull
    else if x == row[q] then Returns(MT_SUCCESS) else Returns(MT_ERR_ROOT_MISMATCH)
  }

  /** The size of the file of a saved tree with n leaves, which the loader takes
      for the leaf counter. */
  function SavedSize(n: nat): nat {
    if n == 0 then 104 else 64 * n + 72
  }

  /** The path from a file size is even three times, then odd and past level 3. */
  lemma {:induction false} SavedPath(n: nat, l: nat)
    requires l <= 3
    ensures l < 3 ==> Shr(SavedSize(n), l) % 2 == 0
    ensures l == 3 ==> Shr(SavedSize(n), l) % 2 == 1
    ensures Shr(SavedSize(n), l) > n + 1
  {
    hide Shr;
    var k := if n == 0 then 6 else 4 * n + 4;
    assert SavedSize(n) == 8 * (2 * k + 1);
    EightTimes(2 * k + 1, l);
    Odd(k);
  }

  lemma EightTimes(m: nat, l: nat)
    requires l <= 3
    ensures l < 3 ==> Shr(8 * m, l) % 2 == 0 && Shr(8 * m, l) >= m
    ensures l == 3 ==> Shr(8 * m, l) == m
  {
    hide Shr;
    var x := 8 * m;
    ShrStep(x, 0);
    ShrStep(x, 1);
    ShrStep(x, 2);
    assert x == 2 * (4 * m) && Shr(x, 1) == 4 * m;
    assert Shr(x, 1) == 2 * (2 * m) && Shr(x, 2) == 2 * m;
    assert Shr(x, 3) == m;
  }

  lemma Odd(k: nat)
    ensures (2 * k + 1) % 2 == 1
  {
  }

  lemma {:induction false} LevelAtMost(h: Combine<Hash>, leaves: seq<Hash>, k: nat)
    ensures |Level(h, leaves, k)| <= |leaves|
  {
    hide Nodes, Level, Count;
    LevelIsPrefix(h, leaves, k);
    CountAtZero(|leaves|);
    CountMonotone(|leaves|, 0, k);
  }

  /** At the offset of a leaf the tag is accepted exactly if it keeps the root. */
  lemma {:induction false} VerifyLeaf(h: Combine<Hash>, leaves: seq<Hash>, elems: nat, tag: seq<byte>, offset: nat)
    requires |tag| <= HASH_LENGTH && offset < elems && offset < |leaves|
    ensures VerifyResult(h, leaves, elems, tag, offset)
         == Returns(if RangeHash(h, leaves[offset := PadTag(tag)]) == RangeHash(h, leaves)
                    then MT_SUCCESS else MT_ERR_ROOT_MISMATCH)
  {
    hide Level, Count, Nodes, RangeHash, Walk, Climb, Shr, PadTag, Height, LevelCount;
    var d, top := PadTag(tag), Height(|leaves|);
    RootCount(|leaves|);
    LevelLength(h, leaves, top);
    WalkIsClimb(h, leaves, offset, d, top);
    AtTheRoot(h, leaves, offset, d, top);
  }

  /** Past the leaves, as on a loaded tree whose counter is the file size: a NULL
      node is compared exactly at the multiples of the capacity; otherwise a left
      sibling that is not stored makes the call return an error, and else the
      digest joined with the left siblings is compared with the root. */
  lemma {:induction false} VerifyPastLeaves(h: Combine<Hash>, leaves: seq<Hash>, elems: nat, tag: seq<byte>, offset: nat)
    requires |tag| <= HASH_LENGTH && |leaves| <= offset < elems
    ensures var (r, n) := (VerifyResult(h, leaves, elems, tag, offset), |leaves|);
            var x := Walk(h, leaves, offset, PadTag(tag), Height(n));
            && (r == ReadsNull <==> offset % Capacity(n) == 0)
            && (r == Returns(MT_ERR_ILLEGAL_PARAM) <==> !LeftsStored(n, offset, Height(n)))
            && (offset % Capacity(n) != 0 && LeftsStored(n, offset, Height(n)) ==>
                  && n > 0 && x.Some?
                  && r == Returns(if x.value == RangeHash(h, leaves) then MT_SUCCESS else MT_ERR_ROOT_MISMATCH))
  {
    hide Level, Count, Nodes, RangeHash, Walk, Shr, PadTag, Height, LevelCount, Capacity, LeftsStored;
    var n, top := |leaves|, Height(|leaves|);
    RootCount(n);
    LevelLength(h, leaves, top);
    WalkEnds(h, leaves, offset, PadTag(tag), top);
    PastTheRoot(n, offset);
    if n > 0 { RootStored(h, leaves, top); }
  }

  /** A row keeps its root although its last node v becomes PairHash(v, y): either v
      stays the same, or there are two different pairs with one hash. */
  ghost predicate LastNodeRepeats(h: Combine<Hash>, row: seq<Hash>, y: Hash) {
    && |row| % 2 == 1
    && var v := row[|row| - 1];
       var other := row[|row| - 1 := PairHash(v, y)];
       && RangeHash(h, other) == RangeHash(h, row)
       && (PairHash(v, y) == v
           || (other != row
               && var (p, q) := Collision(h, other, row);
                  p != q && PairHash(p.0, p.1) == PairHash(q.0, q.1)))
  }

  /** Past the leaves no tag is accepted unless the pair hash has a node v with
      v == PairHash(v, y), or two different pairs with one hash. */
  lemma {:induction false} AcceptedPastLeaves(h: Combine<Hash>, leaves: seq<Hash>, elems: nat, tag: seq<byte>, offset: nat)
    returns (k: nat, y: Hash)
    requires IsPairHash(h) && |leaves| <= offset
    requires VerifyResult(h, leaves, elems, tag, offset) == Returns(MT_SUCCESS)
    ensures LastNodeRepeats(h, Nodes(h, leaves, k), y)
  {
    hide LastNodeRepeats, Nodes, RangeHash, Walk, Height, Shr, Level, Count, LevelCount, PairHash, PadTag;
    var top := Height(|leaves|);
    RootCount(|leaves|);
    LevelLength(h, leaves, top);
    if |leaves| > 0 { RootStored(h, leaves, top); }
    k, y := WalkMeetsRoot(h, leaves, offset, PadTag(tag));
    LastNodeBinds(h, Nodes(h, leaves, k), y);
  }

  lemma {:induction false} LastNodeBinds(h: Combine<Hash>, row: seq<Hash>, y: Hash)
    requires IsPairHash(h) && |row| % 2 == 1
    requires RangeHash(h, row[|row| - 1 := h(row[|row| - 1], y)]) == RangeHash(h, row)
    ensures LastNodeRepeats(h, row, y)
  {
    hide RangeHash, Collision, PairHash;
    var v := row[|row| - 1];
    var other := row[|row| - 1 := PairHash(v, y)];
    if PairHash(v, y) != v {
      assert other[|row| - 1] != row[|row| - 1];
      RootBinds(h, other, row);
      var (p, q) := Collision(h, other, row);
      assert h(p.0, p.1) == PairHash(p.0, p.1) && h(q.0, q.1) == PairHash(q.0, q.1);
    }
  }

  /** For example: one leaf, saved and loaded, and the offset after it. */
  lemma {:induction false} OneLeafLoaded(h: Combine<Hash>, leaf: Hash, tag: seq<byte>)
    requires |tag| <= HASH_LENGTH
    ensures VerifyResult(h, [leaf], 136, tag, 1) == ReadsNull
  {
    hide VerifyResult, Walk, PadTag, RangeHash;
    VerifyPastLeaves(h, [leaf], 136, tag, 1);
  }

  class MerkleTree {
    var elems: nat
    const level: seq<ArrayList>
    /** The pair hash. It is mt_hash; the proofs use it without its definition. */
    ghost const h: Combine<Hash>

    /** The lists and their stores. */
    ghost var Repr: set<object>

    /** The lists are valid, below the maximum, and share no memory. */
    ghost predicate Separate()
      reads this, Repr
    {
      && |level| == TREE_LEVELS && IsPairHash(h) && this !in Repr
      && (forall k :: 0 <= k < TREE_LEVELS ==>
            && level[k] in Repr && level[k].Valid() && level[k].elems < MT_AL_MAX_ELEMS
            && (level[k].store != null ==> level[k].store in Repr))
      && (forall i, j :: 0 <= i < j < TREE_LEVELS ==> level[i] != level[j])
      && (forall i, j :: 0 <= i < j < TREE_LEVELS && level[i].store != null ==>
            level[i].store != level[j].store)
    }

    ghost function Levels(): (r: seq<seq<Hash>>)
      requires Separate()
      reads this, Repr
      ensures |r| == TREE_LEVELS
    {
      seq(TREE_LEVELS, k requires 0 <= k < TREE_LEVELS && Separate() reads this, Repr => level[k].Contents())
    }

    ghost function Leaves(): seq<Hash>
      requires Separate()
      reads this, Repr
    {
      Levels()[0]
    }

    /** Every level holds exactly the nodes that the leaves determine. */
    ghost predicate Consistent()
      reads this, Repr
    {
      Separate() && Levels() == Forest(h, Leaves())
    }

    /** mt_al_get on one level: the pointer, or None for NULL. */
    method NodeAt(k: nat, offset: nat) returns (r: Option<(array<byte>, nat)>)
      requires Separate() && k < TREE_LEVELS
      ensures r.None? <==> offset >= |Levels()[k]|
      ensures r.Some? ==>
                && r.value.0 in Repr && r.value.1 + HASH_LENGTH <= r.value.0.Length
                && r.value.0[r.value.1..r.value.1 + HASH_LENGTH] == Levels()[k][offset]
    {
      var p := level[k].Get(offset);
      if p.None? {
        return None;
      }
      r := Some((level[k].store, p.value));
    }

    /** mt_hash into a buffer outside the tree. */
    method HashInto(left: array<byte>, l: nat, right: array<byte>, r: nat, digest: array<byte>)
      returns (e: MtError)
      requires Separate() && digest !in Repr
      requires l + HASH_LENGTH <= left.Length && r + HASH_LENGTH <= right.Length
      requires digest.Length == HASH_LENGTH
      modifies digest
      ensures Separate() && Levels() == old(Levels()) && e == MT_SUCCESS
      ensures digest[..] == h(old(left[l..l + HASH_LENGTH]), old(right[r..r + HASH_LENGTH]))
    {
      e := HashPair(h, left, l, right, r, digest);
    }

    /** mt_al_add on one level. */
    method AppendAt(k: nat, digest: array<byte>) returns (e: MtError)
      requires Separate() && k < TREE_LEVELS
      requires digest.Length == HASH_LENGTH && digest !in Repr
      requires |Levels()[k]| + 1 < MT_AL_MAX_ELEMS
      modifies this`Repr, Repr
      ensures elems == old(elems)
      ensures Separate() && e == MT_SUCCESS
      ensures Levels() == old(Levels())[k := old(Levels())[k] + [digest[..]]]
      ensures digest[..] == old(digest[..]) && digest !in Repr
      ensures fresh(Repr - old(Repr))
    {
      hide ArrayList.Contents, ArrayList.Valid;
      e := level[k].Add(digest);
      Repr := Repr + {level[k].store};
      assert forall i :: 0 <= i < TREE_LEVELS && i != k ==>
        level[i].Contents() == old(level[i].Contents());
    }

    /** mt_al_add_or_update on one level. */
    method AddOrUpdateAt(k: nat, digest: array<byte>, offset: nat) returns (e: MtError)
      requires Separate() && k < TREE_LEVELS
      requires digest.Length == HASH_LENGTH && digest !in Repr
      requires offset <= |Levels()[k]| && offset + 1 < MT_AL_MAX_ELEMS
      modifies this`Repr, Repr
      ensures elems == old(elems)
      ensures Separate() && e == MT_SUCCESS
      ensures Levels() == old(Levels())[k := SetAt<Hash>(old(Levels())[k], offset, digest[..])]
      ensures digest[..] == old(digest[..]) && digest !in Repr
      ensures fresh(Repr - old(Repr))
    {
      hide ArrayList.Contents, ArrayList.Valid;
      e := level[k].AddOrUpdate(digest, offset);
      Repr := Repr + {level[k].store};
      assert forall i :: 0 <= i < TREE_LEVELS && i != k ==>
        level[i].Contents() == old(level[i].Contents());
    }

    /** mt_al_update_if_exists on one level. */
    method UpdateIfExistsAt(k: nat, digest: array<byte>, offset: nat) returns (e: MtError)
      requires Separate() && k < TREE_LEVELS
      requires digest.Length == HASH_LENGTH && digest !in Repr
      modifies Repr
      ensures elems == old(elems) && Repr == old(Repr)
      ensures Separate() && e == MT_SUCCESS
      ensures Levels() == old(Levels())[k := UpdateIfExists<Hash>(old(Levels())[k], offset, digest[..])]
      ensures digest[..] == old(digest[..]) && digest !in Repr
    {
      hide ArrayList.Contents, ArrayList.Valid;
      e := level[k].UpdateIfExists(digest, offset);
      assert forall i :: 0 <= i < TREE_LEVELS && i != k ==>
        level[i].Contents() == old(level[i].Contents());
    }

    /** mt_create */
    constructor ()
      ensures Consistent() && Leaves() == [] && elems == 0 && h == PairHash
      ensures fresh(Repr)
    {
      var lists: seq<ArrayList> := [];
      for i := 0 to TREE_LEVELS
        invariant |lists| == i
        invariant forall k :: 0 <= k < i ==>
          fresh(lists[k]) && lists[k].Valid() && lists[k].elems == 0 && lists[k].store == null
        invariant forall j, k :: 0 <= j < k < i ==> lists[j] != lists[k]
      {
        var list := new ArrayList();
        lists := lists + [list];
      }
      level := lists;
      elems := 0;
      h := PairHash;
      Repr := set k | 0 <= k < TREE_LEVELS :: lists[k];
      new;
      hide PairHash, Level, Nodes, Count;
      assert forall k :: 0 <= k < TREE_LEVELS ==> level[k].Contents() == [];
      forall k | 0 <= k < TREE_LEVELS ensures Level(h, [], k) == [] {
        EmptyTree(h, k);
      }
      assert Levels() == Forest(h, []);
    }

    /** A tree over lists that were filled elsewhere; the leaf counter is given. */
    constructor FromLists(n: nat, lists: seq<ArrayList>)
      requires |lists| == TREE_LEVELS && ListsApart(lists)
      ensures Separate() && elems == n && h == PairHash
      ensures forall k :: 0 <= k < TREE_LEVELS ==> Levels()[k] == lists[k].Contents()
      ensures forall o :: o in Repr ==> exists k :: 0 <= k < TREE_LEVELS && (o == lists[k] || o == lists[k].store)
    {
      level := lists;
      elems := n;
      h := PairHash;
      Repr := (set k | 0 <= k < TREE_LEVELS :: lists[k] as object)
            + (set k | 0 <= k < TREE_LEVELS :: lists[k].store as object);
      new;
      hide PairHash, ArrayList.Contents;
    }

    /** mt_add, on a tree whose counter is right or was set by the loader. On a
        loaded tree the path starts at the byte total: the leaf is appended, the
        levels above stay as they were, and the call reports an error. */
    method Add(tag: array<byte>, len: nat) returns (e: MtError)
      requires Consistent() && |Leaves()| < 4194303
      requires elems == |Leaves()| || elems == SavedSize(|Leaves()|)
      requires len <= tag.Length && tag !in Repr
      modifies this, Repr
      ensures fresh(Repr - old(Repr))
      ensures len > HASH_LENGTH ==>
                e == MT_ERR_ILLEGAL_PARAM && Consistent() && Leaves() == old(Leaves()) && elems == old(elems)
      ensures len <= HASH_LENGTH && old(elems) == |old(Leaves())| ==>
                && e == MT_SUCCESS && Consistent() && elems == |Leaves()|
                && Leaves() == old(Leaves()) + [PadTag(old(tag[..len]))]
      ensures len <= HASH_LENGTH && old(elems) != |old(Leaves())| ==>
                && e == MT_ERR_ILLEGAL_PARAM && elems == old(elems) + 1 && Separate()
                && Levels() == old(Levels())[0 := old(Leaves()) + [PadTag(old(tag[..len]))]]
    {
      hide Forest, Levels, Separate, PadTag, Mixed;
      if !(len <= HASH_LENGTH) {
        return MT_ERR_ILLEGAL_PARAM;
      }
      var digest := PaddedTag(tag, len);
      ghost var was, x := Leaves(), digest[..];
      StartAdding(h, was, x);
      e := AppendAt(0, digest);
      if e != MT_SUCCESS {
        return e;
      }
      CountLeaf();
      assert Levels() == Mixed(h, was + [x], was, 0);
      if elems == 1 {
        return MT_SUCCESS;
      }
      e := AddPath(was, x, digest);
    }

    /** mt->elems += 1 */
    method CountLeaf()
      requires Separate()
      modifies this`elems
      ensures elems == old(elems) + 1
      ensures Separate() && Levels() == old(Levels())
    {
      elems := elems + 1;
    }

    /** The loop of mt_add and the assert after it. */
    method AddPath(ghost was: seq<Hash>, ghost x: Hash, digest: array<byte>) returns (e: MtError)
      requires |was| + 1 < MT_AL_MAX_ELEMS && elems > 1
      requires elems == |was| + 1 || elems == SavedSize(|was|) + 1
      requires Separate() && Levels() == Mixed(h, was + [x], was, 0)
      requires digest.Length == HASH_LENGTH && digest !in Repr && digest[..] == x
      modifies this`Repr, Repr, digest
      ensures elems == old(elems) && Separate() && fresh(Repr - old(Repr))
      ensures elems == |was| + 1 ==> e == MT_SUCCESS && Levels() == Forest(h, was + [x])
      ensures elems != |was| + 1 ==> e == MT_ERR_ILLEGAL_PARAM && Levels() == old(Levels())
    {
      hide Forest, Levels, Separate, Mixed, Level, Nodes, Count, Shr, SavedSize;
      var q, l := elems - 1, 0;
      ghost var counted := elems == |was| + 1;
      ShrStep(elems - 1, 0);
      FirstRow(h, was + [x]);
      while q > 0 && l < TREE_LEVELS
        invariant elems == old(elems) && l <= 22 && q == Shr(elems - 1, l)
        invariant Separate() && digest !in Repr && fresh(Repr - old(Repr))
        invariant counted ==> Levels() == Mixed(h, was + [x], was, l)
        invariant counted ==> Count(|was| + 1, l) == q + 1 && digest[..] == Nodes(h, was + [x], l)[q]
        invariant counted && q == 0 ==> |Level(h, was + [x], l)| > 0
        invariant !counted ==> l <= 3 && Levels() == old(Levels())
        decreases TREE_LEVELS - l
      {
        if counted { PathBelowTop(|was|, l); }
        ShrStep(elems - 1, l);
        e := AddStep(was, x, digest, q, l);
        if e != MT_SUCCESS {
          return e;
        }
        q := q / 2;
        l := l + 1;
      }
      if !counted { SavedPath(|was|, l); }
      ShrShrinks(|was|, l, 22);
      AllLevelsDone(h, was + [x], was, l);
      LevelIsPrefix(h, was + [x], l);
      var same := CompareWithNode(digest, l, q);
      assert same == Returns(MT_SUCCESS);
      e := MT_SUCCESS;
    }

    /** One iteration of the loop in mt_add. */
    method AddStep(ghost was: seq<Hash>, ghost x: Hash, digest: array<byte>, q: nat, l: nat)
      returns (e: MtError)
      requires |was| + 1 < MT_AL_MAX_ELEMS
      requires elems == |was| + 1 || elems == SavedSize(|was|) + 1
      requires l < 22 && q == Shr(elems - 1, l) && q > 0
      requires Separate() && digest.Length == HASH_LENGTH && digest !in Repr
      requires elems == |was| + 1 ==>
                 && Levels() == Mixed(h, was + [x], was, l)
                 && Count(|was| + 1, l) == q + 1 && digest[..] == Nodes(h, was + [x], l)[q]
      requires elems != |was| + 1 ==> l <= 3 && Levels() == Mixed(h, was + [x], was, 0)
      modifies this`Repr, Repr, digest
      ensures elems == old(elems)
      ensures Separate() && digest !in Repr && fresh(Repr - old(Repr))
      ensures elems == |was| + 1 ==>
                && e == MT_SUCCESS
                && Levels() == Mixed(h, was + [x], was, l + 1)
                && Count(|was| + 1, l + 1) == q / 2 + 1
                && digest[..] == Nodes(h, was + [x], l + 1)[q / 2]
                && (q == 1 ==> |Level(h, was + [x], l + 1)| > 0)
      ensures elems != |was| + 1 ==>
                && Levels() == old(Levels())
                && e == if l == 3 then MT_ERR_ILLEGAL_PARAM else MT_SUCCESS
    {
      hide Nodes, Level, Count, Shr, Mixed, SetAt, Separate, Levels, SavedSize;
      if elems == |was| + 1 {
        AppendPath(h, was, x, l);
        AddLevels(h, was, x, l);
      } else {
        SavedPath(|was|, l);
        LevelAtMost(h, was, 3);
      }
      if q % 2 == 1 {
        if elems == |was| + 1 { AppendLeft(h, was, x, l); }
        var left := NodeAt(l, q - 1);
        if left.None? {
          return MT_ERR_ILLEGAL_PARAM;
        }
        e := StoreParent(left.value.0, left.value.1, digest, q / 2, l + 1);
        if e != MT_SUCCESS {
          return e;
        }
      }
      e := MT_SUCCESS;
    }

    /** The hash of a node and its left sibling, stored one level up. */
    method StoreParent(left: array<byte>, at: nat, digest: array<byte>, q: nat, l: nat) returns (e: MtError)
      requires Separate() && l < TREE_LEVELS && q <= |Levels()[l]| && q + 1 < MT_AL_MAX_ELEMS
      requires at + HASH_LENGTH <= left.Length && digest.Length == HASH_LENGTH && digest !in Repr
      modifies this`Repr, Repr, digest
      ensures elems == old(elems)
      ensures Separate() && digest !in Repr && fresh(Repr - old(Repr)) && e == MT_SUCCESS
      ensures digest[..] == h(old(left[at..at + HASH_LENGTH]), old(digest[..]))
      ensures Levels() == old(Levels())[l := SetAt<Hash>(old(Levels())[l], q, digest[..])]
    {
      hide Separate, Levels, SetAt;
      assert digest[0..HASH_LENGTH] == digest[..];
      e := HashInto(left, at, digest, 0, digest);
      if e != MT_SUCCESS {
        return e;
      }
      e := AddOrUpdateAt(l, digest, q);
    }

    /** mt_al_get_size on one level. */
    method SizeAt(k: nat) returns (n: nat)
      requires Separate() && k < TREE_LEVELS
      ensures n == |Levels()[k]|
    {
      n := level[k].elems;
    }

    /** mt_get_size */
    method GetSize() returns (n: nat)
      requires Separate()
      ensures n == |Leaves()|
    {
      n := SizeAt(0);
    }

    /** hasNextLevelExceptRoot. Both operands are evaluated, so the level above
        must exist even where the first operand is false. */
    method HasNextLevelExceptRoot(l: nat) returns (b: bool)
      requires Separate() && l + 1 < TREE_LEVELS
      ensures b <==> l + 1 < TREE_LEVELS - 1 && |Levels()[l + 1]| > 0
    {
      var n := SizeAt(l + 1);
      b := l + 1 < TREE_LEVELS - 1 && n > 0;
    }

    /** The loop condition in terms of the rows: the row of height l is not yet the
        root alone. */
    method HasMore(ghost leaves: seq<Hash>, l: nat) returns (more: bool)
      requires Separate() && l <= 22 && |leaves| < MT_AL_MAX_ELEMS
      requires |Levels()[l + 1]| == |Level(h, leaves, l + 1)|
      ensures more <==> Count(|leaves|, l) >= 2
    {
      hide Separate, Levels, Level, Count;
      TopOfTree(h, leaves, l);
      more := HasNextLevelExceptRoot(l);
    }

    /** The levels up to l hold the tree over the given leaves. */
    ghost predicate BuiltUpTo(leaves: seq<Hash>, l: nat)
      requires Separate()
      reads this, Repr
    {
      && l < TREE_LEVELS
      && forall k :: 0 <= k <= l ==> Levels()[k] == Level(h, leaves, k)
    }

    /** findRightNeighbor: the node at the given offset of a row, wherever the
        node that it was carried from is stored; nothing if it has no leaf. */
    method FindRightNeighbor(ghost leaves: seq<Hash>, offset: nat, l: nat)
      returns (r: Option<(array<byte>, nat)>)
      requires Separate() && BuiltUpTo(leaves, l)
      requires l <= 22 && |leaves| < MT_AL_MAX_ELEMS && Fits(offset, l)
      ensures r.None? <==> Count(|leaves|, l) <= offset
      ensures r.Some? ==>
                && r.value.0 in Repr && r.value.1 + HASH_LENGTH <= r.value.0.Length
                && r.value.0[r.value.1..r.value.1 + HASH_LENGTH] == Nodes(h, leaves, l)[offset]
    {
      hide Separate, Levels, Nodes, Level, Count, Fits;
      var o, i: int := offset, l;
      while i > -1
        invariant -1 <= i <= l
        invariant 0 <= o && (i >= 0 ==> Fits(o, i))
        invariant i >= 0 ==> (offset < Count(|leaves|, l) <==> o < Count(|leaves|, i))
        invariant i >= 0 && o < Count(|leaves|, i) ==>
          Nodes(h, leaves, l)[offset] == Nodes(h, leaves, i)[o]
        invariant i == -1 ==> Count(|leaves|, l) <= offset
      {
        var n := SizeAt(i);
        LevelIsPrefix(h, leaves, i);
        if o < n {
          r := NodeAt(i, o);
          return;
        }
        if i > 0 {
          CarriedNode(h, leaves, i, o);
          ShiftFits(o, i);
        } else {
          FirstRow(h, leaves);
        }
        i := i - 1;
        o := o * 2 % UINT32;
      }
      r := None;
    }

    /** The body of the loops of mt_verify and mt_update: the digest of node q is
        joined with its sibling. mt_hash refuses a left sibling that is NULL. */
    method HashWithSibling(ghost leaves: seq<Hash>, digest: array<byte>, q: nat, l: nat)
      returns (e: MtError)
      requires Separate() && BuiltUpTo(leaves, l) && l <= 22 && |leaves| < MT_AL_MAX_ELEMS
      requires q % 2 == 0 ==> Fits(q + 1, l)
      requires digest.Length == HASH_LENGTH && digest !in Repr
      modifies digest
      ensures Separate() && Levels() == old(Levels())
      ensures e == if LeftStored(|leaves|, l, q) then MT_SUCCESS else MT_ERR_ILLEGAL_PARAM
      ensures e == MT_SUCCESS ==> digest[..] == Joined<Hash>(h, leaves, l, q, old(digest[..]))
    {
      hide Separate, Levels, Nodes, Level, Count, LevelCount, Fits;
      assert digest[0..HASH_LENGTH] == digest[..];
      LevelLength(h, leaves, l);
      if q % 2 == 0 {
        var right := FindRightNeighbor(leaves, q + 1, l);
        if right.Some? {
          e := HashInto(digest, 0, right.value.0, right.value.1, digest);
          if e != MT_SUCCESS {
            return e;
          }
        }
      } else {
        LevelIsPrefix(h, leaves, l);
        var left := NodeAt(l, q - 1);
        if left.None? {
          return MT_ERR_ILLEGAL_PARAM;
        }
        e := HashInto(left.value.0, left.value.1, digest, 0, digest);
        if e != MT_SUCCESS {
          return e;
        }
      }
      e := MT_SUCCESS;
    }

    /** mt_verify */
    method Verify(tag: array<byte>, len: nat, offset: nat) returns (r: Result)
      requires Consistent() && elems < UINT32 && len <= tag.Length
      ensures r == VerifyResult(h, Leaves(), elems, tag[..len], offset)
      ensures len > HASH_LENGTH || offset >= elems ==> r == Returns(MT_ERR_ILLEGAL_PARAM)
      ensures len <= HASH_LENGTH && offset < elems && offset < |Leaves()| ==>
                && (r == Returns(MT_SUCCESS) || r == Returns(MT_ERR_ROOT_MISMATCH))
                && (r == Returns(MT_SUCCESS) <==>
                      RangeHash(h, Leaves()[offset := PadTag(tag[..len])]) == RangeHash(h, Leaves()))
      ensures len <= HASH_LENGTH && |Leaves()| <= offset < elems ==>
                && (r == ReadsNull <==> offset % Capacity(|Leaves()|) == 0)
                && (r == Returns(MT_ERR_ILLEGAL_PARAM) <==>
                      !LeftsStored(|Leaves()|, offset, Height(|Leaves()|)))
    {
      hide Separate, Levels, Forest, Level, RangeHash, PadTag, PairHash, Nodes, Count, Walk, Capacity, Height, Shr;
      if !(len <= HASH_LENGTH && offset < elems) {
        return Returns(MT_ERR_ILLEGAL_PARAM);
      }
      var digest := PaddedTag(tag, len);
      ghost var d: Hash := digest[..];
      ghost var leaves := Leaves();
      SizeBelowMax();
      if offset < |leaves| {
        VerifyLeaf(h, leaves, elems, tag[..len], offset);
      } else {
        VerifyPastLeaves(h, leaves, elems, tag[..len], offset);
      }
      var e, q, l := WalkPath(leaves, d, digest, offset);
      if e != MT_SUCCESS {
        return Returns(e);
      }
      r := CompareWithNode(digest, l, q);
    }

    /** memcmp of the digest and a node that may be NULL. */
    method CompareWithNode(digest: array<byte>, l: nat, q: nat) returns (r: Result)
      requires Separate() && l < TREE_LEVELS && digest.Length == HASH_LENGTH
      ensures r == Compared(Levels()[l], q, digest[..])
    {
      hide Separate, Levels;
      var node := NodeAt(l, q);
      if node.None? {
        return ReadsNull;
      }
      var at := node.value.1;
      r := Returns(if digest[..] == node.value.0[at..at + HASH_LENGTH] then MT_SUCCESS else MT_ERR_ROOT_MISMATCH);
    }

    /** The loop of mt_verify: it walks to the level of the root, or stops where a
        left sibling is missing. */
    method WalkPath(ghost leaves: seq<Hash>, ghost d: Hash, digest: array<byte>, offset: nat)
      returns (e: MtError, q: nat, l: nat)
      requires Separate() && Levels() == Forest(h, leaves) && |leaves| < MT_AL_MAX_ELEMS && offset < UINT32
      requires digest.Length == HASH_LENGTH && digest !in Repr && digest[..] == d
      modifies digest
      ensures Separate() && Levels() == old(Levels())
      ensures e == if Walk(h, leaves, offset, d, Height(|leaves|)).Some? then MT_SUCCESS else MT_ERR_ILLEGAL_PARAM
      ensures e == MT_SUCCESS ==>
                && l == Height(|leaves|) < TREE_LEVELS && q == Shr(offset, l)
                && Walk(h, leaves, offset, d, l) == Some(digest[..])
                && Levels()[l] == Level(h, leaves, l)
    {
      hide Separate, Levels, Forest, Nodes, Level, Count, Walk, Shr, Height, LevelCount;
      ForestLevels(h, leaves);
      HeightBound(|leaves|);
      WalkStep(h, leaves, offset, d, 0);
      q, l := offset, 0;
      ShrStep(offset, 0);
      HeightExact(|leaves|, 0);
      var more := HasMore(leaves, l);
      while more
        invariant l <= Height(|leaves|) && q == Shr(offset, l)
        invariant Separate() && Levels() == old(Levels())
        invariant more <==> l < Height(|leaves|)
        invariant Walk(h, leaves, offset, d, l) == Some(digest[..])
        decreases TREE_LEVELS - l
      {
        e := WalkOn(leaves, d, digest, offset, q, l);
        if e != MT_SUCCESS {
          StoppedStays(h, leaves, offset, d, l + 1, Height(|leaves|));
          return;
        }
        ShrStep(offset, l);
        q := q / 2;
        l := l + 1;
        HeightExact(|leaves|, l);
        more := HasMore(leaves, l);
      }
      e := MT_SUCCESS;
    }

    /** One iteration of the loop in mt_verify. */
    method WalkOn(ghost leaves: seq<Hash>, ghost d: Hash, digest: array<byte>, ghost offset: nat, q: nat, l: nat)
      returns (e: MtError)
      requires Separate() && Levels() == Forest(h, leaves) && |leaves| < MT_AL_MAX_ELEMS
      requires l <= 22 && offset < UINT32 && q == Shr(offset, l)
      requires digest.Length == HASH_LENGTH && digest !in Repr
      requires Walk(h, leaves, offset, d, l) == Some(digest[..])
      modifies digest
      ensures Separate() && Levels() == old(Levels())
      ensures e == MT_SUCCESS ==> Walk(h, leaves, offset, d, l + 1) == Some(digest[..])
      ensures e != MT_SUCCESS ==> e == MT_ERR_ILLEGAL_PARAM && Walk(h, leaves, offset, d, l + 1) == None
    {
      hide Separate, Levels, Forest, Nodes, Level, Count, Walk, Shr, LeftStored, Joined, Fits;
      ForestLevels(h, leaves);
      WalkStep(h, leaves, offset, d, l);
      if q % 2 == 0 { RightFits(offset, l); }
      e := HashWithSibling(leaves, digest, q, l);
    }

    lemma SizeBelowMax()
      requires Separate()
      ensures |Leaves()| < MT_AL_MAX_ELEMS
    {
    }

    /** mt_update */
    method Update(tag: array<byte>, len: nat, offset: nat) returns (e: MtError)
      requires Consistent() && len <= tag.Length && tag !in Repr
      modifies Repr
      ensures Consistent() && elems == old(elems) && Repr == old(Repr)
      ensures len > HASH_LENGTH || offset >= elems || offset >= |old(Leaves())| ==>
                e == MT_ERR_ILLEGAL_PARAM && Leaves() == old(Leaves())
      ensures len <= HASH_LENGTH && offset < elems && offset < |old(Leaves())| ==>
                e == MT_SUCCESS && Leaves() == old(Leaves())[offset := PadTag(old(tag[..len]))]
    {
      hide Separate, Levels, Forest, PadTag, Mixed, UpdateIfExists;
      if !(len <= HASH_LENGTH && offset < elems) {
        return MT_ERR_ILLEGAL_PARAM;
      }
      var digest := PaddedTag(tag, len);
      ghost var was := Leaves();
      ghost var d: Hash := digest[..];
      SizeBelowMax();
      e := UpdateAt(0, digest, offset);
      if e != MT_SUCCESS {
        return e;
      }
      StartUpdating(h, was, offset, d);
      e := UpdatePath(was, d, digest, offset);
    }

    /** The loop of mt_update and the assert after it. */
    method UpdatePath(ghost was: seq<Hash>, ghost d: Hash, digest: array<byte>, offset: nat)
      returns (e: MtError)
      requires offset < |was| < MT_AL_MAX_ELEMS
      requires Separate() && Levels() == Mixed(h, was[offset := d], was, 0)
      requires digest.Length == HASH_LENGTH && digest !in Repr && digest[..] == d
      modifies Repr, digest
      ensures elems == old(elems) && Repr == old(Repr)
      ensures Separate() && Levels() == Forest(h, was[offset := d]) && e == MT_SUCCESS
    {
      hide Separate, Levels, Forest, Nodes, Level, Count, Mixed, Shr;
      ghost var now := was[offset := d];
      var q, l := offset, 0;
      ShrStep(offset, 0);
      FirstRow(h, now);
      LevelSizes(h, was, now, 1);
      var more := HasMore(was, l);
      while more
        invariant l <= 22 && q == Shr(offset, l) && q < Count(|was|, l)
        invariant elems == old(elems) && Repr == old(Repr) && digest !in Repr
        invariant Separate() && Levels() == Mixed(h, now, was, l)
        invariant more <==> Count(|was|, l) >= 2
        invariant |Level(h, now, l)| > 0
        invariant digest[..] == Nodes(h, now, l)[q]
        decreases TREE_LEVELS - l
      {
        TopOfTree(h, now, l);
        e := UpdateStep(was, d, digest, offset, q, l);
        if e != MT_SUCCESS {
          return e;
        }
        ShrStep(offset, l);
        q := q / 2;
        l := l + 1;
        more := HasMore(was, l);
      }
      AllLevelsDone(h, now, was, l);
      LevelIsPrefix(h, now, l);
      var same := CompareWithNode(digest, l, q);
      assert same == Returns(MT_SUCCESS);
      e := MT_SUCCESS;
    }

    /** One iteration of the loop in mt_update. */
    method UpdateStep(ghost was: seq<Hash>, ghost d: Hash, digest: array<byte>, ghost offset: nat, q: nat, l: nat)
      returns (e: MtError)
      requires offset < |was| < MT_AL_MAX_ELEMS
      requires l < 22 && q == Shr(offset, l) && q < Count(|was|, l)
      requires Separate() && Levels() == Mixed(h, was[offset := d], was, l)
      requires digest.Length == HASH_LENGTH && digest !in Repr
      requires digest[..] == Nodes(h, was[offset := d], l)[q]
      modifies Repr, digest
      ensures elems == old(elems) && Repr == old(Repr)
      ensures Separate() && Levels() == Mixed(h, was[offset := d], was, l + 1) && e == MT_SUCCESS
      ensures q / 2 < Count(|was|, l + 1)
      ensures digest[..] == Nodes(h, was[offset := d], l + 1)[q / 2]
    {
      hide Separate, Levels, Nodes, Level, Count, Mixed, Parent, UpdateIfExists, Joined, LeftStored, Shr, Fits;
      ghost var now := was[offset := d];
      UpdateRow(h, was, offset, d, l);
      JoinedIsParent<Hash>(h, now, l, q, digest[..]);
      if q % 2 == 0 { RightFits(offset, l); }
      e := HashWithSibling(now, digest, q, l);
      if e != MT_SUCCESS {
        return e;
      }
      e := UpdateIfExistsAt(l + 1, digest, q / 2);
    }

    /** mt_al_update on one level. */
    method UpdateAt(k: nat, digest: array<byte>, offset: nat) returns (e: MtError)
      requires Separate() && k < TREE_LEVELS
      requires digest.Length == HASH_LENGTH && digest !in Repr
      modifies Repr
      ensures elems == old(elems) && Repr == old(Repr)
      ensures Separate() && digest[..] == old(digest[..])
      ensures offset >= |old(Levels())[k]| ==> e == MT_ERR_ILLEGAL_PARAM && Levels() == old(Levels())
      ensures offset < |old(Levels())[k]| ==>
                && e == MT_SUCCESS
                && Levels() == old(Levels())[k := UpdateIfExists<Hash>(old(Levels())[k], offset, digest[..])]
    {
      hide ArrayList.Contents, ArrayList.Valid;
      e := level[k].Update(digest, offset);
      assert forall i :: 0 <= i < TREE_LEVELS && i != k ==>
        level[i].Contents() == old(level[i].Contents());
    }

    /** mt_get_root */
    method GetRoot(root: array<byte>) returns (r: Result)
      requires Consistent() && root.Length == HASH_LENGTH && root !in Repr
      modifies root
      ensures Consistent() && Leaves() == old(Leaves())
      ensures |Leaves()| == 0 ==> r == ReadsNull && root[..] == old(root[..])
      ensures |Leaves()| > 0 ==> r == Returns(MT_SUCCESS) && root[..] == RangeHash(h, Leaves())
    {
      hide Separate, Levels, Forest, Nodes, Level, Count, RangeHash, Height, LevelCount;
      ghost var leaves := Leaves();
      ForestLevels(h, leaves);
      SizeBelowMax();
      HeightBound(|leaves|);
      var l := 0;
      HeightExact(|leaves|, 0);
      var more := HasMore(leaves, l);
      while more
        invariant l <= Height(|leaves|) && (more <==> l < Height(|leaves|))
        invariant root[..] == old(root[..])
        decreases TREE_LEVELS - l
      {
        l := l + 1;
        HeightExact(|leaves|, l);
        more := HasMore(leaves, l);
      }
      RootCount(|leaves|);
      LevelLength(h, leaves, l);
      var top := NodeAt(l, 0);
      if top.None? {
        return ReadsNull;
      }
      RootStored(h, leaves, l);
      Memcpy(root, 0, top.value.0, top.value.1, HASH_LENGTH);
      r := Returns(MT_SUCCESS);
    }
  }

  /** The levels right after the leaf has been overwritten on level 0. */
  lemma {:induction false} StartUpdating(h: Combine<Hash>, was: seq<Hash>, i: nat, d: Hash)
    requires i < |was|
    ensures Forest(h, was)[0] == was && Forest(h, was[i := d])[0] == was[i := d]
    ensures UpdateIfExists<Hash>(was, i, d) == was[i := d]
    ensures Forest(h, was)[0 := was[i := d]] == Mixed(h, was[i := d], was, 0)
  {
  }

  lemma {:induction false} LevelSizes(h: Combine<Hash>, a: seq<Hash>, b: seq<Hash>, k: nat)
    requires |a| == |b|
    ensures |Level(h, a, k)| == |Level(h, b, k)|
  {
  }

  /** Replacing a leaf takes the levels from one row to the next by one write at
      most, of the parent's value. */
  lemma {:induction false} UpdateRow(h: Combine<Hash>, was: seq<Hash>, i: nat, d: Hash, l: nat)
    requires i < |was| && l + 1 < TREE_LEVELS
    ensures Shr(i, l) < Count(|was|, l) && Shr(i, l) / 2 < Count(|was|, l + 1)
    ensures var now, q := was[i := d], Shr(i, l);
            var row, m := Nodes(h, now, l), Mixed(h, now, was, l);
            var up := Parent(h, row, q, row[q]);
            && Nodes(h, now, l + 1)[q / 2] == up
            && Mixed(h, now, was, l + 1) == m[l + 1 := UpdateIfExists(m[l + 1], q / 2, up)]
  {
    hide Mixed, Level, Lift, Parent, UpdateIfExists;
    ShrBelowCount(|was|, i, l);
    ShrBelowCount(|was|, i, l + 1);
    UpdateNodes(h, was, i, d, l + 1);
    UpdateLevel(h, was, i, d, l + 1);
    ParentIsLift(h, Nodes(h, was[i := d], l), Shr(i, l));
  }

  lemma {:induction false} ParentIsLift(h: Combine<Hash>, row: seq<Hash>, q: nat)
    requires q < |row|
    ensures Lift(h, row)[q / 2] == Parent(h, row, q, row[q])
  {
  }

  lemma {:induction false} HeightBound(n: nat)
    requires n < MT_AL_MAX_ELEMS
    ensures Height(n) <= 22
  {
    hide Count;
    CountBound(n, 22);
    HeightExact(n, 22);
  }

  lemma WalkStep(h: Combine<Hash>, leaves: seq<Hash>, i: nat, d: Hash, k: nat)
    ensures Walk(h, leaves, i, d, 0) == Some(d)
    ensures Walk(h, leaves, i, d, k).Some? ==>
              Walk(h, leaves, i, d, k + 1)
              == if LeftStored(|leaves|, k, Shr(i, k))
                 then Some(Joined(h, leaves, k, Shr(i, k), Walk(h, leaves, i, d, k).value)) else None
  {
    hide LeftStored, Joined, Shr;
  }

  lemma {:induction false} AtTheRoot(h: Combine<Hash>, leaves: seq<Hash>, offset: nat, d: Hash, l: nat)
    requires Count(|leaves|, l) == 1 && |Level(h, leaves, l)| > 0 && offset < |leaves|
    ensures Shr(offset, l) == 0
    ensures Level(h, leaves, l)[0] == RangeHash(h, leaves)
    ensures Climb(h, leaves, offset, d, l) == RangeHash(h, leaves[offset := d])
  {
    hide Nodes, Level, Count, RangeHash, Climb, Shr;
    ShrBelowCount(|leaves|, offset, l);
    RootStored(h, leaves, l);
    ClimbToRoot(h, leaves, offset, d, l);
  }

  lemma {:induction false} ForestLevels(h: Combine<Hash>, leaves: seq<Hash>)
    ensures forall k :: 0 <= k < TREE_LEVELS ==> Forest(h, leaves)[k] == Level(h, leaves, k)
  {
  }

  /** Below 2^22 leaves a row of height l has at most 2^(22-l) nodes. */
  lemma {:induction false} CountBound(n: nat, l: nat)
    requires n < MT_AL_MAX_ELEMS && l <= 22
    ensures Count(n, l) <= Pow2(22 - l)
    decreases l
  {
    if l == 0 {
      Pow2Values();
    } else {
      CountBound(n, l - 1);
    }
  }

  /** The shifted offset of findRightNeighbor stays within 32 bits. */
  lemma ShiftFits(o: nat, i: nat)
    requires i > 0 && Fits(o, i)
    ensures o * 2 < UINT32 && Fits(o * 2, i - 1)
  {
    assert o * Pow2(i) == (o * 2) * Pow2(i - 1);
    MulGrows(1, Pow2(i - 1), o * 2);
  }

  /** The next level is there exactly when the row has a pair; row 22 has none. */
  lemma {:induction false} TopOfTree(h: Combine<Hash>, leaves: seq<Hash>, l: nat)
    requires |leaves| < MT_AL_MAX_ELEMS && l <= 22
    ensures l + 1 < TREE_LEVELS - 1 && |Level(h, leaves, l + 1)| > 0 <==> Count(|leaves|, l) >= 2
    ensures Count(|leaves|, l) >= 2 ==> l < 22 && Count(|leaves|, l + 1) > 0
  {
    hide Nodes;
    CountBound(|leaves|, 22);
    assert Count(|leaves|, l + 1) == (Count(|leaves|, l) + 1) / 2;
  }

  lemma {:induction false} RootStored(h: Combine<Hash>, leaves: seq<Hash>, l: nat)
    requires Count(|leaves|, l) == 1 && |Level(h, leaves, l)| > 0
    ensures |leaves| > 0
    ensures Level(h, leaves, l)[0] == RangeHash(h, leaves)
  {
    hide Nodes, Level, Count;
    LevelIsPrefix(h, leaves, l);
    RootIsRangeHash(h, leaves, l);
  }

  /** Adding a leaf takes the levels from one row to the next by at most one write. */
  lemma {:induction false} AddLevels(h: Combine<Hash>, was: seq<Hash>, x: Hash, l: nat)
    requires l + 1 < TREE_LEVELS
    ensures Count(|was| + 1, l) == Shr(|was|, l) + 1
    ensures Shr(|was|, l) / 2 <= |Mixed(h, was + [x], was, l)[l + 1]|
    ensures var q, m := Shr(|was|, l), Mixed(h, was + [x], was, l);
            var row := Nodes(h, was + [x], l);
            Mixed(h, was + [x], was, l + 1)
            == if q % 2 == 0 then m
               else m[l + 1 := SetAt(m[l + 1], q / 2, h(row[q - 1], row[q]))]
    ensures Shr(|was|, l) == 1 ==> |Level(h, was + [x], l + 1)| > 0
  {
    hide Mixed, Level, Nodes, Count, Shr, SetAt;
    AppendLevel(h, was, x, l);
    var q, row := Shr(|was|, l), Nodes(h, was + [x], l);
    if q % 2 == 1 {
      SetLast(Level(h, was, l + 1), q / 2, h(row[q - 1], row[q]));
    }
  }

  function SetAt<T>(s: seq<T>, i: nat, x: T): seq<T>
    requires i <= |s|
  {
    if i < |s| then s[i := x] else s + [x]
  }

  lemma SetLast<T>(s: seq<T>, i: nat, x: T)
    requires i <= |s| <= i + 1
    ensures SetAt(s, i, x) == s[..i] + [x]
  {
  }

  lemma {:induction false} EmptyTree(h: Combine<Hash>, k: nat)
    ensures Level(h, [], k) == [] && Count(0, k) == 0
    decreases k
  {
    if k != 0 { EmptyTree(h, k - 1); }
  }

  /** The levels right after the leaf has been appended to level 0. */
  lemma {:induction false} StartAdding(h: Combine<Hash>, was: seq<Hash>, x: Hash)
    ensures Forest(h, was)[0] == was && Forest(h, was + [x])[0] == was + [x]
    ensures Forest(h, was)[0 := was + [x]] == Mixed(h, was + [x], was, 0)
    ensures was == [] ==> Mixed(h, was + [x], was, 0) == Forest(h, was + [x])
  {
    if was == [] { AllLevelsDone(h, was + [x], was, 0); }
  }

  lemma FirstRow(h: Combine<Hash>, leaves: seq<Hash>)
    ensures Nodes(h, leaves, 0) == leaves && Count(|leaves|, 0) == |leaves|
    ensures Level(h, leaves, 0) == leaves
  {
  }

  lemma {:induction false} ShrShrinks(m: nat, j: nat, k: nat)
    ensures j <= k ==> Shr(m, k) <= Shr(m, j)
    decreases k
  {
    if j < k { ShrShrinks(m, j, k - 1); }
  }

  lemma {:induction false} PathBelowTop(m: nat, l: nat)
    requires m < MT_AL_MAX_ELEMS && Shr(m, l) > 0
    ensures l < 22
  {
    ShrIsDiv(m, 22);
    Pow2Values();
    ShrShrinks(m, 22, l);
  }

  /** Above a row with at most one node nothing is stored. */
  lemma {:induction false} NothingAbove(h: Combine<Hash>, leaves: seq<Hash>, n: nat, l: nat, k: nat)
    requires |leaves| <= n && Count(n, l) <= 1 && l < k
    ensures Level(h, leaves, k) == []
  {
    hide Nodes, Count;
    CountMonotone(n, l, k - 1);
    CountGrows(|leaves|, n, k - 1);
  }

  lemma {:induction false} AllLevelsDone(h: Combine<Hash>, now: seq<Hash>, was: seq<Hash>, l: nat)
    requires |was| <= |now| && Count(|now|, l) == 1
    ensures Mixed(h, now, was, l) == Forest(h, now)
  {
    hide Mixed, Forest, Level, Count;
    forall k | 0 <= k < TREE_LEVELS
      ensures Mixed(h, now, was, l)[k] == Forest(h, now)[k]
    {
      if k > l {
        NothingAbove(h, now, |now|, l, k);
        NothingAbove(h, was, |now|, l, k);
      }
    }
  }

  lemma {:induction false} CountGrows(m: nat, n: nat, k: nat)
    requires m <= n
    ensures Count(m, k) <= Count(n, k)
    decreases k
  {
    if k != 0 { CountGrows(m, n, k - 1); }
  }
}

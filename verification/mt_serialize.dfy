/** Saving and loading a Merkle tree, serialize/mt_serialize.c. Integers are
    stored in the little-endian byte order of the machines the system runs on. */
module MtSerialize {
  import opened Types
  import opened Words
  import opened ArrList
  import opened MtCrypto
  import PowerOfTwo
  import opened MerkleSpec
  import opened MerkleChange
  import opened MerkleTrees

  // ---------------------------------------------------------- file format

  function Flat(l: seq<Hash>): (r: seq<byte>)
    ensures |r| == HASH_LENGTH * |l|
  {
    if l == [] then [] else Flat(l[..|l| - 1]) + l[|l| - 1]
  }

  predicate Storable(ls: seq<seq<Hash>>) {
    forall k :: 0 <= k < |ls| ==> |ls[k]| < MT_AL_MAX_ELEMS
  }

  function EncodeLevel(l: seq<Hash>): (r: seq<byte>)
    requires |l| < MT_AL_MAX_ELEMS
    ensures |r| == 4 + HASH_LENGTH * |l|
  {
    LE32(|l|) + Flat(l)
  }

  function EncodeLevels(ls: seq<seq<Hash>>): seq<byte>
    requires Storable(ls)
  {
    if ls == [] then [] else EncodeLevel(ls[0]) + EncodeLevels(ls[1..])
  }

  /** num_bytes: the size of the file. */
  function FileSize(ls: seq<seq<Hash>>): nat
    requires Storable(ls)
  {
    8 + |EncodeLevels(ls)|
  }

  /** The file: its size, the leaf counter, and the levels. */
  function Encode(elems: nat, ls: seq<seq<Hash>>): seq<byte>
    requires Storable(ls) && elems < UINT32 && FileSize(ls) < UINT32
  {
    LE32(FileSize(ls)) + LE32(elems) + EncodeLevels(ls)
  }

  /** What deserialize_init_mt reads at a position: the count of a level, ... */
  function CountAt(b: seq<byte>, pos: nat): nat
    requires pos + 4 <= |b|
  {
    FromLE32(b[pos..pos + 4])
  }

  /** ... the position behind the level, ... */
  function NextAt(b: seq<byte>, pos: nat): nat
    requires pos + 4 <= |b|
  {
    pos + 4 + CountAt(b, pos) * HASH_LENGTH
  }

  /** ... whether k more levels can be read without leaving the buffer, ... */
  predicate Readable(b: seq<byte>, pos: nat, k: nat)
    decreases k
  {
    k == 0 || (pos + 4 <= |b| && CountAt(b, pos) < MT_AL_MAX_ELEMS && NextAt(b, pos) <= |b|
               && Readable(b, NextAt(b, pos), k - 1))
  }

  /** ... and the levels and the end position. */
  function LevelAt(b: seq<byte>, pos: nat): seq<Hash>
    requires pos + 4 <= |b| && NextAt(b, pos) <= |b|
  {
    Chunks(b[pos + 4..NextAt(b, pos)], CountAt(b, pos))
  }

  function ReadLevels(b: seq<byte>, pos: nat, k: nat): (r: seq<seq<Hash>>)
    requires Readable(b, pos, k)
    ensures |r| == k
    decreases k
  {
    if k == 0 then [] else [LevelAt(b, pos)] + ReadLevels(b, NextAt(b, pos), k - 1)
  }

  function EndOf(b: seq<byte>, pos: nat, k: nat): nat
    requires Readable(b, pos, k)
    decreases k
  {
    if k == 0 then pos else EndOf(b, NextAt(b, pos), k - 1)
  }

  // --------------------------------------------------------------- layout

  /** The number of nodes on the levels below level k. */
  function NodesBelow(ls: seq<seq<Hash>>, k: nat): nat
    requires k <= |ls|
  {
    if k == 0 then 0 else NodesBelow(ls, k - 1) + |ls[k - 1]|
  }

  /** Where level k starts: after two words, a count for each level below, and 32
      bytes for each node there. */
  function LevelStart(ls: seq<seq<Hash>>, k: nat): nat
    requires k <= |ls|
  {
    8 + 4 * k + 32 * NodesBelow(ls, k)
  }

  lemma {:induction false} EncodedBelow(ls: seq<seq<Hash>>, k: nat)
    requires Storable(ls) && k <= |ls|
    ensures |EncodeLevels(ls[..k])| == 4 * k + 32 * NodesBelow(ls, k)
    decreases k
  {
    hide EncodeLevel;
    if k > 0 {
      EncodedBelow(ls, k - 1);
      assert ls[..k] == ls[..k - 1] + [ls[k - 1]];
      EncodeAppend(ls[..k - 1], ls[k - 1]);
    }
  }

  lemma {:induction false} EncodeConcat(a: seq<seq<Hash>>, b: seq<seq<Hash>>)
    requires Storable(a) && Storable(b)
    ensures Storable(a + b) && EncodeLevels(a + b) == EncodeLevels(a) + EncodeLevels(b)
    decreases |a|
  {
    hide EncodeLevel;
    if a == [] {
      assert a + b == b;
    } else {
      assert (a + b)[0] == a[0] && (a + b)[1..] == a[1..] + b;
      EncodeConcat(a[1..], b);
    }
  }

  lemma {:induction false} FlatAt(l: seq<Hash>, i: nat)
    requires i < |l|
    ensures Flat(l)[32 * i..32 * i + 32] == l[i]
    decreases |l|
  {
    var n := |l| - 1;
    var front := Flat(l[..n]);
    assert Flat(l) == front + l[n];
    if i < n {
      FlatAt(l[..n], i);
      assert Flat(l)[32 * i..32 * i + 32] == front[32 * i..32 * i + 32];
    } else {
      assert Flat(l)[32 * n..32 * n + 32] == l[n];
    }
  }

  /** The file byte by byte: its size, the leaf counter, and for each level k its
      count and then its hashes, each at a place that can be computed. */
  lemma {:induction false} FileLayout(elems: nat, ls: seq<seq<Hash>>, k: nat)
    requires Storable(ls) && elems < UINT32 && FileSize(ls) < UINT32 && k < |ls|
    ensures var (b, at, n) := (Encode(elems, ls), LevelStart(ls, k), |ls[k]|);
            && at + 4 + 32 * n <= |b|
            && b[..4] == LE32(|b|) && b[4..8] == LE32(elems)
            && b[at..at + 4] == LE32(n)
            && forall i :: 0 <= i < n ==> b[at + 4 + 32 * i..at + 4 + 32 * i + 32] == ls[k][i]
  {
    hide EncodeLevels, EncodeLevel, LE32, Storable;
    var head, tail := LevelInFile(elems, ls, k);
    LevelLayout(head, ls[k], tail);
    var b := Encode(elems, ls);
    assert b[..8] == LE32(|b|) + LE32(elems);
  }

  /** The file around level k. */
  lemma {:induction false} LevelInFile(elems: nat, ls: seq<seq<Hash>>, k: nat) returns (head: seq<byte>, tail: seq<byte>)
    requires Storable(ls) && elems < UINT32 && FileSize(ls) < UINT32 && k < |ls|
    ensures |ls[k]| < MT_AL_MAX_ELEMS
    ensures Encode(elems, ls) == head + EncodeLevel(ls[k]) + tail && |head| == LevelStart(ls, k)
    ensures |Encode(elems, ls)| == FileSize(ls)
  {
    hide EncodeLevels, EncodeLevel, LE32;
    EncodedBelow(ls, k);
    var before, rest := ls[..k], ls[k + 1..];
    assert ls == before + ([ls[k]] + rest);
    EncodeOne(ls[k]);
    EncodeConcat([ls[k]], rest);
    EncodeConcat(before, [ls[k]] + rest);
    var header := LE32(FileSize(ls)) + LE32(elems);
    head, tail := header + EncodeLevels(before), EncodeLevels(rest);
    Regroup(header, EncodeLevels(before), EncodeLevel(ls[k]), tail);
  }

  lemma Regroup(a: seq<byte>, b: seq<byte>, c: seq<byte>, d: seq<byte>)
    ensures a + (b + (c + d)) == a + b + c + d
  {
  }

  lemma {:induction false} LevelLayout(head: seq<byte>, l: seq<Hash>, tail: seq<byte>)
    requires |l| < MT_AL_MAX_ELEMS
    ensures var (b, at) := (head + EncodeLevel(l) + tail, |head|);
            && at + 4 + 32 * |l| <= |b| && b[at..at + 4] == LE32(|l|)
            && forall i :: 0 <= i < |l| ==> b[at + 4 + 32 * i..at + 4 + 32 * i + 32] == l[i]
  {
    hide Flat, LE32;
    var b, at, mid := head + EncodeLevel(l) + tail, |head|, EncodeLevel(l);
    Slice(head, mid, tail, 0, 4);
    assert mid[0..4] == LE32(|l|);
    forall i | 0 <= i < |l| ensures b[at + 4 + 32 * i..at + 4 + 32 * i + 32] == l[i] {
      FlatAt(l, i);
      Slice(head, mid, tail, 4 + 32 * i, 4 + 32 * i + 32);
      assert mid[4 + 32 * i..4 + 32 * i + 32] == Flat(l)[32 * i..32 * i + 32];
    }
  }

  lemma Slice(head: seq<byte>, mid: seq<byte>, tail: seq<byte>, lo: nat, hi: nat)
    requires lo <= hi <= |mid|
    ensures (head + mid + tail)[|head| + lo..|head| + hi] == mid[lo..hi]
  {
  }

  lemma EncodeOne(l: seq<Hash>)
    requires |l| < MT_AL_MAX_ELEMS
    ensures Storable([l]) && EncodeLevels([l]) == EncodeLevel(l)
  {
    assert [l][1..] == [];
  }

  // ----------------------------------------------------------- round trip

  lemma {:induction false} ChunksOfFlat(l: seq<Hash>)
    ensures Chunks(Flat(l), |l|) == l
  {
    if l != [] {
      var n := |l| - 1;
      var front, b := l[..n], Flat(l);
      ChunksOfFlat(front);
      ChunksTake(b, Flat(front), |l|, n);
      assert b[n * 32..n * 32 + 32] == l[n];
    }
  }

  lemma {:induction false} FlatOfChunks(b: seq<byte>, n: nat)
    requires n * 32 <= |b|
    ensures Flat(Chunks(b, n)) == b[..n * 32]
    decreases n
  {
    if n != 0 {
      FlatOfChunks(b, n - 1);
      assert Chunks(b, n)[..n - 1] == Chunks(b, n - 1);
      assert b[..n * 32] == b[..(n - 1) * 32] + b[(n - 1) * 32..(n - 1) * 32 + 32];
    }
  }

  lemma {:induction false} EncodeAppend(ls: seq<seq<Hash>>, l: seq<Hash>)
    requires Storable(ls) && |l| < MT_AL_MAX_ELEMS
    ensures Storable(ls + [l])
    ensures EncodeLevels(ls + [l]) == EncodeLevels(ls) + EncodeLevel(l)
    decreases |ls|
  {
    hide EncodeLevel;
    if ls == [] {
      assert ls + [l] == [l];
      assert [l][1..] == [];
    } else {
      assert (ls + [l])[0] == ls[0] && (ls + [l])[1..] == ls[1..] + [l];
      EncodeAppend(ls[1..], l);
    }
  }

  lemma {:induction false} ReadOneLevel(pre: seq<byte>, l: seq<Hash>, post: seq<byte>)
    requires |l| < MT_AL_MAX_ELEMS
    ensures var b := pre + EncodeLevel(l) + post;
            && CountAt(b, |pre|) == |l|
            && NextAt(b, |pre|) == |pre| + |EncodeLevel(l)| <= |b|
            && LevelAt(b, |pre|) == l
  {
    var b := pre + EncodeLevel(l) + post;
    LE32RoundTrip(|l|);
    assert b[|pre|..|pre| + 4] == LE32(|l|);
    assert b[|pre| + 4..|pre| + |EncodeLevel(l)|] == Flat(l);
    ChunksOfFlat(l);
  }

  /** Reading back what was written, wherever it stands in the buffer. */
  lemma {:induction false} ReadBack(pre: seq<byte>, ls: seq<seq<Hash>>)
    requires Storable(ls)
    ensures var b := pre + EncodeLevels(ls);
            && Readable(b, |pre|, |ls|)
            && ReadLevels(b, |pre|, |ls|) == ls
            && EndOf(b, |pre|, |ls|) == |b|
    decreases |ls|
  {
    hide EncodeLevel;
    var b := pre + EncodeLevels(ls);
    if ls == [] {
      assert b == pre;
    } else {
      var one, rest := EncodeLevel(ls[0]), EncodeLevels(ls[1..]);
      ReadOneLevel(pre, ls[0], rest);
      assert b == pre + one + rest;
      ReadBack(pre + one, ls[1..]);
    }
  }

  /** The size of a file with n leaves: 64n + 72 bytes, or 104 if n is 0. */
  lemma {:induction false} FileSizeOfTree(h: Combine<Hash>, leaves: seq<Hash>)
    requires |leaves| < MT_AL_MAX_ELEMS
    ensures Storable(Forest(h, leaves))
    ensures FileSize(Forest(h, leaves)) == SavedSize(|leaves|)
  {
    hide Level, Count, Forest;
    var f := Forest(h, leaves);
    forall k | 0 <= k < TREE_LEVELS ensures |f[k]| <= |leaves| {
      LevelIsPrefix(h, leaves, k);
      CountMonotone(|leaves|, 0, k);
      FirstRow(h, leaves);
    }
    EncodedLength(h, leaves, TREE_LEVELS);
    assert f[..TREE_LEVELS] == f;
    InnerNodesTotal(h, leaves, TREE_LEVELS - 1);
    CountBound(|leaves|, 22);
    CountMonotone(|leaves|, 22, 23);
    CountPositive(|leaves|, 23);
  }

  lemma {:induction false} EncodedLength(h: Combine<Hash>, leaves: seq<Hash>, k: nat)
    requires 0 < k <= TREE_LEVELS
    requires Storable(Forest(h, leaves))
    ensures |EncodeLevels(Forest(h, leaves)[..k])|
         == 4 * k + HASH_LENGTH * (|leaves| + InnerNodes(h, leaves, k - 1))
    decreases k
  {
    hide EncodeLevels, EncodeLevel, Level, Forest;
    var f := Forest(h, leaves);
    assert f[..k] == f[..k - 1] + [f[k - 1]];
    EncodeAppend(f[..k - 1], f[k - 1]);
    FirstRow(h, leaves);
    if k == 1 {
      EncodeNothing(f[..0]);
    } else {
      EncodedLength(h, leaves, k - 1);
    }
  }

  lemma EncodeNothing(ls: seq<seq<Hash>>)
    requires ls == []
    ensures EncodeLevels(ls) == []
  {
  }

  // ------------------------------------------------------- save and load

  /** serialize_mt */
  method Save(t: MerkleTree) returns (dest: array<byte>, numBytes: nat)
    requires t.Consistent() && t.elems < UINT32
    ensures fresh(dest) && numBytes == dest.Length < 0x8000_0000
    ensures Storable(t.Levels()) && FileSize(t.Levels()) == numBytes
    ensures dest[..] == Encode(t.elems, t.Levels())
  {
    hide MerkleTree.Separate, MerkleTree.Levels, Forest, EncodeLevels, LE32;
    ghost var ls := t.Levels();
    t.SizeBelowMax();
    FileSizeOfTree(t.h, t.Leaves());
    numBytes := Measure(t);
    dest := new byte[numBytes];
    PutHeader(dest, numBytes, t.elems);
    PutLevels(t, dest);
  }

  method PutHeader(dest: array<byte>, numBytes: nat, elems: nat)
    requires 8 <= dest.Length && numBytes < UINT32 && elems < UINT32
    modifies dest
    ensures dest[..8] == LE32(numBytes) + LE32(elems)
  {
    hide LE32;
    PutWord(dest, 0, numBytes);
    PutWord(dest, 4, elems);
  }

  /** The first loop of serialize_mt. */
  method Measure(t: MerkleTree) returns (numBytes: nat)
    requires t.Separate() && Storable(t.Levels())
    ensures numBytes == FileSize(t.Levels())
  {
    hide MerkleTree.Separate, MerkleTree.Levels, EncodeLevels, EncodeLevel;
    ghost var ls := t.Levels();
    EncodeNothing(ls[..0]);
    numBytes := 4;
    for i := 0 to TREE_LEVELS
      invariant numBytes == 4 + |EncodeLevels(ls[..i])|
    {
      assert ls[..i + 1] == ls[..i] + [ls[i]];
      EncodeAppend(ls[..i], ls[i]);
      var n := t.SizeAt(i);
      numBytes := numBytes + 4;
      numBytes := numBytes + n * HASH_LENGTH;
    }
    numBytes := numBytes + 4;
    assert ls[..TREE_LEVELS] == ls;
  }

  /** The second loop of serialize_mt. */
  method PutLevels(t: MerkleTree, dest: array<byte>)
    requires t.Separate() && Storable(t.Levels()) && dest !in t.Repr
    requires dest.Length == FileSize(t.Levels())
    modifies dest
    ensures t.Separate() && t.Levels() == old(t.Levels())
    ensures dest[..] == old(dest[..8]) + EncodeLevels(t.Levels())
  {
    hide MerkleTree.Separate, MerkleTree.Levels, EncodeLevels, EncodeLevel;
    ghost var ls, header := t.Levels(), dest[..8];
    EncodeNothing(ls[..0]);
    var pos: nat := 8;
    for i := 0 to TREE_LEVELS
      invariant t.Separate() && t.Levels() == ls
      invariant pos == 8 + |EncodeLevels(ls[..i])| <= dest.Length
      invariant dest[..pos] == header + EncodeLevels(ls[..i])
    {
      assert ls[..i + 1] == ls[..i] + [ls[i]];
      EncodeAppend(ls[..i], ls[i]);
      EncodedPrefix(ls, i + 1);
      pos := PutLevel(t, i, dest, pos);
    }
    assert ls[..TREE_LEVELS] == ls;
    assert dest[..] == dest[..pos];
  }

  lemma {:induction false} EncodedPrefix(ls: seq<seq<Hash>>, i: nat)
    requires Storable(ls) && i <= |ls|
    ensures |EncodeLevels(ls[..i])| <= |EncodeLevels(ls)|
    decreases |ls| - i
  {
    hide EncodeLevels, EncodeLevel;
    if i < |ls| {
      assert ls[..i + 1] == ls[..i] + [ls[i]];
      EncodeAppend(ls[..i], ls[i]);
      EncodedPrefix(ls, i + 1);
    } else {
      assert ls[..i] == ls;
    }
  }

  /** memcpy of a 32-bit word */
  method PutWord(dest: array<byte>, pos: nat, x: nat)
    requires pos + 4 <= dest.Length && x < UINT32
    modifies dest
    ensures dest[..pos + 4] == old(dest[..pos]) + LE32(x)
  {
    dest[pos] := (x % 256) as byte;
    dest[pos + 1] := (x / 256 % 256) as byte;
    dest[pos + 2] := (x / 0x1_0000 % 256) as byte;
    dest[pos + 3] := (x / 0x100_0000) as byte;
  }

  /** One iteration of the second loop of serialize_mt. */
  method PutLevel(t: MerkleTree, k: nat, dest: array<byte>, pos: nat) returns (next: nat)
    requires t.Separate() && k < TREE_LEVELS && dest !in t.Repr
    requires |t.Levels()[k]| < MT_AL_MAX_ELEMS
    requires pos + |EncodeLevel(t.Levels()[k])| <= dest.Length
    modifies dest
    ensures t.Separate() && t.Levels() == old(t.Levels())
    ensures next == pos + |EncodeLevel(t.Levels()[k])|
    ensures dest[..next] == old(dest[..pos]) + EncodeLevel(t.Levels()[k])
  {
    hide LE32, Flat, Chunks;
    var list := t.level[k];
    assert list.Contents() == t.Levels()[k];
    next := PutList(list, dest, pos);
    assert t.Levels() == old(t.Levels());
  }

  method PutList(list: ArrayList, dest: array<byte>, pos: nat) returns (next: nat)
    requires list.Valid() && list.elems < MT_AL_MAX_ELEMS && dest != list.store
    requires pos + |EncodeLevel(list.Contents())| <= dest.Length
    modifies dest
    ensures next == pos + |EncodeLevel(list.Contents())|
    ensures dest[..next] == old(dest[..pos]) + EncodeLevel(list.Contents())
  {
    hide LE32, Flat, ArrayList.Valid, ArrayList.Contents;
    FlatContents(list);
    PutWord(dest, pos, list.elems);
    next := pos + 4 + list.elems * HASH_LENGTH;
    if list.elems > 0 {
      ghost var words := dest[..pos + 4];
      Memcpy(dest, pos + 4, list.store, 0, list.elems * HASH_LENGTH);
      assert dest[..next] == words + list.store[..list.elems * HASH_LENGTH];
    }
  }

  lemma FlatContents(list: ArrayList)
    requires list.Valid()
    ensures |list.Contents()| == list.elems
    ensures list.elems == 0 ==> Flat(list.Contents()) == []
    ensures list.elems > 0 ==>
              && list.store != null && list.elems * HASH_LENGTH <= list.store.Length
              && Flat(list.Contents()) == list.store[..list.elems * HASH_LENGTH]
  {
    hide Flat, Chunks, PowerOfTwo.Capacity;
    EmptyFlat();
    if list.elems > 0 { FlatOfChunks(list.store[..], list.elems); }
  }

  lemma EmptyFlat()
    ensures Flat([]) == []
  {
  }

  /** deserialize_init_mt on the contents of a file. Besides the tree it sets
      num_blocks. Both num_blocks and the tree's leaf counter are read from the
      first word, which is the size of the file. None stands for a file that the
      code reads beyond its end, or one with a list that the list functions do
      not admit. */
  method Load(buf: array<byte>) returns (r: Option<(MerkleTree, nat)>)
    ensures r.Some? <==> 8 <= buf.Length && Readable(buf[..], 8, TREE_LEVELS)
    ensures r.Some? ==>
              var (t, numBlocks) := r.value;
              && fresh(t) && fresh(t.Repr) && t.Separate() && t.h == PairHash
              && t.Levels() == ReadLevels(buf[..], 8, TREE_LEVELS)
              && t.elems == numBlocks == FromLE32(buf[..4])
  {
    hide Readable, ReadLevels, FromLE32, MerkleTree.Separate, MerkleTree.Levels, PairHash, ListsApart;
    if buf.Length < 8 {
      return None;
    }
    var numBlocks := FromLE32(buf[..4]);
    var lists := LoadLists(buf);
    if lists.None? {
      return None;
    }
    ghost var ls := ReadLevels(buf[..], 8, TREE_LEVELS);
    var t := new MerkleTree.FromLists(numBlocks, lists.value);
    assert t.Levels() == ls;
    r := Some((t, numBlocks));
  }

  /** The loop of deserialize_init_mt. */
  method LoadLists(buf: array<byte>) returns (r: Option<seq<ArrayList>>)
    requires 8 <= buf.Length
    ensures r.Some? <==> Readable(buf[..], 8, TREE_LEVELS)
    ensures r.Some? ==> |r.value| == TREE_LEVELS && ListsApart(r.value)
    ensures r.Some? ==>
              forall k :: 0 <= k < TREE_LEVELS ==> fresh(r.value[k]) && fresh(r.value[k].store)
    ensures r.Some? ==>
              forall k :: 0 <= k < TREE_LEVELS ==>
                r.value[k].Contents() == ReadLevels(buf[..], 8, TREE_LEVELS)[k]
  {
    hide Readable, ReadLevels, Chunks, FromLE32, ArrayList.Valid, ArrayList.Contents;
    ghost var b := buf[..];
    var pos: nat := 8;
    var lists := [];
    ghost var done: seq<seq<Hash>> := [];
    for i := 0 to TREE_LEVELS
      invariant |lists| == i == |done|
      invariant Readable(b, 8, TREE_LEVELS) <==> Readable(b, pos, TREE_LEVELS - i)
      invariant Readable(b, pos, TREE_LEVELS - i) ==>
        ReadLevels(b, 8, TREE_LEVELS) == done + ReadLevels(b, pos, TREE_LEVELS - i)
      invariant ListsApart(lists)
      invariant forall k :: 0 <= k < i ==> lists[k].Contents() == done[k]
      invariant forall k :: 0 <= k < i ==> fresh(lists[k]) && fresh(lists[k].store)
    {
      ReadStep(b, pos, TREE_LEVELS - i);
      if pos + 4 > buf.Length {
        return None;
      }
      var n := FromLE32(buf[pos..pos + 4]);
      if n >= MT_AL_MAX_ELEMS || pos + 4 + n * HASH_LENGTH > buf.Length {
        return None;
      }
      var list := new ArrayList.FromBytes(n, buf, pos + 4);
      assert list.Contents() == LevelAt(b, pos);
      lists := lists + [list];
      done := done + [LevelAt(b, pos)];
      pos := pos + 4 + n * HASH_LENGTH;
    }
    ReadNothing(b, pos);
    r := Some(lists);
  }

  /** Saving a tree and loading the file: all levels come back, the whole file is
      read, and the leaf counter is the file size, which exceeds every offset. */
  method SaveAndLoad(t: MerkleTree) returns (file: array<byte>, u: MerkleTree, numBlocks: nat)
    requires t.Consistent() && t.elems < UINT32 && t.h == PairHash
    ensures u.Consistent() && fresh(u.Repr)
    ensures u.Levels() == t.Levels() && u.Leaves() == t.Leaves() && u.h == t.h
    ensures u.elems == numBlocks == file.Length == SavedSize(|t.Leaves()|)
    ensures Readable(file[..], 8, TREE_LEVELS)
         && EndOf(file[..], 8, TREE_LEVELS) == file.Length
  {
    hide MerkleTree.Separate, MerkleTree.Levels, Forest, EncodeLevels, LE32, FromLE32, Readable, ReadLevels, EndOf, PairHash;
    t.SizeBelowMax();
    FileSizeOfTree(t.h, t.Leaves());
    var numBytes: nat;
    file, numBytes := Save(t);
    ghost var header := LE32(numBytes) + LE32(t.elems);
    ReadBack(header, t.Levels());
    LE32RoundTrip(numBytes);
    assert file[..4] == LE32(numBytes);
    var loaded := Load(file);
    u, numBlocks := loaded.value.0, loaded.value.1;
  }

  lemma {:induction false} ReadStep(b: seq<byte>, pos: nat, k: nat)
    requires k > 0
    ensures Readable(b, pos, k) <==>
            && pos + 4 <= |b| && CountAt(b, pos) < MT_AL_MAX_ELEMS && NextAt(b, pos) <= |b|
            && Readable(b, NextAt(b, pos), k - 1)
    ensures Readable(b, pos, k) ==>
              ReadLevels(b, pos, k) == [LevelAt(b, pos)] + ReadLevels(b, NextAt(b, pos), k - 1)
  {
  }

  lemma ReadNothing(b: seq<byte>, pos: nat)
    ensures Readable(b, pos, 0) && ReadLevels(b, pos, 0) == []
  {
  }
}

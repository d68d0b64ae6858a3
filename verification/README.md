# Verified models of the integrity tree, the record pipeline and the policy compiler

The system runs a database query in two parts. A storage server reads pages whose
integrity is protected by a Merkle tree, filters rows, packs them into frames and
sends them to a host, which puts them into an in-memory table. A policy compiler
turns access policies into dictionaries. This project models five parts of it in
Dafny 4.11 and proves what they promise.

| part | modules |
|---|---|
| Merkle tree | `MerkleSpec`, `MerkleChange`, `MerkleWalk` (mathematics of the tree), `MerkleTrees` (the class), `ArrList` and `PowerOfTwo` (its storage), `Bits` |
| hash | `Sha256Spec` (sections 4.1, 5.1, 6.1 and 6.2 of RFC 4634), `Sha256Laws`, `Sha256Vector`, `Sha256Padding`, `Sha256Impl` (the class), `MtCrypto` |
| saved tree | `MtSerialize`, `Words` |
| split query | `Rings`, `Packets`, `Pipeline` (the state machine), `PipelineInvariant`, `PipelineSafety`, `PipelineHost`, `PipelineLiveness`, `PipelineStream`, `RecordFormat`, `PipelineResults` |
| policy compiler | `PolicyCompiler` |

`dafny verify dfyconfig.toml` checks everything.

## Main results

- **Tree.** Every sequence of `mt_add` and `mt_update` calls on a created tree keeps
  `Consistent`: all 24 levels are exactly the nodes that the leaves determine. Each
  stored node is the hash of its leaf range, split at the largest power of two below
  its length (`StoredNodeIsRangeHash`), and `mt_get_root` returns that hash of all
  leaves. `mt_verify` accepts a tag if and only if putting it in place of the leaf
  leaves the root unchanged; a wrong tag that is accepted yields two different pairs
  with one hash, given by an explicit function (`AcceptedTag`). The asserts at the end
  of `mt_add` and `mt_update` never fire.
- **Offsets without a leaf.** A loaded tree has the file size as its leaf counter, so the
  guard of `mt_verify` lets offsets past the leaves through. With n leaves, the code then
  gives memcmp a NULL node if and only if the offset is a multiple of the tree's capacity,
  the least power of two not below n (`VerifyPastLeaves`, with one leaf and offset 1 as an
  example in `OneLeafLoaded`). Otherwise it returns MT_ERR_ILLEGAL_PARAM exactly when a
  left sibling on the path is not stored, and else compares the tag, hashed with the left
  siblings, with the root. A tag accepted there gives a node that is its own hash with
  some digest, or two different pairs with one hash (`AcceptedPastLeaves`). `mt_get_root` gives memcpy a NULL node exactly on an empty
  tree. `mt_add` on a loaded tree always reports an error, after it has appended the leaf
  to level 0 and left the other levels as they were.
- **Hash.** However a message is cut into `SHA256Input` calls, `SHA256Result` gives the
  digest of the standard, whose padding is defined bit by bit, for whole bytes and for
  one to seven trailing bits. The counter overflow is detected exactly. The word
  functions of the standard are characterised bit by bit (`Sha256Laws`), and the digest
  of "abc" is evaluated through all rounds to the value that the standard prints
  (`AbcDigest`), so that every constant takes part.
- **Saved tree.** A saved tree of n > 0 leaves has 64n + 72 bytes. Loading it consumes
  the file exactly and restores every level. The leaf-count field is not restored: the
  loader reads it from the start of the file, where the byte total is. The result says
  so (`elems == file.Length`), and since that total exceeds n, the guards of
  `mt_verify` and `mt_update` still pass for every leaf.
- **Split query.** The five threads are a state machine in which each slot access, each
  counter increment and each test is one step. A run is any sequence of steps, with any
  way of cutting the byte stream into send and receive calls, over a connection that
  holds any positive number of unread bytes. In every reachable state the host's table is
  a prefix of the query's rows, and all rows when the host sees the end packet
  (`RowsArriveInOrder`). The bytes sent are the first bytes of one stream that is fixed by
  the rows and the initial memory, and all of it at the end (`StreamIsFixed`); its frames
  are laid out byte by byte (`StreamLayout`). The packets are those of the greedy split whatever the schedule
  (`PacketsAreGreedy`), and no order-preserving split has fewer (`GreedyOptimal`). Every
  run has a bounded number of steps (`RunsAreBounded`), none gets stuck before all
  threads have finished (`StuckMeansFinished`), and every run can be continued to one
  that delivers all rows (`QueryCompletes`).
- **A condition on record sizes.** The first record of a packet is copied without a test
  of its size. The copies of all interleavings stay in their buffers if and only if each
  record fits one packet, 1048568 bytes (`SafeExactlyIfRecordsFit`).
- **Policies.** For every text that compiles, the dictionary has the truth value of the
  text's groups under every valuation if and only if they are separable by name: each
  `&`-group contains all that is kept of some name, and all that is kept of a name
  contains some group (`CompileExact`). Policies written as the compiler's documentation
  asks are separable and their groups are recovered in order (`CompileDocumented`).
  `k(a)&k(b)` is not: it becomes k(a) or k(b) (`ConjunctionLost`).

## How the models relate to the code

- Array lists, the tree and the hash context are classes that update their fields and
  buffers in place. A C pointer into a buffer is an array and a position; the tree's
  digest buffer is the output and an input of the pair hash at once, as in the code.
- The saved file and the connection are byte sequences. Words are little-endian.
- `Pipeline` models the threads with a program counter each. A spin loop is a step that
  is blocked until the loop can exit. Three of the loops read a tail and a flag in turn;
  their step is taken on either, since one of the reads alone ends the loop. A send call
  is blocked while the connection has no room. The query and `make_ssd_record` are
  modelled by their queue operations: each row is pushed once and in order, the flag is
  set after the last push, and each call of `make_ssd_record` takes one row and puts one
  record.
  The pools have any power-of-two size up to 2^63, so the same statements hold for the
  pool sizes of both host programs. Memory is sequentially consistent. The number of
  rows is below 2^31, the range of the counters of type int. Send and receive calls
  transfer at least one byte.
- `RecordFormat` models functions that live in the two modified SQLite files: serialize
  in storage/secure/sec_sqlite3.c (lines 127101 to 127140), deserialize and
  batch_deserialize_add in host/secure/host_sqlite3.c (lines 122313 to 122372). The
  queue operations of the query and of make_ssd_record are at lines 126575 to 126588 and
  126870 to 126872 of the former.
- The proofs about the tree use its pair hash through a ghost name `h` that equals
  `PairHash` on all pairs (`IsPairHash`), so that they do not unfold SHA-256.
- The code asserts that lists have fewer than 2^22 elements. The contracts require it,
  so a tree has at most 2^22 - 1 leaves.

## Model

| member | source | states |
|---|---|---|
| `MerkleSpec.RootIsRangeHash` | merkle-tree/src/mt_impl.c:267-278 | the single node of the top row is the hash of all leaves, split at the largest power of two below their number |
| `MerkleSpec.SmallTrees` | merkle-tree/src/mt_impl.c:131-138 | the hashes of one to five leaves written out: left before right, the last of an odd number alone on the right |
| `MerkleSpec.NodeIsRangeHash` | merkle-tree/src/mt_impl.c:128-140 | every node of every row, stored or carried up, is the range hash of exactly the leaves below it |
| `MerkleSpec.SplitPointIsPow2` | merkle-tree/src/mt_impl.c:128-140 | the split point of the reference definition is a power of two |
| `MerkleSpec.LevelSize` | merkle-tree/src/mt_impl.c:131-140 | level k stores an i-th node exactly when the right half of its range has a leaf |
| `MerkleChange.StoredNodeIsRangeHash` | merkle-tree/src/mt_impl.c:115-145 | every stored node of every level is the range hash of the leaves below it |
| `MerkleChange.CarriedNode` | merkle-tree/src/mt_impl.c:176-191 | a node that its level does not store is the node at twice the index one level down, and there is none exactly when the subtree has no leaf |
| `MerkleChange.UpdateLevel` | merkle-tree/src/mt_impl.c:240-259 | replacing one leaf changes each level in at most the one node above that leaf, and to the value climbed along the path |
| `MerkleChange.ClimbToRoot` | merkle-tree/src/mt_impl.c:194-227 | climbing from any digest at a leaf gives the root of the tree with that digest as the leaf |
| `MerkleChange.AppendLevel` | merkle-tree/src/mt_impl.c:129-140 | appending a leaf changes each level only in the node on the path of the new leaf, and only where the path comes from the right |
| `MerkleChange.AppendsOneNode` | merkle-tree/src/mt_impl.c:129-140 | appending leaf m > 0 adds exactly one inner node, at level 1 + the trailing zeros of m |
| `MerkleChange.InnerNodesTotal` | merkle-tree/src/mt_impl.c:115-145 | the inner nodes up to level k number the leaves minus the subtrees of height k, so n - 1 in all |
| `MerkleChange.RootBinds` | merkle-tree/src/mt_impl.c:194-227 | two different leaf sequences of one length with one root give two different pairs with one hash, by an explicit function |
| `MerkleTrees.AcceptedTag` | merkle-tree/src/mt_impl.c:194-227 | the padded stored leaf is accepted, and any other accepted tag gives a collision of the pair hash |
| `MerkleTrees.InitHash` | merkle-tree/src/mt_impl.c:107-112 | byte i of the buffer is byte i of the tag below its length and zero above |
| `MerkleTrees.PadTagBytes` | merkle-tree/src/mt_impl.c:110-111 | byte i of a padded tag, as all contracts about tags use it |
| `MerkleTrees.MerkleTree.constructor` | merkle-tree/src/mt_impl.c:44-63 | a new tree is consistent and has no leaves |
| `MerkleTrees.MerkleTree.Add` | merkle-tree/src/mt_impl.c:115-145 | a tag that is too long is refused and changes nothing; otherwise the leaves grow by the padded tag and all levels are those of the new leaves; on a loaded tree level 0 alone grows and an error is returned |
| `MerkleTrees.MerkleTree.AddPath` | merkle-tree/src/mt_impl.c:126-141 | the loop turns the levels of the old leaves with the new leaf at level 0 into the levels of the new leaves, and the assert after it holds; from a file size it stops with an error before any write |
| `MerkleTrees.SavedPath` | merkle-tree/src/mt_impl.c:126-140 | the path that starts at a file size turns left three times and then right, past everything that level 3 stores |
| `MerkleTrees.MerkleTree.GetSize` | merkle-tree/src/mt_impl.c:148-154 | the number of leaves, also on a loaded tree |
| `MerkleTrees.MerkleTree.HasNextLevelExceptRoot` | merkle-tree/src/mt_impl.c:166-173 | true exactly when the next level is below the last and not empty; both operands are evaluated in bounds |
| `MerkleTrees.MerkleTree.FindRightNeighbor` | merkle-tree/src/mt_impl.c:176-191 | nothing exactly when the subtree at the offset has no leaf, otherwise its hash wherever it is stored, with no 32-bit overflow of the shifted offset |
| `MerkleTrees.MerkleTree.Verify` | merkle-tree/src/mt_impl.c:194-227 | for every tree and offset: parameter errors; at a leaf, success if and only if the leaves with the padded tag at the offset have the same root; past the leaves, a NULL node is compared if and only if the capacity divides the offset, and an error is returned if and only if a left sibling is not stored |
| `MerkleTrees.VerifyLeaf` | merkle-tree/src/mt_impl.c:194-227 | at the offset of a leaf the outcome is decided by the root of the changed leaves |
| `MerkleTrees.VerifyPastLeaves` | merkle-tree/src/mt_impl.c:194-227 | the three outcomes past the leaves, each with its exact condition |
| `MerkleTrees.AcceptedPastLeaves` | merkle-tree/src/mt_impl.c:194-227 | a tag accepted at an offset past the leaves gives a node that is its own hash with some digest, or two different pairs with one hash |
| `MerkleTrees.OneLeafLoaded` | merkle-tree/src/mt_impl.c:221 | one leaf, counter 136, offset 1: a NULL node is compared |
| `MerkleWalk.PastTheRoot` | merkle-tree/src/mt_impl.c:202-221 | a walk from past the leaves meets only stored siblings and ends beside the root exactly at the multiples of the capacity |
| `MerkleWalk.WalkEnds` | merkle-tree/src/mt_impl.c:204-216 | the walk goes on exactly as long as every left sibling it needs is stored |
| `MerkleWalk.WalkIsClimb` | merkle-tree/src/mt_impl.c:204-220 | from a leaf the walk never stops and gives the node values of the changed leaf |
| `MerkleWalk.OnlyLefts` | merkle-tree/src/mt_impl.c:205-212 | past the leaves there is no right sibling, so only left siblings are hashed |
| `MerkleWalk.EntersRow` | merkle-tree/src/mt_impl.c:204-220 | a path from past the leaves enters the rows beside the lone last node of a row of odd length |
| `MerkleWalk.WalkInRow` | merkle-tree/src/mt_impl.c:204-220 | from there the walk is the climb of that node's value hashed with the digest |
| `MerkleWalk.WalkMeetsRoot` | merkle-tree/src/mt_impl.c:202-226 | the walk ends with the root if and only if some odd row keeps its root when its last node v becomes the hash of v and the digest |
| `MerkleWalk.RightFits` | merkle-tree/src/mt_impl.c:186-187 | for every 32-bit offset the shifted index of a right sibling has 32 bits |
| `MerkleWalk.HeightExact` | merkle-tree/src/mt_impl.c:166-173 | the loops run exactly up to the level whose capacity is the tree's |
| `MerkleTrees.MerkleTree.WalkPath` | merkle-tree/src/mt_impl.c:202-220 | the loop does what the walk says for every 32-bit offset: it ends at the root's level with the walk's digest, or returns an error where the walk stops |
| `MerkleTrees.MerkleTree.Update` | merkle-tree/src/mt_impl.c:230-264 | refused with nothing changed for a bad length or offset; otherwise all levels are those of the leaves with the one replaced |
| `MerkleTrees.MerkleTree.UpdatePath` | merkle-tree/src/mt_impl.c:241-260 | the loop makes every level the level of the changed leaves, and the assert after it holds |
| `MerkleTrees.MerkleTree.GetRoot` | merkle-tree/src/mt_impl.c:267-278 | the buffer holds the range hash of all leaves and the tree is unchanged; without leaves memcpy is given NULL |
| `PowerOfTwo.RoundUpIsCapacity` | merkle-tree/src/mt_arr_list.c:43-54 | for 1 to 2^31 the bit trick gives the least power of two not below its argument |
| `PowerOfTwo.CapacityIsLeast` | merkle-tree/src/mt_arr_list.c:43-54 | the capacity is the least power of two not below n |
| `PowerOfTwo.CapacityNext` | merkle-tree/src/mt_arr_list.c:87-102 | the capacity of n + 1 is twice that of n when n is a power of two, and the same otherwise |
| `PowerOfTwo.IsPowerOfTwoIsFull` | merkle-tree/src/mt_arr_list.c:57-60 | the bit test holds exactly when a list of that size fills its capacity |
| `PowerOfTwo.NextPowerTwoOfZero` | serialize/mt_serialize.c:3-13 | the loader's function gives 0 for 0, where the list's own function gives 1 |
| `ArrList.ArrayList.constructor` | merkle-tree/src/mt_arr_list.c:63-66 | an empty list |
| `ArrList.ArrayList.FromBytes` | serialize/mt_serialize.c:91-98 | a loaded list holds the hashes of its part of the file and meets the list's invariant |
| `ArrList.ArrayList.Add` | merkle-tree/src/mt_arr_list.c:76-108 | below the maximum it always succeeds: the contents grow by the hash in a store of least power-of-two capacity, and the overflow test never fires |
| `ArrList.ArrayList.Update` | merkle-tree/src/mt_arr_list.c:111-121 | one element replaced, or an error and nothing changed |
| `ArrList.ArrayList.UpdateIfExists` | merkle-tree/src/mt_arr_list.c:124-136 | one element replaced, or success and nothing changed |
| `ArrList.ArrayList.AddOrUpdate` | merkle-tree/src/mt_arr_list.c:139-152 | replaced below the size, appended at the size, refused above it |
| `ArrList.ArrayList.Truncate` | merkle-tree/src/mt_arr_list.c:155-176 | the contents are the first n hashes in a store of least capacity, or an error and nothing changed |
| `ArrList.ArrayList.Get` | merkle-tree/src/mt_arr_list.c:179-187 | the position of the element's bytes in the store, nothing beyond the size |
| `Sha256Padding.PadByteBits` | merkle-tree/src/sha224-256.c:272-309 | the masked and marked byte has the given leading bits, then a one, then zeros |
| `Sha256Padding.PadIsBytes` | merkle-tree/src/sha224-256.c:389-422 | for every message and 0 to 7 trailing bits, the bytes the code appends are the bit-level padding of the standard |
| `Sha256Padding.LengthWords` | merkle-tree/src/sha224-256.c:411-419 | the eight bytes stored from the two counter words are the 64-bit length, most significant first |
| `Sha256Laws.ChSelects` | merkle-tree/src/sha.h:14 | the result is y where x has ones and z where it has zeros |
| `Sha256Laws.ChModified` | merkle-tree/src/sha.h:22 | the other form of the macro gives the same |
| `Sha256Laws.MajVotes` | merkle-tree/src/sha.h:15-23 | two equal arguments decide, and both forms of the macro agree |
| `Sha256Laws.RotBit` | merkle-tree/src/sha224-256.c:45-46 | bit i of a rotated word is bit i + n of the word, counted around it |
| `Sha256Laws.LargeSigmaBits` | merkle-tree/src/sha224-256.c:49-52 | which three bits of the argument each bit of the large sigma functions adds |
| `Sha256Laws.SmallSigmaBits` | merkle-tree/src/sha224-256.c:53-56 | the same for the small ones, with zeros shifted in |
| `Sha256Laws.BigEndianBytes` | merkle-tree/src/sha224-256.c:469-473 | the first of four bytes is the most significant of the word |
| `Sha256Laws.DigestOrder` | merkle-tree/src/sha224-256.c:587-589 | where each byte of each word goes in the digest |
| `Sha256Vector.AbcDigest` | merkle-tree/src/sha224-256.c:443-511 | the digest of "abc" is the one that the standard gives |
| `Sha256Impl.Sha256Context.Reset` | merkle-tree/src/sha224-256.c:529-551 | a valid context with an empty message |
| `Sha256Impl.Sha256Context.AddLength` | merkle-tree/src/sha224-256.c:61-64 | the two words count modulo 2^64, and Corrupted is set exactly on overflow |
| `Sha256Impl.Sha256Context.Input` | merkle-tree/src/sha224-256.c:220-251 | the message grows by the bytes; Corrupted exactly when its length reaches 2^64 bits; the state errors after a result or an error |
| `Sha256Impl.Sha256Context.InputByte` | merkle-tree/src/sha224-256.c:237-247 | one byte keeps the context the compression of the whole blocks and the rest in the buffer |
| `Sha256Impl.Sha256Context.FinalBits` | merkle-tree/src/sha224-256.c:272-309 | the message is complete with 1 to 7 further bits; errors otherwise |
| `Sha256Impl.Sha256Context.Result` | merkle-tree/src/sha224-256.c:573-592 | the digest of the complete message by the standard, the same on a second call; an error leaves the output alone |
| `Sha256Impl.Sha256Context.PadMessage` | merkle-tree/src/sha224-256.c:389-422 | for every buffer index the one or two blocks compressed complete the padded message |
| `Sha256Impl.Sha256Context.ProcessMessageBlock` | merkle-tree/src/sha224-256.c:443-511 | one step of the standard's compression of the block in the buffer |
| `MtCrypto.MtHash` | merkle-tree/src/mt_crypto.c:36-55 | succeeds and writes SHA-256 of the left input followed by the right one as they were, even into one of them |
| `MtSerialize.Save` | serialize/mt_serialize.c:15-50 | the file is the byte total, the leaf count and the encoded levels, and its size is returned |
| `MtSerialize.FileLayout` | serialize/mt_serialize.c:34-48 | the place of the size, of the leaf counter, and of the count and each hash of each level in the file |
| `MtSerialize.FileSizeOfTree` | serialize/mt_serialize.c:20-30 | a tree of n > 0 leaves takes 64n + 72 bytes, an empty one 104 |
| `MtSerialize.ReadBack` | serialize/mt_serialize.c:85-99 | reading encoded levels gives them back and ends where the encoding ends |
| `MtSerialize.Load` | serialize/mt_serialize.c:52-100 | for every file: the levels read from it and its first word as the leaf count, or nothing exactly when a level runs past the end or is too long for a list |
| `MtSerialize.SaveAndLoad` | serialize/mt_serialize.c:15-100 | the loaded tree is consistent and has the same levels and leaves; its count field is the file size; all bytes are consumed |
| `Words.LE32RoundTrip` | storage/secure/sec_ssd_server.c:54-56 | a stored 32-bit word reads back |
| `Words.LE32Bytes` | storage/secure/sec_ssd_server.c:54-56 | byte j of a stored word is its digit j to the base 256, the lowest first |
| `Words.FromLE32RoundTrip` | host/secure/host_server.c:103-107 | any four bytes read as a word are its stored form |
| `Rings.EmptyExact` | host/secure/host_server.c:137 | the counters are equal exactly when nothing is unread, also after they wrap |
| `Rings.FullExact` | host/secure/host_server.c:111 | the full test holds exactly when the pool is full of unread elements, also after wrap-around |
| `Rings.WriteKeeps` | host/secure/host_server.c:112 | writing the slot at the tail overwrites no unread element |
| `Rings.PushIsAppend` | host/secure/host_server.c:113 | the increment publishes the element after all earlier ones |
| `Rings.ReadIsFirst` | host/secure/host_server.c:138 | the slot at the head holds the oldest unread element |
| `Rings.PopAdvances` | host/secure/host_server.c:139 | the increment removes that element and no other |
| `Rings.NotBothBlocked` | host/secure/host_server.c:111-139 | writer and reader are never both waiting |
| `Packets.GreedyIsSplit` | storage/secure/sec_ssd_server.c:98-153 | the greedy packets hold the records once each and in order, and none exceeds the payload |
| `Packets.GreedyIsTight` | storage/secure/sec_ssd_server.c:136-152 | no packet is empty and none has room for the first record of the next |
| `Packets.GreedyIsLeast` | storage/secure/sec_ssd_server.c:98-153 | every order-preserving split into packets has at least as many |
| `Packets.TwoRecords` | storage/secure/sec_ssd_server.c:111-139 | two records share a packet exactly if they have at most 1048568 bytes together |
| `Packets.GreedyOptimal` | storage/secure/sec_ssd_server.c:98-156 | the three facts for a whole stream, and the record counts of the packets sum to the number of records |
| `PipelineSafety.FrameRoundTrip` | storage/secure/sec_ssd_server.c:46-59 | the host's reader inverts serialize_before_send |
| `PipelineSafety.FrameLayout` | storage/secure/sec_ssd_server.c:46-59 | a frame is the kind, the number of records and the data, in this order |
| `PipelineSafety.QueryKeeps` | storage/secure/sec_ssd_server.c:61-83 | a step of the query keeps the invariant of the whole system and stays in its pool |
| `PipelineSafety.MakerKeeps` | storage/secure/sec_ssd_server.c:183-203 | a step of the record maker keeps the invariant; it leaves only when all rows have become records |
| `PipelineSafety.PackerKeeps` | storage/secure/sec_ssd_server.c:85-181 | a step of the packer keeps the invariant and stays in its buffers if the next record to be copied unchecked fits |
| `PipelineSafety.PackerFaults` | storage/secure/sec_ssd_server.c:113-115 | a first record that does not fit makes the copy leave the buffer |
| `PipelineHost.ReceiverKeeps` | host/secure/host_server.c:76-121 | a step of the host receiver keeps the invariant and stays in its buffers |
| `PipelineHost.SinkKeeps` | host/secure/host_server.c:123-169 | a step of the host consumer keeps the invariant |
| `PipelineHost.EndIsLast` | host/secure/host_server.c:115-118 | exactly the frame after the last packet is read as the end packet |
| `PipelineHost.StepKeeps` | storage/secure/sec_ssd_server.c:61-203 | every step of every thread keeps the invariant, and only a record that does not fit lets one leave its buffers |
| `PipelineHost.RunSafe` | storage/secure/sec_ssd_server.c:61-203 | every state of every interleaving satisfies the invariant |
| `PipelineLiveness.RunsAreBounded` | storage/secure/sec_ssd_server.c:85-203 | no interleaving has more steps than a bound that depends on the rows only |
| `PipelineLiveness.SenderIsHeard` | storage/secure/sec_ssd_server.c:158-165 | the packer is not stuck in a send call while the host threads wait, for any positive room in the connection |
| `PipelineLiveness.NoDeadlock` | storage/secure/sec_ssd_server.c:85-203 | as long as a thread has not finished, some thread can move, also when send calls wait for room |
| `PipelineLiveness.StuckMeansFinished` | host/secure/host_server.c:76-169 | a run that cannot be continued has finished all five threads |
| `PipelineLiveness.Continue` | host/secure/host_server.c:76-169 | every run can be continued until all threads finish or a copy leaves its buffer |
| `PipelineLiveness.SafeExactlyIfRecordsFit` | storage/secure/sec_ssd_server.c:113-119 | all copies of all interleavings stay in their buffers if and only if every record has at most 1048568 bytes |
| `PipelineStream.RunExact` | storage/secure/sec_ssd_server.c:98-179 | in every reachable state the packet buffer, its count and the frames are those given by the closed packets, with what each packet leaves of the ones before |
| `PipelineStream.StreamIsFixed` | storage/secure/sec_ssd_server.c:155-180 | at any moment of any run the bytes sent are a prefix of one stream that no schedule and no cut of the calls changes, and all of it when the packer has finished |
| `PipelineStream.StreamLayout` | storage/secure/sec_ssd_server.c:46-59 | each frame of it has 1048576 bytes: kind 0, the count and the record bytes for each packet of the greedy split, and kind 2 with the rest of the last packet at the end |
| `RecordFormat.BatchDeserialize` | host/secure/host_server.c:161-164 | the loop reads as many records as the packet announces, or stops where it would leave the data |
| `RecordFormat.RecordLayout` | include/serialize.h:6 | a record is the two lengths and n + 1 bytes |
| `RecordFormat.DeserializeRow` | include/serialize.h:6-7 | the host's reader inverts the storage engine's serialize and steps over exactly its bytes |
| `RecordFormat.UnpackPacked` | host/secure/host_server.c:161-164 | rows packed one after the other come out again, whatever bytes follow |
| `RecordFormat.DeliveredGroups` | host/secure/host_server.c:161-164 | packets that carry the groups of a split deliver the rows of the split in order |
| `PipelineResults.PacketsAreGreedy` | storage/secure/sec_ssd_server.c:98-181 | at any moment of any run the host has the first packets of the greedy split; all of them at the end, with packets_sent one more than their number and check_rows_proc the number of records |
| `PipelineResults.RowsArriveInOrder` | host/secure/host_server.c:123-169 | at any moment of any run the table holds a prefix of the rows, and all of them once the end packet is seen |
| `PipelineResults.QueryCompletes` | host/secure/host_server.c:76-169 | if every record fits, every run can be continued to one that finishes with all rows delivered |
| `PolicyCompiler.Find` | policy-compiler/policy_compiler.py:7-11 | the first position of the character, or -1 exactly when it does not occur |
| `PolicyCompiler.ObtainFirst` | policy-compiler/policy_compiler.py:6-18 | the name ends at the first `(`, the argument at the first `)`, and the rest is dropped |
| `PolicyCompiler.ObtainEmpty` | policy-compiler/policy_compiler.py:15-16 | a `)` before the first `(` gives the empty argument |
| `PolicyCompiler.ObtainNone` | policy-compiler/policy_compiler.py:7-13 | None exactly if one of the two characters is absent |
| `PolicyCompiler.RStripExact` | policy-compiler/policy_compiler.py:28-30 | all white space at the end is dropped and nothing else |
| `PolicyCompiler.Spaces` | policy-compiler/policy_compiler.py:28 | the characters that count as white space |
| `PolicyCompiler.SplitExact` | policy-compiler/policy_compiler.py:30 | the pieces have no separator and joined by it they are the text |
| `PolicyCompiler.PiecesOfGroups` | policy-compiler/policy_compiler.py:28-36 | for every text, the compiler parses the predicates of its groups in order, or fails exactly when a piece is not a predicate |
| `PolicyCompiler.GroupsRendered` | policy-compiler/policy_compiler.py:22-36 | a policy written out is read back with its groups |
| `PolicyCompiler.OneDictionary` | policy-compiler/policy_compiler.py:38-50 | there is one dictionary with exactly the used names, their arguments in order, and only the first argument of the two special names |
| `PolicyCompiler.CompilePolicy` | policy-compiler/policy_compiler.py:21-52 | None for a malformed text, an error for a missing special name, otherwise that dictionary |
| `PolicyCompiler.MeaningExact` | policy-compiler/policy_compiler.py:22-27 | the dictionary agrees with the policy under all valuations if and only if the policy is separable by name |
| `PolicyCompiler.CompileExact` | policy-compiler/policy_compiler.py:21-52 | for every text: which outcome, with the names sessionKeyIs and query, and exactly when the dictionary keeps the meaning of the text's groups |
| `PolicyCompiler.CompiledEntries` | policy-compiler/policy_compiler.py:38-50 | for every text that compiles: the names of the dictionary, the place of each argument in its list, and the first argument for sessionKeyIs and query |
| `PolicyCompiler.CompileDocumented` | policy-compiler/policy_compiler.py:21-52 | policies as documented keep their meaning and their groups are recovered in order |
| `PolicyCompiler.RepeatedNameChangesMeaning` | policy-compiler/policy_compiler.py:22-30 | a single-argument group whose name has another argument elsewhere loses its meaning |
| `PolicyCompiler.ConjunctionLost` | policy-compiler/policy_compiler.py:22-30 | a concrete policy that compiles to a different meaning |

## Left out

- Allocation failure and NULL arguments: all allocations succeed and pointers are valid.
- mt_truncate: declared but not defined; mt_exists, mt_delete, printing and SHA-224 would only add easy members.
- MerkleTrees.MerkleTree.Add: requires fewer than 2^22 - 1 leaves before the call, because the list functions assert fewer than 2^22 elements, and a counter that is the leaf count or the size of the saved file; after an add on a loaded tree the levels no longer agree and nothing more is claimed.
- MtSerialize.Load: a list of 2^22 or more hashes counts as unreadable, because all list functions assert fewer.
- Sockets, TLS, files, SQLite calls, thread creation and timing; failing send and receive calls.
- The rows of the query and how make_ssd_record encodes a row: a row is the pair of lengths and the bytes that serialize copies, and both engines' queue operations are modelled as described above.
- The effects of weakly ordered memory: the flags are plain variables in C, and the model assumes sequential consistency.
- PipelineLiveness.RunsAreBounded: a spin loop counts as waiting, not as running; no statement is made about the time spent in it.
- The non-secure servers, which run the same protocol over plain sockets.
- policy_checker.py and the use cases that read the dictionary.

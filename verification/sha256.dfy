/** The streaming implementation, merkle-tree/src/sha224-256.c. */
module Sha256Impl {
  import opened Types
  import opened Bits
  import opened Sha256Spec
  import opened Sha256Padding

  const shaSuccess: nat := 0
  const shaStateError: nat := 3

  /** The number of bits at which the two-word counter overflows. */
  const TWO64: nat := 0x1_0000_0000_0000_0000

  lemma {:induction false} AbsorbBlock(done: seq<byte>, block: seq<byte>)
    requires |done| % 64 == 0 && |block| == 64
    ensures Absorb(done + block) == Compress(Absorb(done), block)
  {
    var all := done + block;
    assert all[..|all| - 64] == done && all[|all| - 64..] == block;
  }

  lemma AbsorbNothing()
    ensures Absorb([]) == H0()
  {
    hide Compress, H0;
  }

  lemma ScheduleStep(block: seq<byte>, t: nat)
    requires |block| == 64
    ensures t < 16 ==>
              Schedule(block, t) == BigEndian(block[4 * t], block[4 * t + 1], block[4 * t + 2], block[4 * t + 3])
    ensures t >= 16 ==>
              Schedule(block, t) == Mix(Schedule(block, t - 2), Schedule(block, t - 7),
                                        Schedule(block, t - 15), Schedule(block, t - 16))
  {
    hide Mix, BigEndian;
  }

  /** Adding to a counter of two words. */
  lemma CarryCases(hi: nat, lo: nat, n: nat)
    requires hi < UINT32 && lo < UINT32 && n <= 8
    ensures lo + n < UINT32 ==> (lo + n) % UINT32 == lo + n && hi * UINT32 + lo + n < TWO64
    ensures lo + n >= UINT32 ==> (lo + n) % UINT32 == lo + n - UINT32 < lo
    ensures lo + n >= UINT32 && hi + 1 < UINT32 ==> hi * UINT32 + lo + n < TWO64
    ensures lo + n >= UINT32 && hi + 1 == UINT32 ==>
              TWO64 <= hi * UINT32 + lo + n < 2 * TWO64 && (hi + 1) % UINT32 == 0
  {
  }

  lemma BitsFit(n: nat, m: nat, count: nat)
    requires count == 8 * n < TWO64 && m < 8
    ensures count + m < TWO64 && (count + m) % TWO64 == 8 * n + m
  {
  }

  lemma NextByte(start: seq<byte>, bytes: seq<byte>, i: nat)
    requires i < |bytes|
    ensures start + bytes[..i] + [bytes[i]] == start + bytes[..i + 1]
  {
  }

  class Sha256Context {
    var intermediateHash: seq<bv32>
    var lengthLow: nat
    var lengthHigh: nat
    var messageBlockIndex: nat
    const messageBlock: array<byte>
    var computed: bool
    var corrupted: nat

    /** The bytes given to Input since Reset, while the counter has not overflowed. */
    ghost var input: seq<byte>
    /** The whole blocks compressed so far. */
    ghost var absorbed: seq<byte>
    /** The message, bit by bit, once it is complete. */
    ghost var bits: seq<bool>

    ghost predicate Shape()
      reads this
    {
      && |intermediateHash| == 8 && messageBlock.Length == 64
      && |absorbed| % 64 == 0
    }

    ghost predicate Valid()
      reads this, messageBlock
    {
      && Shape()
      && intermediateHash == Absorb(absorbed)
      && (corrupted == 0 && !computed ==>
            && messageBlockIndex < 64
            && input == absorbed + messageBlock[..messageBlockIndex]
            && lengthHigh < UINT32 && lengthLow < UINT32
            && lengthHigh * UINT32 + lengthLow == 8 * |input| < TWO64)
      && (corrupted == 0 && computed ==> absorbed == PaddedBytes(bits))
    }

    constructor ()
      ensures |intermediateHash| == 8 && messageBlock.Length == 64
      ensures fresh(messageBlock)
    {
      intermediateHash := seq(8, _ => 0);
      messageBlock := new byte[64];
      lengthLow, lengthHigh, messageBlockIndex := 0, 0, 0;
      computed, corrupted := false, 0;
      input, absorbed, bits := [], [], [];
    }

    /** SHA256Reset */
    method Reset() returns (r: nat)
      requires |intermediateHash| == 8 && messageBlock.Length == 64
      modifies this
      ensures Valid() && r == shaSuccess
      ensures input == [] && !computed && corrupted == 0
    {
      hide H0, Absorb, PaddedBytes;
      AbsorbNothing();
      lengthLow, lengthHigh, messageBlockIndex := 0, 0, 0;
      intermediateHash := H0();
      computed, corrupted := false, 0;
      input, absorbed := [], [];
      r := shaSuccess;
    }

    /** The AddLength macro: a 64-bit counter in two words. */
    method AddLength(n: nat)
      requires n <= 8 && lengthHigh < UINT32 && lengthLow < UINT32
      modifies this`lengthLow, this`lengthHigh, this`corrupted
      ensures lengthHigh < UINT32 && lengthLow < UINT32
      ensures lengthHigh * UINT32 + lengthLow
           == (old(lengthHigh) * UINT32 + old(lengthLow) + n) % TWO64
      ensures corrupted
           == if old(lengthHigh) * UINT32 + old(lengthLow) + n >= TWO64 then 1 else 0
    {
      CarryCases(lengthHigh, lengthLow, n);
      var addTemp := lengthLow;
      lengthLow := (lengthLow + n) % UINT32;
      corrupted := 0;
      if lengthLow < addTemp {
        lengthHigh := (lengthHigh + 1) % UINT32;
        if lengthHigh == 0 {
          corrupted := 1;
        }
      }
    }

    /** SHA256Input on `length` bytes of `data` starting at `from`. */
    method Input(data: array<byte>, from: nat, length: nat) returns (r: nat)
      requires Valid() && from + length <= data.Length && data != messageBlock
      modifies this, messageBlock
      ensures Valid()
      ensures length == 0 ==>
                r == shaSuccess && input == old(input) && corrupted == old(corrupted)
      ensures length > 0 && old(computed) ==> r == corrupted == 3
      ensures length > 0 && !old(computed) && old(corrupted) != 0 ==>
                r == corrupted == old(corrupted)
      ensures length > 0 && !old(computed) && old(corrupted) == 0 ==>
                && r == shaSuccess
                && corrupted == (if 8 * (|old(input)| + length) >= TWO64 then 1 else 0)
                && (corrupted == 0 ==> input == old(input) + data[from..from + length])
      ensures computed == old(computed) && bits == old(bits)
    {
      hide Valid;
      if length == 0 {
        return shaSuccess;
      }
      if computed {
        Refuse();
        return shaStateError;
      }
      if corrupted != 0 {
        return corrupted;
      }
      ghost var bytes := data[from..from + length];
      InputBytes(data, from, length);
      assert bytes[..length] == bytes;
      r := shaSuccess;
    }

    /** The loop of SHA256Input. */
    method InputBytes(data: array<byte>, from: nat, length: nat)
      requires Valid() && from + length <= data.Length && data != messageBlock
      requires !computed && corrupted == 0
      modifies this, messageBlock
      ensures Valid() && !computed && bits == old(bits)
      ensures corrupted == if 8 * (|old(input)| + length) >= TWO64 then 1 else 0
      ensures corrupted == 0 ==> input == old(input) + data[from..from + length]
    {
      hide Valid;
      CounterFits();
      var i := 0;
      ghost var bytes, start := data[from..from + length], input;
      while i < length && corrupted == 0
        invariant i <= length
        invariant Valid() && !computed && bits == old(bits)
        invariant corrupted == if 8 * (|start| + i) >= TWO64 then 1 else 0
        invariant corrupted == 0 ==> input == start + bytes[..i]
        invariant data[from..from + length] == bytes
      {
        NextByte(start, bytes, i);
        var b := data[from + i];
        assert b == bytes[i];
        InputByte(b);
        assert data[from..from + length] == bytes;
        i := i + 1;
      }
    }

    lemma CounterFits()
      requires Valid() && !computed && corrupted == 0
      ensures 8 * |input| < TWO64
    {
      hide Absorb;
    }

    /** One iteration of the loop in SHA256Input. */
    method InputByte(b: byte)
      requires Valid() && !computed && corrupted == 0
      modifies this, messageBlock
      ensures Valid() && !computed && bits == old(bits)
      ensures corrupted == if 8 * (|old(input)| + 1) >= TWO64 then 1 else 0
      ensures corrupted == 0 ==> input == old(input) + [b]
    {
      hide Absorb, PaddedBytes;
      messageBlock[messageBlockIndex] := b;
      messageBlockIndex := messageBlockIndex + 1;
      input := input + [b];
      assert input == absorbed + messageBlock[..messageBlockIndex];
      AddLength(8);
      if corrupted == 0 && messageBlockIndex == 64 {
        ProcessMessageBlock();
      }
    }

    /** SHA256FinalBits */
    method FinalBits(messageBits: byte, length: nat) returns (r: nat)
      requires Valid()
      modifies this, messageBlock
      ensures Valid()
      ensures length == 0 ==> r == shaSuccess && corrupted == old(corrupted) && computed == old(computed)
      ensures length > 0 && (old(computed) || length >= 8) ==> r == corrupted == 3
      ensures 0 < length < 8 && !old(computed) && old(corrupted) != 0 ==> r == corrupted == old(corrupted)
      ensures 0 < length < 8 && !old(computed) && old(corrupted) == 0 ==>
                && r == shaSuccess && computed && corrupted == 0
                && bits == BytesBits(old(input)) + ByteBits(messageBits)[..length]
    {
      hide Valid, ByteBits, BytesBits;
      if length == 0 {
        return shaSuccess;
      }
      if computed || length >= 8 {
        Refuse();
        return shaStateError;
      }
      if corrupted != 0 {
        return corrupted;
      }
      FinishBits(messageBits, length);
      r := shaSuccess;
    }

    /** The state error that a late call leaves behind. */
    method Refuse()
      requires Valid()
      modifies this`corrupted
      ensures Valid() && corrupted == 3
    {
      hide Absorb, PaddedBytes;
      corrupted := shaStateError;
    }

    /** The end of SHA256FinalBits: the counter cannot overflow here. */
    method FinishBits(messageBits: byte, length: nat)
      requires Valid() && !computed && corrupted == 0 && 0 < length < 8
      modifies this, messageBlock
      ensures Valid() && computed && corrupted == 0
      ensures bits == BytesBits(old(input)) + ByteBits(messageBits)[..length]
    {
      hide Absorb, PadByte, PadBytes, PaddedBytes, BytesBits, ByteBits;
      BitsFit(|input|, length, lengthHigh * UINT32 + lengthLow);
      AddLength(length);
      PadIsBytes(input, messageBits, length);
      Finalize(PadByte(messageBits, length), 8 * |input| + length);
      bits := BytesBits(input) + ByteBits(messageBits)[..length];
    }

    /** SHA256Result */
    method Result(digest: array<byte>) returns (r: nat)
      requires Valid() && digest.Length == HASH_LENGTH && digest != messageBlock
      modifies this, messageBlock, digest
      ensures Valid()
      ensures old(corrupted) != 0 ==>
                r == corrupted == old(corrupted) && digest[..] == old(digest[..])
      ensures old(corrupted) == 0 ==>
                && r == shaSuccess && computed && corrupted == 0
                && bits == (if old(computed) then old(bits) else BytesBits(old(input)))
                && digest[..] == Digest(HashBits(bits))
    {
      hide Absorb, PadBytes, PaddedBytes, BytesBits, LowByte;
      if corrupted != 0 {
        return corrupted;
      }
      if !computed {
        PadIsBytes(input, 0, 0);
        assert BytesBits(input) + ByteBits(0)[..0] == BytesBits(input);
        assert PadByte(0, 0) == 0x80;
        Finalize(0x80, 8 * |input|);
        bits := BytesBits(input);
      }
      for i := 0 to HASH_LENGTH
        modifies digest
        invariant forall j :: 0 <= j < i ==> digest[j] == DigestByte(intermediateHash, j)
      {
        digest[i] := LowByte(intermediateHash[i / 4], 8 * (3 - i % 4));
      }
      assert digest[..] == Digest(intermediateHash);
      r := shaSuccess;
    }

    /** SHA224_256Finalize; `len` is the value of the counter. */
    method Finalize(padByte: byte, ghost len: nat)
      requires Shape() && intermediateHash == Absorb(absorbed)
      requires messageBlockIndex < 64 && input == absorbed + messageBlock[..messageBlockIndex]
      requires lengthHigh < UINT32 && lengthLow < UINT32
      requires len == lengthHigh * UINT32 + lengthLow
      modifies this, messageBlock
      ensures Shape() && intermediateHash == Absorb(absorbed)
      ensures absorbed == PadBytes(old(input), padByte, len)
      ensures computed && corrupted == old(corrupted) && input == old(input)
      ensures lengthLow == 0 && lengthHigh == 0
      ensures forall i :: 0 <= i < 64 ==> messageBlock[i] == 0
    {
      hide Absorb, PadBytes;
      PadMessage(padByte, len);
      for i := 0 to 64
        modifies messageBlock
        invariant forall j :: 0 <= j < i ==> messageBlock[j] == 0
      {
        messageBlock[i] := 0;
      }
      lengthLow, lengthHigh, computed := 0, 0, true;
    }

    /** SHA224_256PadMessage */
    method PadMessage(padByte: byte, ghost len: nat)
      requires Shape() && intermediateHash == Absorb(absorbed)
      requires messageBlockIndex < 64 && input == absorbed + messageBlock[..messageBlockIndex]
      requires lengthHigh < UINT32 && lengthLow < UINT32
      requires len == lengthHigh * UINT32 + lengthLow
      modifies this, messageBlock
      ensures Shape() && intermediateHash == Absorb(absorbed)
      ensures absorbed == PadBytes(old(input), padByte, len)
      ensures corrupted == old(corrupted) && input == old(input)
    {
      hide Absorb, ZeroByteCount, ZeroBytes, LengthBytes;
      ghost var idx := messageBlockIndex;
      ZeroByteCountFrom(|input|, idx);
      ghost var zeros := PadFirstBlock(padByte);
      ghost var sofar, k := absorbed + messageBlock[..messageBlockIndex], messageBlockIndex;
      ZeroBytesAdd(zeros, 56 - k);
      ZeroFill(56);
      assert absorbed + messageBlock[..56] == sofar + ZeroBytes(56 - k);
      StoreLengthAndProcess(input + [padByte] + ZeroBytes(ZeroByteCount(|input|)), len);
    }

    /** The start of SHA224_256PadMessage: the pad byte, and when fewer than eight
        bytes would be left for the length, zeros to the end of the block. */
    method PadFirstBlock(padByte: byte) returns (ghost zeros: nat)
      requires Shape() && intermediateHash == Absorb(absorbed)
      requires messageBlockIndex < 64 && input == absorbed + messageBlock[..messageBlockIndex]
      modifies this`messageBlockIndex, this`absorbed, this`intermediateHash, messageBlock
      ensures Shape() && intermediateHash == Absorb(absorbed)
      ensures messageBlockIndex <= 56
      ensures zeros + (56 - messageBlockIndex)
           == if old(messageBlockIndex) >= 56 then 63 - old(messageBlockIndex) + 56 else 55 - old(messageBlockIndex)
      ensures absorbed + messageBlock[..messageBlockIndex] == input + [padByte] + ZeroBytes(zeros)
    {
      hide Absorb;
      zeros := 0;
      ghost var before, idx := absorbed, messageBlockIndex;
      messageBlock[messageBlockIndex] := padByte;
      messageBlockIndex := messageBlockIndex + 1;
      assert before + messageBlock[..idx + 1] == input + [padByte];
      if messageBlockIndex > 56 {
        zeros := 63 - idx;
        ZeroFill(64);
        assert messageBlock[..] == messageBlock[..64];
        ProcessMessageBlock();
        assert absorbed + messageBlock[..0] == input + [padByte] + ZeroBytes(zeros);
      }
    }

    /** The end of SHA224_256PadMessage: the length in the last eight bytes. */
    method StoreLengthAndProcess(ghost before: seq<byte>, ghost len: nat)
      requires Shape() && intermediateHash == Absorb(absorbed)
      requires absorbed + messageBlock[..56] == before
      requires lengthHigh < UINT32 && lengthLow < UINT32
      requires len == lengthHigh * UINT32 + lengthLow
      modifies this`messageBlockIndex, this`absorbed, this`intermediateHash, messageBlock
      ensures Shape() && intermediateHash == Absorb(absorbed)
      ensures absorbed == before + LengthBytes(len)
    {
      hide Absorb;
      StoreLength(len);
      assert messageBlock[..] == messageBlock[..56] + messageBlock[56..];
      ProcessMessageBlock();
    }

    /** `while (Message_Block_Index < end) Message_Block[Message_Block_Index++] = 0` */
    method ZeroFill(end: nat)
      requires messageBlock.Length == 64 && messageBlockIndex <= end <= 64
      modifies this`messageBlockIndex, messageBlock
      ensures messageBlockIndex == end
      ensures messageBlock[..end]
           == old(messageBlock[..messageBlockIndex]) + ZeroBytes(end - old(messageBlockIndex))
    {
      ghost var idx := messageBlockIndex;
      while messageBlockIndex < end
        invariant idx <= messageBlockIndex <= end
        invariant messageBlock[..idx] == old(messageBlock[..idx])
        invariant forall j :: idx <= j < messageBlockIndex ==> messageBlock[j] == 0
      {
        messageBlock[messageBlockIndex] := 0;
        messageBlockIndex := messageBlockIndex + 1;
      }
    }

    method StoreLength(ghost len: nat)
      requires messageBlock.Length == 64
      requires lengthHigh < UINT32 && lengthLow < UINT32
      requires len == lengthHigh * UINT32 + lengthLow
      modifies messageBlock
      ensures messageBlock[..56] == old(messageBlock[..56])
      ensures messageBlock[56..] == LengthBytes(len)
    {
      messageBlock[56] := (Shr(lengthHigh, 24) % 256) as byte;
      messageBlock[57] := (Shr(lengthHigh, 16) % 256) as byte;
      messageBlock[58] := (Shr(lengthHigh, 8) % 256) as byte;
      messageBlock[59] := (Shr(lengthHigh, 0) % 256) as byte;
      messageBlock[60] := (Shr(lengthLow, 24) % 256) as byte;
      messageBlock[61] := (Shr(lengthLow, 16) % 256) as byte;
      messageBlock[62] := (Shr(lengthLow, 8) % 256) as byte;
      messageBlock[63] := (Shr(lengthLow, 0) % 256) as byte;
      LengthWords(lengthHigh, lengthLow);
    }

    /** SHA224_256ProcessMessageBlock */
    method ProcessMessageBlock()
      requires Shape() && intermediateHash == Absorb(absorbed)
      modifies this`messageBlockIndex, this`absorbed, this`intermediateHash
      ensures Shape() && intermediateHash == Absorb(absorbed)
      ensures absorbed == old(absorbed) + messageBlock[..]
      ensures messageBlockIndex == 0
    {
      hide Absorb, Rounds, Plus;
      ghost var block, h := messageBlock[..], intermediateHash;
      var w := BuildSchedule();
      var v := RunRounds(w, block);
      AddBack(v);
      messageBlockIndex := 0;
      AbsorbBlock(absorbed, block);
      assert intermediateHash == Compress(h, block);
      absorbed := absorbed + block;
    }

    method BuildSchedule() returns (w: array<bv32>)
      requires messageBlock.Length == 64
      ensures fresh(w) && w.Length == 64
      ensures forall t :: 0 <= t < 64 ==> w[t] == Schedule(messageBlock[..], t)
    {
      hide Mix, BigEndian, Schedule;
      w := new bv32[64];
      for t := 0 to 16
        invariant forall u :: 0 <= u < t ==> w[u] == Schedule(messageBlock[..], u)
      {
        ScheduleStep(messageBlock[..], t);
        w[t] := BigEndian(messageBlock[4 * t], messageBlock[4 * t + 1],
                          messageBlock[4 * t + 2], messageBlock[4 * t + 3]);
      }
      for t := 16 to 64
        invariant forall u :: 0 <= u < t ==> w[u] == Schedule(messageBlock[..], u)
      {
        ScheduleStep(messageBlock[..], t);
        w[t] := Mix(w[t - 2], w[t - 7], w[t - 15], w[t - 16]);
      }
    }

    method RunRounds(w: array<bv32>, ghost block: seq<byte>) returns (v: Vars)
      requires |intermediateHash| == 8 && w.Length == 64 && |block| == 64
      requires forall t :: 0 <= t < 64 ==> w[t] == Schedule(block, t)
      ensures v == Rounds(Load(intermediateHash), block, ROUNDS)
    {
      hide Temp1, Temp2, Plus, Schedule, K;
      var a, b, c, d := intermediateHash[0], intermediateHash[1], intermediateHash[2], intermediateHash[3];
      var e, f, g, h := intermediateHash[4], intermediateHash[5], intermediateHash[6], intermediateHash[7];
      ghost var start := Load(intermediateHash);
      for t := 0 to 64
        invariant Vars(a, b, c, d, e, f, g, h) == Rounds(start, block, t)
      {
        var temp1 := Temp1(e, f, g, h, K(t), w[t]);
        var temp2 := Temp2(a, b, c);
        h := g;
        g := f;
        f := e;
        e := Plus(d, temp1);
        d := c;
        c := b;
        b := a;
        a := Plus(temp1, temp2);
      }
      v := Vars(a, b, c, d, e, f, g, h);
    }

    method AddBack(v: Vars)
      requires |intermediateHash| == 8
      modifies this`intermediateHash
      ensures var h := old(intermediateHash);
              intermediateHash == [Plus(h[0], v.a), Plus(h[1], v.b), Plus(h[2], v.c), Plus(h[3], v.d),
                                       Plus(h[4], v.e), Plus(h[5], v.f), Plus(h[6], v.g), Plus(h[7], v.h)]
    {
      hide Plus;
      var h := intermediateHash;
      intermediateHash := [Plus(h[0], v.a), Plus(h[1], v.b), Plus(h[2], v.c), Plus(h[3], v.d),
                           Plus(h[4], v.e), Plus(h[5], v.f), Plus(h[6], v.g), Plus(h[7], v.h)];
    }
  }
}

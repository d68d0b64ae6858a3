/** What the word functions of SHA-256 do, bit by bit and byte by byte. */
module Sha256Laws {
  import opened Types
  import opened Sha256Spec

  /** Where x has a one the result is y, where it has a zero the result is z. */
  lemma ChSelects(x: bv32, y: bv32, z: bv32)
    ensures Ch(x, y, z) & x == y & x && Ch(x, y, z) & !x == z & !x
  {
  }

  lemma XorParity(x: bv32, y: bv32, z: bv32)
    ensures Xor(x, x, z) == Xor(x, z, x) == Xor(z, x, x) == z
    ensures Xor(x, y, 0) == (x | y) & !(x & y)
  {
  }

  /** The other form of the macro. */
  lemma ChModified(x: bv32, y: bv32, z: bv32)
    ensures Ch(x, y, z) == (x & (y ^ z)) ^ z
  {
    assert (x & y) ^ (!x & z) == (x & (y ^ z)) ^ z;
  }

  /** Each bit is the one that at least two arguments have. */
  lemma MajVotes(x: bv32, y: bv32, z: bv32)
    ensures Maj(x, x, z) == Maj(x, z, x) == Maj(z, x, x) == x
    ensures Maj(x, y, z) == (x & (y | z)) | (y & z)
  {
  }

  // ------------------------------------------------------------- rotations

  /** Bit i of a word, counted from the least significant. */
  function BitAt(x: bv32, i: bv5): bv32 { (x >> i) & 1 }

  lemma ShiftsBit(x: bv32, n: bv5, i: bv5)
    ensures BitAt((x >> n) | (x << (0 - n)), i) == BitAt(x, i + n)
  {
  }

  lemma RotIsShifts(n: bv5, x: bv32)
    ensures RotR(n, x) == (x >> n) | (x << (0 - n))
  {
  }

  /** Rotating to the right by n brings bit i + n, counted around the word, to
      place i. */
  lemma RotBit(x: bv32, n: bv5, i: bv5)
    ensures BitAt(RotR(n, x), i) == BitAt(x, i + n)
  {
    hide RotR, BitAt;
    RotIsShifts(n, x);
    ShiftsBit(x, n, i);
  }

  lemma PlainXorBit(a: bv32, b: bv32, c: bv32, i: bv5)
    ensures BitAt(a ^ b ^ c, i) == BitAt(a, i) ^ BitAt(b, i) ^ BitAt(c, i)
  {
  }

  lemma XorIsPlain(a: bv32, b: bv32, c: bv32)
    ensures Xor(a, b, c) == a ^ b ^ c
  {
  }

  lemma XorBit(a: bv32, b: bv32, c: bv32, i: bv5)
    ensures BitAt(Xor(a, b, c), i) == Xor(BitAt(a, i), BitAt(b, i), BitAt(c, i))
  {
    hide Xor, BitAt;
    XorIsPlain(a, b, c);
    XorIsPlain(BitAt(a, i), BitAt(b, i), BitAt(c, i));
    PlainXorBit(a, b, c, i);
  }

  lemma ShiftBits(x: bv32, i: bv5)
    ensures BitAt(x >> 3, i) == if i < 29 then BitAt(x, i + 3) else 0
    ensures BitAt(x >> 10, i) == if i < 22 then BitAt(x, i + 10) else 0
  {
  }

  /** Each bit of the two large sigma functions is the sum of three bits of the
      argument. */
  lemma LargeSigmaBits(x: bv32, i: bv5)
    ensures BitAt(BSig0(x), i) == Xor(BitAt(x, i + 2), BitAt(x, i + 13), BitAt(x, i + 22))
    ensures BitAt(BSig1(x), i) == Xor(BitAt(x, i + 6), BitAt(x, i + 11), BitAt(x, i + 25))
  {
    hide Xor, RotR, BitAt;
    RotBit(x, 2, i);
    RotBit(x, 13, i);
    RotBit(x, 22, i);
    XorBit(RotR(2, x), RotR(13, x), RotR(22, x), i);
    RotBit(x, 6, i);
    RotBit(x, 11, i);
    RotBit(x, 25, i);
    XorBit(RotR(6, x), RotR(11, x), RotR(25, x), i);
  }

  /** The same for the small ones, whose third bit is shifted in as zero. */
  lemma SmallSigmaBits(x: bv32, i: bv5)
    ensures BitAt(SSig0(x), i)
         == Xor(BitAt(x, i + 7), BitAt(x, i + 18), if i < 29 then BitAt(x, i + 3) else 0)
    ensures BitAt(SSig1(x), i)
         == Xor(BitAt(x, i + 17), BitAt(x, i + 19), if i < 22 then BitAt(x, i + 10) else 0)
  {
    hide Xor, RotR, BitAt;
    ShiftBits(x, i);
    RotBit(x, 7, i);
    RotBit(x, 18, i);
    XorBit(RotR(7, x), RotR(18, x), x >> 3, i);
    RotBit(x, 17, i);
    RotBit(x, 19, i);
    XorBit(RotR(17, x), RotR(19, x), x >> 10, i);
  }

  // ----------------------------------------------------------- byte order

  /** The first byte is the most significant. */
  lemma BigEndianBytes(a: byte, b: byte, c: byte, d: byte)
    ensures BigEndian(a, b, c, d) >> 24 == Wide(a)
    ensures (BigEndian(a, b, c, d) >> 16) & 0xFF == Wide(b)
    ensures (BigEndian(a, b, c, d) >> 8) & 0xFF == Wide(c)
    ensures BigEndian(a, b, c, d) & 0xFF == Wide(d)
  {
    hide Wide;
    WideFits(a);
    WideFits(b);
    WideFits(c);
    WideFits(d);
  }

  lemma WideFits(b: byte)
    ensures Wide(b) <= 0xFF
  {
  }

  /** Byte j of word i of the hash value, most significant first, is byte 4i + j of
      the digest. */
  lemma DigestOrder(h: seq<bv32>, i: nat, j: nat)
    requires |h| == 8 && i < 8 && j < 4
    ensures Digest(h)[4 * i + j] == LowByte(h[i], 24 - 8 * j)
  {
    hide LowByte;
    assert (4 * i + j) / 4 == i && (4 * i + j) % 4 == j;
  }
}

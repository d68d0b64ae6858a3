/** SHA-256 as RFC 4634 defines it: functions and constants (section 5.1),
    initial value (section 6.1), padding of a bit string (section 4.1) and
    processing of the padded blocks (section 6.2). */
module Sha256Spec {
  import opened Types
  import opened Bits

  const ROUNDS: nat := 64

  /** Word i of a row of a table. */
  function Pick(i: nat, a: bv32, b: bv32, c: bv32, d: bv32, e: bv32, f: bv32, g: bv32, h: bv32): bv32
    requires i < 8
  {
    match i case 0 => a case 1 => b case 2 => c case 3 => d case 4 => e case 5 => f case 6 => g case _ => h
  }

  /** The constant of round t. */
  function K(t: nat): bv32
    requires t < ROUNDS
  {
    var i := t % 8;
    match t / 8
    case 0 => Pick(i, 0x428a2f98, 0x71374491, 0xb5c0fbcf, 0xe9b5dba5, 0x3956c25b, 0x59f111f1, 0x923f82a4, 0xab1c5ed5)
    case 1 => Pick(i, 0xd807aa98, 0x12835b01, 0x243185be, 0x550c7dc3, 0x72be5d74, 0x80deb1fe, 0x9bdc06a7, 0xc19bf174)
    case 2 => Pick(i, 0xe49b69c1, 0xefbe4786, 0x0fc19dc6, 0x240ca1cc, 0x2de92c6f, 0x4a7484aa, 0x5cb0a9dc, 0x76f988da)
    case 3 => Pick(i, 0x983e5152, 0xa831c66d, 0xb00327c8, 0xbf597fc7, 0xc6e00bf3, 0xd5a79147, 0x06ca6351, 0x14292967)
    case 4 => Pick(i, 0x27b70a85, 0x2e1b2138, 0x4d2c6dfc, 0x53380d13, 0x650a7354, 0x766a0abb, 0x81c2c92e, 0x92722c85)
    case 5 => Pick(i, 0xa2bfe8a1, 0xa81a664b, 0xc24b8b70, 0xc76c51a3, 0xd192e819, 0xd6990624, 0xf40e3585, 0x106aa070)
    case 6 => Pick(i, 0x19a4c116, 0x1e376c08, 0x2748774c, 0x34b0bcb5, 0x391c0cb3, 0x4ed8aa4a, 0x5b9cca4f, 0x682e6ff3)
    case _ => Pick(i, 0x748f82ee, 0x78a5636f, 0x84c87814, 0x8cc70208, 0x90befffa, 0xa4506ceb, 0xbef9a3f7, 0xc67178f2)
  }

  function H0(): (h: seq<bv32>)
    ensures |h| == 8
  {[
    0x6A09E667, 0xBB67AE85, 0x3C6EF372, 0xA54FF53A, 0x510E527F, 0x9B05688C, 0x1F83D9AB, 0x5BE0CD19
  ]}

  /** Addition modulo 2^32. */
  function Plus(x: bv32, y: bv32): bv32 { x + y }
  function Sum(a: bv32, b: bv32, c: bv32, d: bv32): bv32 { a + b + c + d }

  /** Rotation to the right. The amount is a number of five bits, so that 0 - n is
      32 - n for every n but 0. */
  function RotR(n: bv5, x: bv32): bv32 { (x >> n) | (x << (0 - n)) }

  function Ch(x: bv32, y: bv32, z: bv32): bv32 { (x & y) ^ (!x & z) }
  function Maj(x: bv32, y: bv32, z: bv32): bv32 { (x & y) ^ (x & z) ^ (y & z) }
  function Xor(x: bv32, y: bv32, z: bv32): bv32 { x ^ y ^ z }
  function BSig0(x: bv32): bv32 { Xor(RotR(2, x), RotR(13, x), RotR(22, x)) }
  function BSig1(x: bv32): bv32 { Xor(RotR(6, x), RotR(11, x), RotR(25, x)) }
  function SSig0(x: bv32): bv32 { Xor(RotR(7, x), RotR(18, x), x >> 3) }
  function SSig1(x: bv32): bv32 { Xor(RotR(17, x), RotR(19, x), x >> 10) }

  // --------------------------------------------------------- compression

  /** A byte as a word. */
  function Wide(b: byte): bv32 { (b as bv8) as bv32 }

  /** Four bytes as a word, most significant byte first. */
  function BigEndian(a: byte, b: byte, c: byte, d: byte): bv32 {
    (Wide(a) << 24) | (Wide(b) << 16) | (Wide(c) << 8) | Wide(d)
  }

  /** A schedule word from the words 2, 7, 15 and 16 positions before it. */
  function Mix(w2: bv32, w7: bv32, w15: bv32, w16: bv32): bv32 {
    Sum(SSig1(w2), w7, SSig0(w15), w16)
  }

  /** Word t of the message schedule of a block. */
  function Schedule(block: seq<byte>, t: nat): bv32
    requires |block| == 64
  {
    if t < 16 then BigEndian(block[4 * t], block[4 * t + 1], block[4 * t + 2], block[4 * t + 3])
    else
      Mix(Schedule(block, t - 2), Schedule(block, t - 7), Schedule(block, t - 15), Schedule(block, t - 16))
  }

  datatype Vars = Vars(a: bv32, b: bv32, c: bv32, d: bv32, e: bv32, f: bv32, g: bv32, h: bv32)

  function Temp1(e: bv32, f: bv32, g: bv32, h: bv32, k: bv32, w: bv32): bv32 {
    h + BSig1(e) + Ch(e, f, g) + k + w
  }

  function Temp2(a: bv32, b: bv32, c: bv32): bv32 { BSig0(a) + Maj(a, b, c) }

  function Round(v: Vars, k: bv32, w: bv32): Vars {
    var t1 := Temp1(v.e, v.f, v.g, v.h, k, w);
    var t2 := Temp2(v.a, v.b, v.c);
    Vars(Plus(t1, t2), v.a, v.b, v.c, Plus(v.d, t1), v.e, v.f, v.g)
  }

  /** The working variables after the first n rounds on a block. */
  function Rounds(v: Vars, block: seq<byte>, n: nat): Vars
    requires |block| == 64 && n <= ROUNDS
  {
    if n == 0 then v else Round(Rounds(v, block, n - 1), K(n - 1), Schedule(block, n - 1))
  }

  function Load(h: seq<bv32>): Vars
    requires |h| == 8
  {
    Vars(h[0], h[1], h[2], h[3], h[4], h[5], h[6], h[7])
  }

  function Compress(h: seq<bv32>, block: seq<byte>): (r: seq<bv32>)
    requires |h| == 8 && |block| == 64
    ensures |r| == 8
  {
    var v := Rounds(Load(h), block, ROUNDS);
    [Plus(h[0], v.a), Plus(h[1], v.b), Plus(h[2], v.c), Plus(h[3], v.d),
     Plus(h[4], v.e), Plus(h[5], v.f), Plus(h[6], v.g), Plus(h[7], v.h)]
  }

  /** The hash value after all blocks of a message of whole blocks. */
  function Absorb(message: seq<byte>): (r: seq<bv32>)
    requires |message| % 64 == 0
    ensures |r| == 8
  {
    if message == [] then H0()
    else
      var n := |message| - 64;
      Compress(Absorb(message[..n]), message[n..])
  }

  // ------------------------------------------------------------- padding

  /** The digits of a byte, most significant first. */
  function ByteBits(b: byte): (r: seq<bool>)
    ensures |r| == 8
  {
    seq(8, i requires 0 <= i < 8 => Bit(b as nat, 7 - i))
  }

  function BytesBits(s: seq<byte>): (r: seq<bool>)
    ensures |r| == 8 * |s|
  {
    if s == [] then [] else ByteBits(s[0]) + BytesBits(s[1..])
  }

  function Digit(b: bool): nat { if b then 1 else 0 }

  /** The number with the given digits, most significant first. */
  function FromDigits(r: seq<bool>): (x: nat)
    ensures x < Pow2(|r|)
  {
    if r == [] then 0 else 2 * FromDigits(r[..|r| - 1]) + Digit(r[|r| - 1])
  }

  function ByteOf(r: seq<bool>): byte
    requires |r| == 8
  {
    Pow2Values();
    FromDigits(r) as byte
  }

  function Pack(r: seq<bool>): (s: seq<byte>)
    requires |r| % 8 == 0
    ensures 8 * |s| == |r|
  {
    if r == [] then [] else [ByteOf(r[..8])] + Pack(r[8..])
  }

  /** The number of zeros after the single one: the smallest that brings the
      length to 448 modulo 512. */
  function ZeroCount(len: nat): (k: nat)
    ensures k < 512 && (len + 1 + k) % 512 == 448
  {
    (959 - len % 512) % 512
  }

  function Zeros(n: nat): (r: seq<bool>) ensures |r| == n { seq(n, _ => false) }

  /** The length of the message as 64 digits. */
  function LengthBits(len: nat): (r: seq<bool>)
    ensures |r| == 64
  {
    seq(64, i requires 0 <= i < 64 => Bit(len, 63 - i))
  }

  /** Section 4.1: the message, a one, zeros, and the length. */
  function Pad(bits: seq<bool>): (r: seq<bool>)
    ensures |r| % 512 == 0 && |r| % 8 == 0
  {
    bits + [true] + Zeros(ZeroCount(|bits|)) + LengthBits(|bits|)
  }

  // -------------------------------------------------------------- digest

  /** Byte i of the digest, most significant byte of each word first. */
  function DigestByte(h: seq<bv32>, i: nat): byte
    requires |h| == 8 && i < 32
  {
    LowByte(h[i / 4], 8 * (3 - i % 4))
  }

  /** `(uint8_t)(w >> s)` */
  function LowByte(w: bv32, s: nat): byte
    requires s <= 32
  {
    (((w >> s) & 0xFF) as bv8) as byte
  }

  function Digest(h: seq<bv32>): (r: Hash)
    requires |h| == 8
    ensures forall i :: 0 <= i < 32 ==> r[i] == DigestByte(h, i)
  {
    seq(HASH_LENGTH, i requires 0 <= i < HASH_LENGTH => DigestByte(h, i))
  }

  function PaddedBytes(bits: seq<bool>): (r: seq<byte>)
    ensures |r| % 64 == 0
  {
    hide Pack, Pad;
    var p := Pad(bits);
    assert |p| == 8 * |Pack(p)|;
    Pack(p)
  }

  /** The hash value of a message of any number of bits. */
  function HashBits(bits: seq<bool>): (r: seq<bv32>)
    ensures |r| == 8
  {
    Absorb(PaddedBytes(bits))
  }

  /** The SHA-256 digest of a byte string. */
  function Sha256(message: seq<byte>): Hash {
    Digest(HashBits(BytesBits(message)))
  }
}

/** The padding of section 4.1 of RFC 4634, defined on bits, in terms of the
    bytes that the implementation writes into its block buffer. */
module Sha256Padding {
  import opened Types
  import opened Bits
  import opened Sha256Spec

  /** The tables of SHA256FinalBits. */
  const masks: seq<nat> := [0x00, 0x80, 0xC0, 0xE0, 0xF0, 0xF8, 0xFC, 0xFE]
  const markbit: seq<nat> := [0x80, 0x40, 0x20, 0x10, 0x08, 0x04, 0x02, 0x01]

  /** `(message_bits & masks[length]) | markbit[length]` */
  function PadByte(bits: byte, m: nat): byte
    requires m < 8
  {
    var x := BitOr(BitAnd(bits as nat, masks[m]), markbit[m]);
    Pow2Values();
    AndBound(bits as nat, masks[m], 8);
    OrBound(BitAnd(bits as nat, masks[m]), markbit[m], 8);
    x as byte
  }

  lemma {:induction false} AndBound(a: nat, b: nat, n: nat)
    requires a < Pow2(n)
    ensures BitAnd(a, b) < Pow2(n)
    decreases n
  {
    if n != 0 && a != 0 && b != 0 { AndBound(a / 2, b / 2, n - 1); }
  }

  function ZeroBytes(n: nat): (r: seq<byte>) ensures |r| == n { seq(n, _ => 0 as byte) }

  /** The 64-bit length, most significant byte first. */
  function LengthBytes(len: nat): (r: seq<byte>)
    ensures |r| == 8
  {
    seq(8, j requires 0 <= j < 8 => (Shr(len, 56 - 8 * j) % 256) as byte)
  }

  /** Number of zero bytes between the pad byte and the length. */
  function ZeroByteCount(n: nat): (z: nat)
    ensures z < 64 && (n + 1 + z) % 64 == 56
  {
    (119 - n % 64) % 64
  }

  /** The padded message when its last bits and the marker share the byte `pad`. */
  function PadBytes(message: seq<byte>, pad: byte, len: nat): (r: seq<byte>)
    ensures |r| % 64 == 0
  {
    message + [pad] + ZeroBytes(ZeroByteCount(|message|)) + LengthBytes(len)
  }

  // ------------------------------------------------------------- packing

  function Digits(x: nat, n: nat): (r: seq<bool>)
    ensures |r| == n
  {
    seq(n, i requires 0 <= i < n => Bit(x, n - 1 - i))
  }

  /** The lowest n digits of x have the value x modulo 2^n. */
  lemma {:induction false} FromDigitsOf(x: nat, n: nat)
    ensures FromDigits(Digits(x, n)) == x % Pow2(n)
    decreases n
  {
    if n != 0 {
      forall i | 0 <= i < n - 1 ensures Digits(x, n)[i] == Digits(x / 2, n - 1)[i] {
        assert Bit(x, n - 1 - i) == Bit(x / 2, n - 2 - i);
      }
      var r := Digits(x, n);
      assert r[..n - 1] == Digits(x / 2, n - 1);
      assert r[n - 1] == Bit(x, 0);
      FromDigitsOf(x / 2, n - 1);
      DivDouble(x, Pow2(n - 1));
      assert FromDigits(r) == 2 * FromDigits(r[..n - 1]) + x % 2;
    }
  }

  lemma ByteOfByteBits(b: byte)
    ensures ByteOf(ByteBits(b)) == b
  {
    FromDigitsOf(b as nat, 8);
    Pow2Values();
    assert ByteBits(b) == Digits(b as nat, 8);
  }

  lemma {:induction false} PackCons(r: seq<bool>, rest: seq<bool>)
    requires |r| == 8 && |rest| % 8 == 0
    ensures Pack(r + rest) == [ByteOf(r)] + Pack(rest)
  {
    assert (r + rest)[..8] == r && (r + rest)[8..] == rest;
  }

  lemma {:induction false} PackConcat(a: seq<bool>, b: seq<bool>)
    requires |a| % 8 == 0 && |b| % 8 == 0
    ensures Pack(a + b) == Pack(a) + Pack(b)
    decreases |a|
  {
    if a == [] {
      assert a + b == b;
    } else {
      assert a == a[..8] + a[8..];
      assert a + b == a[..8] + (a[8..] + b);
      PackCons(a[..8], a[8..]);
      PackCons(a[..8], a[8..] + b);
      PackConcat(a[8..], b);
    }
  }

  lemma {:induction false} PackBytesBits(s: seq<byte>)
    ensures Pack(BytesBits(s)) == s
  {
    if s != [] {
      PackConcat(ByteBits(s[0]), BytesBits(s[1..]));
      PackByte(ByteBits(s[0]));
      ByteOfByteBits(s[0]);
      PackBytesBits(s[1..]);
    }
  }

  lemma {:induction false} PackByte(r: seq<bool>)
    requires |r| == 8
    ensures Pack(r) == [ByteOf(r)]
  {
    assert r[..8] == r && r[8..] == [];
  }

  lemma ZeroByte()
    ensures ByteOf(Zeros(8)) == 0
  {
    forall i | 0 <= i < 8 ensures !ByteBits(0)[i] { BitOfZero(7 - i); }
    assert ByteBits(0) == Zeros(8);
    ByteOfByteBits(0);
  }

  lemma {:induction false} PackZeros(n: nat)
    ensures Pack(Zeros(8 * n)) == ZeroBytes(n)
  {
    if n != 0 {
      assert Zeros(8 * n) == Zeros(8) + Zeros(8 * (n - 1));
      PackConcat(Zeros(8), Zeros(8 * (n - 1)));
      PackByte(Zeros(8));
      ZeroByte();
      PackZeros(n - 1);
      assert ZeroBytes(n) == [0 as byte] + ZeroBytes(n - 1);
    }
  }

  /** Byte j of the length field. */
  lemma {:induction false} LengthByte(len: nat, j: nat)
    requires j < 8
    ensures LengthBits(len)[8 * j..8 * j + 8] == Digits(Shr(len, 56 - 8 * j), 8)
    ensures ByteOf(LengthBits(len)[8 * j..8 * j + 8]) == LengthBytes(len)[j]
  {
    var s: nat := 56 - 8 * j;
    var r := LengthBits(len)[8 * j..8 * j + 8];
    forall i | 0 <= i < 8 ensures Digits(Shr(len, s), 8)[i] == r[i] {
      BitOfShift(len, s, 7 - i);
    }
    assert Digits(Shr(len, s), 8) == r;
    FromDigitsOf(Shr(len, s), 8);
    Pow2Values();
  }

  lemma {:induction false} PackLengthFrom(len: nat, j: nat)
    requires j <= 8
    ensures Pack(LengthBits(len)[8 * j..]) == LengthBytes(len)[j..]
    decreases 8 - j
  {
    if j < 8 {
      var all := LengthBits(len);
      assert all[8 * j..] == all[8 * j..8 * j + 8] + all[8 * (j + 1)..];
      PackCons(all[8 * j..8 * j + 8], all[8 * (j + 1)..]);
      LengthByte(len, j);
      PackLengthFrom(len, j + 1);
    }
  }

  lemma {:induction false} PackLength(len: nat)
    ensures Pack(LengthBits(len)) == LengthBytes(len)
  {
    PackLengthFrom(len, 0);
    assert LengthBits(len)[0..] == LengthBits(len);
  }

  /** The pad byte holds the first m of the given bits, a one, and zeros. */
  lemma {:induction false} PadByteBits(bits: byte, m: nat)
    requires m < 8
    ensures ByteBits(PadByte(bits, m)) == ByteBits(bits)[..m] + [true] + Zeros(7 - m)
  {
    hide PadByte, Bit;
    var r := ByteBits(bits)[..m] + [true] + Zeros(7 - m);
    forall i | 0 <= i < 8 ensures ByteBits(PadByte(bits, m))[i] == r[i] {
      PadBit(bits, m, i);
    }
  }

  lemma {:induction false} PadBit(bits: byte, m: nat, i: nat)
    requires m < 8 && i < 8
    ensures Bit(PadByte(bits, m) as nat, 7 - i) <==> i == m || (i < m && Bit(bits as nat, 7 - i))
  {
    hide Bit, BitOr, BitAnd;
    BitOfOr(BitAnd(bits as nat, masks[m]), markbit[m], 7 - i);
    BitOfAnd(bits as nat, masks[m], 7 - i);
    MaskDigit(m, i);
    MarkDigit(m, i);
  }

  lemma MaskDigit(m: nat, i: nat)
    requires m < 8 && i < 8
    ensures Bit(masks[m], 7 - i) <==> i < m
  {
    BitIsDiv(masks[m], 7 - i);
    SmallPow2(7 - i);
  }

  lemma MarkDigit(m: nat, i: nat)
    requires m < 8 && i < 8
    ensures Bit(markbit[m], 7 - i) <==> i == m
  {
    BitIsDiv(markbit[m], 7 - i);
    SmallPow2(7 - i);
  }

  lemma SmallPow2(i: nat)
    requires i < 8
    ensures Pow2(i) == [1, 2, 4, 8, 16, 32, 64, 128][i]
  {
  }

  lemma {:induction false} BitIsDiv(x: nat, i: nat)
    ensures Bit(x, i) <==> x / Pow2(i) % 2 == 1
  {
    BitOfShift(x, i, 0);
    ShrIsDiv(x, i);
  }

  lemma ZeroCountInBytes(n: nat, m: nat)
    requires m < 8
    ensures ZeroCount(8 * n + m) == 7 - m + 8 * ZeroByteCount(n)
  {
    var k := n % 64;
    assert n == 64 * (n / 64) + k;
    DivUnique(8 * n + m, 512, n / 64, 8 * k + m);
    assert ZeroByteCount(n) == if k <= 55 then 55 - k else 119 - k;
  }

  /** The padded bit string in whole bytes. */
  lemma {:induction false} PadRegrouped(message: seq<byte>, e: seq<bool>)
    requires |e| < 8
    ensures var last := e + [true] + Zeros(7 - |e|);
            var zeros := Zeros(8 * ZeroByteCount(|message|));
            Pad(BytesBits(message) + e)
            == BytesBits(message) + (last + (zeros + LengthBits(8 * |message| + |e|)))
  {
    var z, m := ZeroByteCount(|message|), |e|;
    ZeroCountInBytes(|message|, m);
    assert Zeros(7 - m + 8 * z) == Zeros(7 - m) + Zeros(8 * z);
  }

  lemma {:induction false} PackTail(last: seq<bool>, z: nat, len: nat)
    requires |last| == 8
    ensures Pack(last + (Zeros(8 * z) + LengthBits(len)))
         == [ByteOf(last)] + (ZeroBytes(z) + LengthBytes(len))
  {
    PackCons(last, Zeros(8 * z) + LengthBits(len));
    PackConcat(Zeros(8 * z), LengthBits(len));
    PackZeros(z);
    PackLength(len);
  }

  /** The padded bit string is exactly the bytes that PadMessage produces: for a
      message of whole bytes and up to seven further bits. */
  lemma {:induction false} PadIsBytes(message: seq<byte>, bits: byte, m: nat)
    requires m < 8
    ensures PaddedBytes(BytesBits(message) + ByteBits(bits)[..m])
         == PadBytes(message, PadByte(bits, m), 8 * |message| + m)
  {
    hide Pack, Pad, BytesBits, ByteBits, PadByte, ByteOf, Zeros, ZeroBytes, ZeroByteCount, LengthBits, LengthBytes;
    var e := ByteBits(bits)[..m];
    var len, z := 8 * |message| + m, ZeroByteCount(|message|);
    var last := e + [true] + Zeros(7 - m);
    PadRegrouped(message, e);
    PackConcat(BytesBits(message), last + (Zeros(8 * z) + LengthBits(len)));
    PackTail(last, z, len);
    PackBytesBits(message);
    PadByteBits(bits, m);
    ByteOfByteBits(PadByte(bits, m));
  }

  lemma ZeroBytesAdd(a: nat, b: nat)
    ensures ZeroBytes(a) + ZeroBytes(b) == ZeroBytes(a + b)
  {
  }

  /** How many zero bytes there are after a buffer of idx bytes. */
  lemma ZeroByteCountFrom(n: nat, idx: nat)
    requires idx == n % 64
    ensures ZeroByteCount(n) == if idx >= 56 then 63 - idx + 56 else 55 - idx
  {
  }

  /** The length field from the two words of the bit counter. */
  lemma {:induction false} LengthWords(hi: nat, lo: nat)
    requires hi < UINT32 && lo < UINT32
    ensures forall j :: 0 <= j < 4 ==>
              LengthBytes(hi * UINT32 + lo)[j] == (Shr(hi, 24 - 8 * j) % 256) as byte
    ensures forall j :: 4 <= j < 8 ==>
              LengthBytes(hi * UINT32 + lo)[j] == (Shr(lo, 56 - 8 * j) % 256) as byte
  {
    forall j | 0 <= j < 4 ensures Shr(hi * UINT32 + lo, 56 - 8 * j) == Shr(hi, 24 - 8 * j) {
      HighWord(hi, lo);
      ShrShr(hi * UINT32 + lo, 32, 24 - 8 * j);
    }
    forall j | 4 <= j < 8
      ensures Shr(hi * UINT32 + lo, 56 - 8 * j) % 256 == Shr(lo, 56 - 8 * j) % 256
    {
      LowWord(hi, lo, 56 - 8 * j);
    }
  }

  lemma {:induction false} HighWord(hi: nat, lo: nat)
    requires lo < UINT32
    ensures Shr(hi * UINT32 + lo, 32) == hi
  {
    ShrIsDiv(hi * UINT32 + lo, 32);
    Pow2Values();
  }

  lemma {:induction false} LowWord(hi: nat, lo: nat, s: nat)
    requires s <= 24
    ensures Shr(hi * UINT32 + lo, s) % 256 == Shr(lo, s) % 256
  {
    hide Shr, Pow2;
    Pow2Values();
    ShrLowWord(hi, lo, s);
    Pow2Add(8, 24 - s);
    MulAssoc(hi, Pow2(24 - s));
    DropMultiple(hi * Pow2(24 - s), Shr(lo, s));
  }

  lemma MulAssoc(a: nat, b: nat)
    ensures a * (256 * b) == 256 * (a * b)
  {
  }

  lemma DropMultiple(m: nat, x: nat)
    ensures (256 * m + x) % 256 == x % 256
  {
  }

  lemma {:induction false} ShrLowWord(hi: nat, lo: nat, s: nat)
    requires s <= 32
    ensures Shr(hi * UINT32 + lo, s) == hi * Pow2(32 - s) + Shr(lo, s)
    decreases s
  {
    hide Shr, Pow2;
    ShrStep(lo, 0);
    ShrStep(hi * UINT32 + lo, 0);
    if s == 0 {
      Pow2Values();
    } else {
      ShrLowWord(hi, lo, s - 1);
      ShrStep(lo, s - 1);
      ShrStep(hi * UINT32 + lo, s - 1);
      HalfOfSum(hi, 33 - s, Shr(lo, s - 1));
    }
  }

  lemma HalfOfSum(m: nat, k: nat, x: nat)
    requires k > 0
    ensures (m * Pow2(k) + x) / 2 == m * Pow2(k - 1) + x / 2
  {
    assert m * Pow2(k) == 2 * (m * Pow2(k - 1));
  }
}

/** 32-bit words in memory, least significant byte first. */
module Words {
  import opened Types
  import opened Bits

  function LE32(x: nat): (r: seq<byte>)
    requires x < UINT32
    ensures |r| == 4
  {
    [(x % 256) as byte, (x / 256 % 256) as byte, (x / 0x1_0000 % 256) as byte, (x / 0x100_0000) as byte]
  }

  function FromLE32(b: seq<byte>): (x: nat)
    requires |b| == 4
    ensures x < UINT32
  {
    b[0] as nat + 0x100 * b[1] as nat + 0x1_0000 * b[2] as nat + 0x100_0000 * b[3] as nat
  }

  /** Byte j is digit j of the word to the base 256, the lowest first. */
  lemma {:induction false} LE32Bytes(x: nat, j: nat)
    requires x < UINT32 && j < 4
    ensures LE32(x)[j] as nat == Shr(x, 8 * j) % 256
  {
    hide Shr, Pow2;
    ShrStep(x, 0);
    ShrIsDiv(x, 8 * j);
    Pow2Values();
    Pow2Add(16, 8);
  }

  /** Reading and writing are inverse both ways. */
  lemma {:induction false} FromLE32RoundTrip(b: seq<byte>)
    requires |b| == 4
    ensures LE32(FromLE32(b)) == b
  {
    var x := FromLE32(b);
    var b0, b1, b2, b3 := b[0] as nat, b[1] as nat, b[2] as nat, b[3] as nat;
    DivUnique(x, 0x100, b1 + 0x100 * b2 + 0x1_0000 * b3, b0);
    DivUnique(b1 + 0x100 * b2 + 0x1_0000 * b3, 0x100, b2 + 0x100 * b3, b1);
    DivUnique(x, 0x1_0000, b2 + 0x100 * b3, b0 + 0x100 * b1);
    DivUnique(b2 + 0x100 * b3, 0x100, b3, b2);
    DivUnique(x, 0x100_0000, b3, b0 + 0x100 * b1 + 0x1_0000 * b2);
  }

  lemma LE32RoundTrip(x: nat)
    requires x < UINT32
    ensures FromLE32(LE32(x)) == x
  {
    var a, b, c := x / 0x100, x / 0x1_0000, x / 0x100_0000;
    assert x == 0x100 * a + x % 0x100;
    assert a == 0x100 * b + a % 0x100;
    assert b == 0x100 * c + b % 0x100;
  }
}

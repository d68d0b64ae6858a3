/** Unsigned machine words as natural numbers. The C code works on uint32_t and
    unsigned long values with shifts, masks and bitwise or; here a word is a
    `nat`, `x >> k` is `Shr(x, k)`, and `&` and `|` are defined on the binary
    digits. */
module Bits {

  function Pow2(k: nat): (p: nat)
    ensures p > 0
  {
    if k == 0 then 1 else 2 * Pow2(k - 1)
  }

  /** `x >> k`, one digit at a time. */
  function Shr(x: nat, k: nat): (r: nat)
    ensures r <= x
  {
    if k == 0 then x else Shr(x, k - 1) / 2
  }

  /** The binary digit of weight 2^i. */
  predicate Bit(x: nat, i: nat) {
    if i == 0 then x % 2 == 1 else Bit(x / 2, i - 1)
  }

  function BitAnd(a: nat, b: nat): nat {
    if a == 0 || b == 0 then 0
    else 2 * BitAnd(a / 2, b / 2) + (if a % 2 == 1 && b % 2 == 1 then 1 else 0)
  }

  function BitOr(a: nat, b: nat): nat
    decreases a + b
  {
    if a == 0 then b
    else if b == 0 then a
    else 2 * BitOr(a / 2, b / 2) + (if a % 2 == 1 || b % 2 == 1 then 1 else 0)
  }

  lemma {:induction false} Pow2Monotone(i: nat, j: nat)
    requires i <= j
    ensures Pow2(i) <= Pow2(j)
  {
    if i < j { Pow2Monotone(i, j - 1); }
  }

  lemma {:induction false} Pow2Add(i: nat, j: nat)
    ensures Pow2(i + j) == Pow2(i) * Pow2(j)
  {
    if i != 0 {
      Pow2Add(i - 1, j);
      assert Pow2(i + j) == 2 * Pow2(i - 1 + j);
    }
  }

  lemma {:induction false} BitOfOr(a: nat, b: nat, i: nat)
    ensures Bit(BitOr(a, b), i) <==> Bit(a, i) || Bit(b, i)
  {
    BitOfZero(i);
    if a != 0 && b != 0 {
      assert BitOr(a, b) / 2 == BitOr(a / 2, b / 2);
      if i != 0 { BitOfOr(a / 2, b / 2, i - 1); }
    }
  }

  lemma {:induction false} BitOfAnd(a: nat, b: nat, i: nat)
    ensures Bit(BitAnd(a, b), i) <==> Bit(a, i) && Bit(b, i)
  {
    BitOfZero(i);
    if a != 0 && b != 0 {
      assert BitAnd(a, b) / 2 == BitAnd(a / 2, b / 2);
      if i != 0 { BitOfAnd(a / 2, b / 2, i - 1); }
    }
  }

  lemma BitOfZero(i: nat)
    ensures !Bit(0, i)
  {
  }

  lemma ShrStep(x: nat, k: nat)
    ensures Shr(x, 0) == x && Shr(x, k + 1) == Shr(x, k) / 2
  {
  }

  lemma {:induction false} ShrHalf(x: nat, k: nat)
    ensures Shr(x, k + 1) == Shr(x / 2, k)
    decreases k
  {
    if k != 0 { ShrHalf(x, k - 1); }
  }

  lemma {:induction false} ShrShr(x: nat, a: nat, b: nat)
    ensures Shr(x, a + b) == Shr(Shr(x, a), b)
    decreases b
  {
    if b != 0 { ShrShr(x, a, b - 1); }
  }

  lemma {:induction false} ShrIsDiv(x: nat, k: nat)
    ensures Shr(x, k) == x / Pow2(k)
    decreases k
  {
    if k != 0 {
      ShrHalf(x, k - 1);
      ShrIsDiv(x / 2, k - 1);
      DivDouble(x, Pow2(k - 1));
    }
  }

  /** Shifting right by k drops the k lowest digits. */
  lemma {:induction false} BitOfShift(x: nat, k: nat, i: nat)
    ensures Bit(Shr(x, k), i) <==> Bit(x, i + k)
    decreases k
  {
    if k != 0 {
      ShrHalf(x, k - 1);
      BitOfShift(x / 2, k - 1, i);
    }
  }

  lemma {:induction false} MulStep(d: nat, a: nat, b: nat)
    ensures a < b ==> d * a + d <= d * b
  {
    if a < b {
      var e: nat := b - a - 1;
      assert d * (a + 1 + e) == d * a + d + d * e;
    }
  }

  lemma {:induction false} DivUnique(x: nat, d: nat, q: nat, r: nat)
    requires d > 0 && x == d * q + r && r < d
    ensures x / d == q && x % d == r
  {
    MulStep(d, x / d, q);
    MulStep(d, q, x / d);
  }

  /** Dividing by 2p is halving and then dividing by p. */
  lemma {:induction false} DivDouble(x: nat, p: nat)
    requires p > 0
    ensures x / 2 / p == x / (2 * p)
    ensures x % (2 * p) == 2 * (x / 2 % p) + x % 2
  {
    var q, r := x / 2 / p, x / 2 % p;
    assert x / 2 == p * q + r;
    assert (2 * p) * q == 2 * (p * q);
    DivUnique(x, 2 * p, q, 2 * r + x % 2);
  }

  lemma Pow2Values()
    ensures Pow2(8) == 0x100 && Pow2(16) == 0x1_0000 && Pow2(22) == 0x40_0000
    ensures Pow2(31) == 0x8000_0000 && Pow2(32) == 0x1_0000_0000
  {
    Pow2Add(8, 8);
    Pow2Add(16, 6);
    Pow2Add(16, 15);
    Pow2Add(16, 16);
    assert Pow2(6) == 64 && Pow2(8) == 256 && Pow2(15) == 128 * Pow2(8);
  }

  lemma {:induction false} BitOfOnes(n: nat, i: nat)
    requires i < n
    ensures Bit(Pow2(n) - 1, i)
    decreases n
  {
    assert (Pow2(n) - 1) / 2 == Pow2(n - 1) - 1;
    if i != 0 { BitOfOnes(n - 1, i - 1); }
  }

  /** A word whose lowest n digits are all set, and no others. */
  lemma {:induction false} AllOnes(x: nat, n: nat)
    requires x < Pow2(n)
    requires forall i: nat :: i < n ==> Bit(x, i)
    ensures x == Pow2(n) - 1
  {
    if n != 0 {
      assert Bit(x, 0);
      forall i: nat | i < n - 1 ensures Bit(x / 2, i) { assert Bit(x, i + 1); }
      AllOnes(x / 2, n - 1);
    }
  }

  lemma {:induction false} OrBound(a: nat, b: nat, n: nat)
    requires a < Pow2(n) && b < Pow2(n)
    ensures BitOr(a, b) < Pow2(n)
  {
    if n != 0 && a != 0 && b != 0 { OrBound(a / 2, b / 2, n - 1); }
  }

  /** `x & (2^k - 1)` is the remainder modulo 2^k. */
  lemma {:induction false} MaskIsMod(x: nat, k: nat)
    ensures BitAnd(x, Pow2(k) - 1) == x % Pow2(k)
  {
    if k != 0 {
      var p := Pow2(k - 1);
      MaskIsMod(x / 2, k - 1);
      assert (Pow2(k) - 1) / 2 == p - 1;
      DivDouble(x, p);
    }
  }
}

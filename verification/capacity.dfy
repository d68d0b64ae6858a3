/** The power-of-two arithmetic behind the array list's memory management. */
module PowerOfTwo {
  import opened Types
  import opened Bits

  /** The least power of two that is at least n. */
  function Capacity(n: nat): (c: nat)
    ensures n <= c && (n >= 1 ==> c < 2 * n)
  {
    if n <= 1 then 1 else 2 * Capacity((n + 1) / 2)
  }

  lemma {:induction false} CapacityIsPow2(n: nat) returns (j: nat)
    ensures Capacity(n) == Pow2(j)
  {
    if n <= 1 {
      j := 0;
    } else {
      j := CapacityIsPow2((n + 1) / 2);
      j := j + 1;
    }
  }

  /** No smaller power of two reaches n. */
  lemma {:induction false} CapacityIsLeast(n: nat, j: nat)
    requires n <= Pow2(j)
    ensures Capacity(n) <= Pow2(j)
    decreases j
  {
    if n > 1 && j > 0 { CapacityIsLeast((n + 1) / 2, j - 1); }
  }

  /** The room needed for one more element doubles exactly when the list is full. */
  lemma {:induction false} CapacityNext(n: nat)
    requires n >= 1
    ensures Capacity(n + 1) == if Capacity(n) == n then 2 * n else Capacity(n)
    decreases n
  {
    hide Capacity;
    if n == 1 {
      CapacityStep(2, 1);
      CapacityOfOne();
    } else if n % 2 == 0 {
      var m := n / 2;
      CapacityStep(n, m);
      CapacityStep(n + 1, m + 1);
      CapacityNext(m);
    } else {
      CapacityStep(n, (n + 1) / 2);
      CapacityStep(n + 1, (n + 1) / 2);
    }
  }

  lemma CapacityOfOne()
    ensures Capacity(1) == 1
  {
  }

  lemma CapacityStep(n: nat, m: nat)
    requires n > 1 && (n == 2 * m || n + 1 == 2 * m)
    ensures Capacity(n) == 2 * Capacity(m)
  {
    assert (n + 1) / 2 == m;
  }

  lemma {:induction false} CapacityOdd(n: nat)
    requires n > 1 && n % 2 == 1
    ensures Capacity(n) != n
  {
    assert Capacity(n) % 2 == 0;
  }

  /** is_power_of_two: `v != 0 && (v & (v - 1)) == 0`. */
  predicate IsPowerOfTwo(v: nat) {
    v != 0 && BitAnd(v, v - 1) == 0
  }

  lemma {:induction false} IsPowerOfTwoIsFull(v: nat)
    requires v > 0
    ensures IsPowerOfTwo(v) <==> Capacity(v) == v
    decreases v
  {
    if v > 1 {
      if v % 2 == 0 {
        IsPowerOfTwoIsFull(v / 2);
        assert (v - 1) / 2 == v / 2 - 1 && (v + 1) / 2 == v / 2;
        assert BitAnd(v, v - 1) == 2 * BitAnd(v / 2, v / 2 - 1);
      } else {
        CapacityOdd(v);
        AndSelf(v / 2);
        assert (v - 1) / 2 == v / 2;
      }
    }
  }

  lemma AndSelf(x: nat)
    ensures BitAnd(x, x) == x
  {
  }

  /** `v |= v >> 1; v |= v >> 2; ... v |= v >> 16;` */
  function Smear(v: nat): nat {
    var v1 := BitOr(v, Shr(v, 1));
    var v2 := BitOr(v1, Shr(v1, 2));
    var v4 := BitOr(v2, Shr(v2, 4));
    var v8 := BitOr(v4, Shr(v4, 8));
    BitOr(v8, Shr(v8, 16))
  }

  /** `v--` and `v++` on 32-bit words. */
  function Decrement(v: nat): nat { if v == 0 then UINT32 - 1 else v - 1 }
  function Increment(v: nat): nat { if v == UINT32 - 1 then 0 else v + 1 }

  /** next_power_two of mt_serialize.c, on 32-bit words. */
  function NextPowerTwo(v: nat): nat
    requires v < UINT32
  {
    Increment(Smear(Decrement(v)))
  }

  /** round_next_power_two of mt_arr_list.c: as above, and 1 in place of 0. */
  function RoundNextPowerTwo(v: nat): nat
    requires v < UINT32
  {
    var w := NextPowerTwo(v);
    if w == 0 then 1 else w
  }

  /** The t digits below weight 2^n are set and no digit from 2^n upwards is. */
  ghost predicate TopOnes(x: nat, n: nat, t: nat) {
    x < Pow2(n) && forall i: nat :: i < n && n <= i + t ==> Bit(x, i)
  }

  lemma {:induction false} SmearStep(x: nat, n: nat, t: nat)
    requires TopOnes(x, n, t)
    ensures TopOnes(BitOr(x, Shr(x, t)), n, 2 * t)
  {
    var y := Shr(x, t);
    OrBound(x, y, n);
    forall i: nat | i < n && n <= i + 2 * t ensures Bit(BitOr(x, y), i) {
      BitOfOr(x, y, i);
      if n <= i + t { assert Bit(x, i); }
      else { BitOfShift(x, t, i); assert Bit(x, i + t); }
    }
  }

  lemma {:induction false} SmearFills(x: nat, n: nat)
    requires TopOnes(x, n, 1) && n <= 32
    ensures Smear(x) == Pow2(n) - 1
  {
    var v1 := BitOr(x, Shr(x, 1));
    var v2 := BitOr(v1, Shr(v1, 2));
    var v4 := BitOr(v2, Shr(v2, 4));
    var v8 := BitOr(v4, Shr(v4, 8));
    SmearStep(x, n, 1);
    SmearStep(v1, n, 2);
    SmearStep(v2, n, 4);
    SmearStep(v4, n, 8);
    SmearStep(v8, n, 16);
    AllOnes(Smear(x), n);
  }

  /** A positive word has a highest set digit. */
  lemma {:induction false} TopBit(x: nat) returns (n: nat)
    requires x > 0
    ensures n > 0 && Pow2(n - 1) <= x && TopOnes(x, n, 1)
    decreases x
  {
    if x == 1 {
      n := 1;
    } else {
      n := TopBit(x / 2);
      n := n + 1;
      assert Bit(x / 2, n - 2);
      assert Bit(x, n - 1);
    }
  }

  lemma {:induction false} SmearOfPositive(x: nat) returns (n: nat)
    requires 0 < x < 0x8000_0000
    ensures Smear(x) + 1 == Pow2(n) && Pow2(n) <= 2 * x && x < Pow2(n) && n <= 31
  {
    n := TopBit(x);
    Pow2Values();
    if n >= 32 { Pow2Monotone(31, n - 1); }
    SmearFills(x, n);
  }

  lemma {:induction false} CapacityUnique(v: nat, n: nat)
    requires v > 0 && v <= Pow2(n) < 2 * v
    ensures Capacity(v) == Pow2(n)
  {
    CapacityIsLeast(v, n);
    var j := CapacityIsPow2(v);
    if j < n { Pow2Monotone(j, n - 1); }
    if j > n { Pow2Monotone(n + 1, j); }
  }

  /** Both bit tricks compute the least power of two, up to 2^31. */
  lemma {:induction false} RoundUpIsCapacity(v: nat)
    requires 0 < v <= 0x8000_0000
    ensures NextPowerTwo(v) == RoundNextPowerTwo(v) == Capacity(v)
  {
    Pow2Values();
    if v == 1 {
      assert Smear(0) == 0;
    } else {
      var n := SmearOfPositive(v - 1);
      Pow2Monotone(n, 31);
      CapacityUnique(v, n);
    }
  }

  /** The edge case: zero elements ask for no room when a list is loaded. */
  lemma {:induction false} NextPowerTwoOfZero()
    ensures NextPowerTwo(0) == 0 && RoundNextPowerTwo(0) == 1
  {
    hide Smear;
    var zero, ones := 0, UINT32 - 1;
    Pow2Values();
    BitOfOnes(32, 31);
    SmearFills(ones, 32);
    assert Decrement(zero) == ones;
  }
}

/** The path that mt_verify walks from any offset, also one without a leaf. */
module MerkleWalk {
  import opened Types
  import opened Bits
  import opened PowerOfTwo
  import opened MerkleSpec
  import opened MerkleChange

  // -------------------------------------------------------------- numbers

  /** The level that stores the root of n leaves. */
  function Height(n: nat): nat {
    if n <= 1 then 0 else 1 + Height((n + 1) / 2)
  }

  /** The number of nodes that level k stores. */
  function LevelCount(n: nat, k: nat): nat {
    if k == 0 then n else Count(n, k - 1) / 2
  }

  /** The left sibling of node q, if it is needed, is stored. */
  predicate LeftStored(n: nat, k: nat, q: nat) {
    q % 2 == 1 ==> q - 1 < LevelCount(n, k)
  }

  /** All left siblings on the way from offset i to level k are stored. */
  predicate LeftsStored(n: nat, i: nat, k: nat) {
    forall l :: 0 <= l < k ==> LeftStored(n, l, Shr(i, l))
  }

  lemma {:induction false} CapacityIsHeight(n: nat)
    ensures Capacity(n) == Pow2(Height(n))
  {
    if n > 1 { CapacityIsHeight((n + 1) / 2); }
  }

  lemma {:induction false} CountHalf(n: nat, k: nat)
    ensures Count(n, k + 1) == Count((n + 1) / 2, k)
    decreases k
  {
    if k != 0 { CountHalf(n, k - 1); }
  }

  /** Below the root's level a row has at least two nodes. */
  lemma {:induction false} HeightExact(n: nat, k: nat)
    ensures Count(n, k) >= 2 <==> k < Height(n)
    decreases n, k
  {
    hide Count;
    CountAtZero(n);
    if n <= 1 {
      CountMonotone(n, 0, k);
    } else if k > 0 {
      CountHalf(n, k - 1);
      HeightExact((n + 1) / 2, k - 1);
    }
  }

  lemma CountAtZero(n: nat)
    ensures Count(n, 0) == n
  {
  }

  /** The root's level stores one node, or none if there is no leaf. */
  lemma {:induction false} RootCount(n: nat)
    ensures LevelCount(n, Height(n)) == if n == 0 then 0 else 1
    ensures Count(n, Height(n)) == if n == 0 then 0 else 1
  {
    hide Count;
    var l := Height(n);
    CountAtZero(n);
    HeightExact(n, l);
    CountPositive(n, l);
    if l > 0 {
      HeightExact(n, l - 1);
      CountStep(n, l - 1);
    }
  }

  lemma CountStep(n: nat, k: nat)
    ensures Count(n, k + 1) == (Count(n, k) + 1) / 2
  {
  }

  /** A row of height k is covered by the leaves below the root. */
  lemma {:induction false} CountBelow(n: nat, l: nat)
    requires l <= Height(n)
    ensures Count(n, l) <= Pow2(Height(n) - l)
    decreases Height(n) - l
  {
    hide Count;
    if l == Height(n) {
      RootCount(n);
    } else {
      CountBelow(n, l + 1);
      CountStep(n, l);
      assert Pow2(Height(n) - l) == 2 * Pow2(Height(n) - l - 1);
    }
  }

  lemma {:induction false} LevelCountBound(n: nat, k: nat)
    ensures LevelCount(n, k) <= Count(n, k)
  {
    if k != 0 { CountStep(n, k - 1); }
  }

  // ------------------------------------------------------ offsets past n

  /** All digits below k are zero. */
  predicate LowDigitsZero(i: nat, k: nat) {
    forall l :: 0 <= l < k ==> Shr(i, l) % 2 == 0
  }

  lemma {:induction false} LowDigits(i: nat, k: nat)
    ensures LowDigitsZero(i, k) <==> Shr(i, k) * Pow2(k) == i
    ensures Shr(i, k) * Pow2(k) <= i
    decreases k
  {
    hide Shr;
    ShrStep(i, 0);
    if k != 0 {
      LowDigits(i, k - 1);
      ShrStep(i, k - 1);
      var q, p := Shr(i, k - 1), Pow2(k - 1);
      TwiceHalf(q, p);
      assert LowDigitsZero(i, k) <==> LowDigitsZero(i, k - 1) && q % 2 == 0;
    }
  }

  lemma TwiceHalf(q: nat, p: nat)
    ensures q % 2 == 0 ==> (q / 2) * (2 * p) == q * p
    ensures q % 2 == 1 ==> (q / 2) * (2 * p) == q * p - p
  {
    if q % 2 == 0 {
      assert q == 2 * (q / 2);
      assert (q / 2) * (2 * p) == (2 * (q / 2)) * p;
    } else {
      assert q == 2 * (q / 2) + 1;
      assert (q / 2) * (2 * p) == (2 * (q / 2)) * p;
      assert (2 * (q / 2) + 1) * p == (2 * (q / 2)) * p + p;
    }
  }

  /** Digits below k are zero exactly for the multiples of 2^k. */
  lemma {:induction false} MultipleDigits(i: nat, k: nat)
    ensures LowDigitsZero(i, k) <==> i % Pow2(k) == 0
  {
    hide LowDigitsZero, Shr;
    LowDigits(i, k);
    ShrIsDiv(i, k);
    var p, q := Pow2(k), Shr(i, k);
    assert i == p * q + i % p;
  }

  /** Past the leaves there is no right sibling. */
  lemma {:induction false} NoRight(n: nat, i: nat, k: nat)
    requires n <= i && Shr(i, k) % 2 == 0
    ensures Shr(i, k) + 1 >= Count(n, k)
  {
    hide Count, Shr;
    if n > 0 {
      CountIsShr(n, k);
      ShrMonotone(n - 1, i, k);
    } else {
      CountPositive(n, k);
    }
  }

  /** From an offset beyond the root's range, a left sibling is never stored. */
  lemma {:induction false} NoLeft(n: nat, i: nat, l: nat)
    requires n > 0 && l < Height(n) && Shr(i, Height(n)) > 0 && Shr(i, l) % 2 == 1
    ensures !LeftStored(n, l, Shr(i, l))
  {
    hide Count, Shr, Height;
    CountBelow(n, l);
    LevelCountBound(n, l);
    ShrReaches(i, l, Height(n));
  }

  lemma {:induction false} ShrReaches(i: nat, l: nat, k: nat)
    requires l < k && Shr(i, k) > 0
    ensures Shr(i, l) >= Pow2(k - l) && Pow2(k - l) % 2 == 0
    decreases k - l
  {
    hide Shr;
    ShrStep(i, l);
    if l + 1 < k { ShrReaches(i, l + 1, k); }
  }

  /** Walking from an offset past the leaves ends beside the root, at a node that
      is not stored, exactly for the multiples of the tree's capacity. */
  lemma {:induction false} PastTheRoot(n: nat, i: nat)
    requires n <= i
    ensures LeftsStored(n, i, Height(n)) && Shr(i, Height(n)) >= LevelCount(n, Height(n))
       <==> i % Capacity(n) == 0
  {
    hide Count, Shr, Capacity, LevelCount;
    var top := Height(n);
    CapacityIsHeight(n);
    RootCount(n);
    MultipleDigits(i, top);
    LowDigits(i, top);
    if n > 0 && Shr(i, top) > 0 && !LowDigitsZero(i, top) {
      var l :| 0 <= l < top && Shr(i, l) % 2 != 0;
      NoLeft(n, i, l);
    }
  }

  // ---------------------------------------------------------------- walk

  /** One iteration: the digest after joining node q with its sibling. */
  function Joined<T>(h: Combine<T>, leaves: seq<T>, k: nat, q: nat, d: T): T
    requires LeftStored(|leaves|, k, q)
  {
    if q % 2 == 1 then LevelCountBound(|leaves|, k); h(Nodes(h, leaves, k)[q - 1], d)
    else if q + 1 < Count(|leaves|, k) then h(d, Nodes(h, leaves, k)[q + 1])
    else d
  }

  function JoinedIfStored<T>(h: Combine<T>, leaves: seq<T>, k: nat, q: nat, d: T): Option<T> {
    if LeftStored(|leaves|, k, q) then Some(Joined(h, leaves, k, q, d)) else None
  }

  /** The digest after k iterations; None if a left sibling was missing. */
  function Walk<T>(h: Combine<T>, leaves: seq<T>, i: nat, d: T, k: nat): Option<T>
    decreases k
  {
    if k == 0 then Some(d)
    else match Walk(h, leaves, i, d, k - 1)
      case None => None
      case Some(x) => JoinedIfStored(h, leaves, k - 1, Shr(i, k - 1), x)
  }

  lemma {:induction false} WalkEnds<T>(h: Combine<T>, leaves: seq<T>, i: nat, d: T, k: nat)
    ensures Walk(h, leaves, i, d, k).Some? <==> LeftsStored(|leaves|, i, k)
    decreases k
  {
    hide Joined, LeftStored, Shr;
    if k != 0 { WalkEnds(h, leaves, i, d, k - 1); }
  }

  lemma {:induction false} StoppedStays<T>(h: Combine<T>, leaves: seq<T>, i: nat, d: T, j: nat, k: nat)
    requires j <= k && Walk(h, leaves, i, d, j) == None
    ensures Walk(h, leaves, i, d, k) == None
    decreases k
  {
    hide Joined, LeftStored, Shr;
    if j < k { StoppedStays(h, leaves, i, d, j, k - 1); }
  }

  /** From the offset of a leaf the walk is the climb to the root. */
  lemma {:induction false} WalkIsClimb<T>(h: Combine<T>, leaves: seq<T>, i: nat, d: T, k: nat)
    requires i < |leaves|
    ensures Walk(h, leaves, i, d, k) == Some(Climb(h, leaves, i, d, k))
    decreases k
  {
    hide Nodes, Count, Shr, LevelCount;
    if k != 0 {
      WalkIsClimb(h, leaves, i, d, k - 1);
      ShrBelowCount(|leaves|, i, k - 1);
      OneCarried(|leaves|, k - 1);
    }
  }

  lemma {:induction false} OneCarried(n: nat, k: nat)
    ensures LevelCount(n, k) <= Count(n, k) <= LevelCount(n, k) + 1
  {
    if k != 0 { CountStep(n, k - 1); }
  }

  lemma LevelLength<T>(h: Combine<T>, leaves: seq<T>, k: nat)
    ensures |Level(h, leaves, k)| == LevelCount(|leaves|, k)
  {
  }

  /** From a node of the row, joining gives the parent. */
  lemma {:induction false} JoinedIsParent<T>(h: Combine<T>, leaves: seq<T>, k: nat, q: nat, d: T)
    requires q < Count(|leaves|, k)
    ensures LeftStored(|leaves|, k, q)
    ensures Joined(h, leaves, k, q, d) == Parent(h, Nodes(h, leaves, k), q, d)
  {
    hide Nodes, Count, LevelCount;
    OneCarried(|leaves|, k);
  }

  /** Past the leaves, only left siblings are hashed. */
  lemma {:induction false} OnlyLefts<T>(h: Combine<T>, leaves: seq<T>, i: nat, k: nat, d: T)
    requires |leaves| <= i && LeftStored(|leaves|, k, Shr(i, k))
    ensures Joined(h, leaves, k, Shr(i, k), d)
         == if Shr(i, k) % 2 == 1 then h(Level(h, leaves, k)[Shr(i, k) - 1], d) else d
  {
    hide Nodes, Count, Level, Shr;
    LevelLength(h, leaves, k);
    LevelIsPrefix(h, leaves, k);
    if Shr(i, k) % 2 == 0 { NoRight(|leaves|, i, k); }
  }

  // --------------------------------------------- acceptance past the leaves

  /** The rows above a row are the rows over its nodes. */
  lemma {:induction false} RowsCompose<T>(h: Combine<T>, leaves: seq<T>, k: nat, j: nat)
    ensures Nodes(h, leaves, k + j) == Nodes(h, Nodes(h, leaves, k), j)
    decreases j
  {
    hide Nodes, Lift, Count;
    RowOfRow(h, Nodes(h, leaves, k));
    if j != 0 {
      RowsCompose(h, leaves, k, j - 1);
      NextRow(h, leaves, k + j - 1);
      NextRow(h, Nodes(h, leaves, k), j - 1);
    }
  }

  lemma RowOfRow<T>(h: Combine<T>, row: seq<T>)
    ensures Nodes(h, row, 0) == row
  {
  }

  lemma NextRow<T>(h: Combine<T>, row: seq<T>, k: nat)
    ensures Nodes(h, row, k + 1) == Lift(h, Nodes(h, row, k))
  {
    hide Lift;
  }

  /** A path from past the leaves enters the rows beside the lone last node of a row
      of odd length. */
  lemma {:induction false} EntersRow(n: nat, i: nat, k: nat) returns (j: nat)
    requires n <= i && Shr(i, k) < Count(n, k)
    ensures j < k && Shr(i, j) == Count(n, j) && Count(n, j) % 2 == 1
    decreases k
  {
    hide Shr, Count;
    ShrStep(i, 0);
    CountAtZero(n);
    if Shr(i, k - 1) < Count(n, k - 1) {
      j := EntersRow(n, i, k - 1);
    } else {
      ShrStep(i, k - 1);
      CountStep(n, k - 1);
      j := k - 1;
    }
  }

  /** One level above an odd index, its path is the one of the index before it. */
  lemma {:induction false} SamePathAbove(c: nat, m: nat)
    requires c % 2 == 1 && m > 0
    ensures Shr(c, m) == Shr(c - 1, m)
    decreases m
  {
    hide Shr;
    ShrStep(c, m - 1);
    ShrStep(c - 1, m - 1);
    if m > 1 { SamePathAbove(c, m - 1); }
  }

  /** Entering row k, the walk hashes the last node of the row with its digest and
      goes on as the climb from that node. */
  lemma {:induction false} WalkInRow<T>(h: Combine<T>, leaves: seq<T>, i: nat, d: T, k: nat, y: T, m: nat)
    requires |leaves| > 0 && m > 0 && Walk(h, leaves, i, d, k) == Some(y)
    requires Shr(i, k) == Count(|leaves|, k) && Count(|leaves|, k) % 2 == 1
    requires Walk(h, leaves, i, d, k + m).Some?
    ensures var row := Nodes(h, leaves, k);
            var last := |row| - 1;
            Walk(h, leaves, i, d, k + m) == Some(Climb(h, row, last, h(row[last], y), m))
    decreases m
  {
    hide Nodes, Count, Shr, LevelCount;
    var row := Nodes(h, leaves, k);
    var last := |row| - 1;
    var x := h(row[last], y);
    ShrStep(last, 0);
    RowsCompose(h, leaves, k, 0);
    assert Climb(h, row, last, x, 0) == x;
    if m > 1 {
      var l := k + m - 1;
      WalkInRow(h, leaves, i, d, k, y, m - 1);
      ShrShr(i, k, m - 1);
      SamePathAbove(|row|, m - 1);
      RowsCompose(h, leaves, k, m - 1);
      ShrBelowCount(|row|, last, m - 1);
      JoinedIsParent(h, leaves, l, Shr(i, l), Walk(h, leaves, i, d, l).value);
    } else {
      RowOfRow(h, row);
    }
  }

  /** The walk from past the leaves that ends at node 0 meets the root exactly if
      some row of odd length keeps its root when its last node v becomes h(v, y). */
  lemma {:induction false} WalkMeetsRoot<T>(h: Combine<T>, leaves: seq<T>, i: nat, d: T) returns (k: nat, y: T)
    requires 0 < |leaves| <= i && Shr(i, Height(|leaves|)) == 0
    requires Walk(h, leaves, i, d, Height(|leaves|)).Some?
    ensures var row := Nodes(h, leaves, k);
            && |row| % 2 == 1 && Walk(h, leaves, i, d, k) == Some(y)
            && var last := |row| - 1;
            && (Walk(h, leaves, i, d, Height(|leaves|)) == Some(RangeHash(h, leaves))
                <==> RangeHash(h, row[last := h(row[last], y)]) == RangeHash(h, row))
  {
    hide Nodes, Count, Shr, Walk, Climb, Height, RangeHash, LevelCount;
    var n, top := |leaves|, Height(|leaves|);
    RootCount(n);
    k := EntersRow(n, i, top);
    if Walk(h, leaves, i, d, k) == None { StoppedStays(h, leaves, i, d, k, top); }
    y := Walk(h, leaves, i, d, k).value;
    var row, m := Nodes(h, leaves, k), top - k;
    WalkInRow(h, leaves, i, d, k, y, m);
    RowsCompose(h, leaves, k, m);
    ClimbToRoot(h, row, |row| - 1, h(row[|row| - 1], y), m);
    RootIsRangeHash(h, leaves, top);
    RootIsRangeHash(h, row, m);
  }

  /** The index o of level l, shifted back to the leaves, has 32 bits. */
  predicate Fits(o: nat, l: nat) { o * Pow2(l) < UINT32 }

  /** The index of a right sibling, shifted back to the leaves, has 32 bits. */
  lemma {:induction false} RightFits(i: nat, l: nat)
    requires i < UINT32 && l < 32 && Shr(i, l) % 2 == 0
    ensures Fits(Shr(i, l) + 1, l)
  {
    hide Shr, Pow2;
    var q, p, m := Shr(i, l), Pow2(l), Pow2(32 - l);
    LowDigits(i, l);
    Pow2Values();
    Pow2Add(32 - l, l);
    if q >= m { MulGrows(m, q, p); }
    Pow2Even(32 - l);
    MulGrows(q + 1, m - 1, p);
    MulLess(m, p);
  }

  lemma Pow2Even(k: nat)
    requires k > 0
    ensures Pow2(k) % 2 == 0
  {
  }

  lemma MulGrows(a: nat, b: nat, p: nat)
    requires a <= b
    ensures a * p <= b * p
  {
  }

  lemma MulLess(m: nat, p: nat)
    requires m > 0
    ensures (m - 1) * p == m * p - p
  {
  }
}

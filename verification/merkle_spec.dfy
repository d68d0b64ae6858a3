/** What the Merkle tree computes, for any pair hash `h`.

    Two definitions are given and proved to agree. `Nodes` builds the tree row by
    row and is the one the array lists are compared with: a lone last node is
    carried up unchanged. `RangeHash` splits a range of leaves at the largest
    power of two below its length and hashes the two halves. */
module MerkleSpec {
  import opened Types
  import opened Bits

  type Combine<!T> = (T, T) -> T

  /** The parents of a row that have two children. */
  function Pairs<T>(h: Combine<T>, row: seq<T>): (r: seq<T>)
    ensures |r| == |row| / 2
    ensures forall i :: 0 <= i < |r| ==> r[i] == h(row[2 * i], row[2 * i + 1])
  {
    seq(|row| / 2, i requires 0 <= i < |row| / 2 => h(row[2 * i], row[2 * i + 1]))
  }

  /** The row above: all pairs, then the unpaired last node if there is one. */
  function Lift<T>(h: Combine<T>, row: seq<T>): (r: seq<T>)
    ensures |r| == (|row| + 1) / 2
    ensures forall i :: 0 <= i < |row| / 2 ==> r[i] == h(row[2 * i], row[2 * i + 1])
    ensures |row| % 2 == 1 ==> r[|row| / 2] == row[|row| - 1]
  {
    Pairs(h, row) + if |row| % 2 == 1 then [row[|row| - 1]] else []
  }

  /** Every non-empty subtree of height k, left to right. */
  function Nodes<T>(h: Combine<T>, leaves: seq<T>, k: nat): (r: seq<T>)
    ensures |r| == Count(|leaves|, k)
  {
    if k == 0 then leaves else Lift(h, Nodes(h, leaves, k - 1))
  }

  /** The nodes that level k of the tree stores: leaves, and above them only the
      nodes whose right half is not empty. */
  function Level<T>(h: Combine<T>, leaves: seq<T>, k: nat): seq<T> {
    if k == 0 then leaves else Pairs(h, Nodes(h, leaves, k - 1))
  }

  /** The number of non-empty subtrees of height k over n leaves. */
  function Count(n: nat, k: nat): nat {
    if k == 0 then n else (Count(n, k - 1) + 1) / 2
  }

  /** All levels of the tree over the given leaves. */
  function Forest<T>(h: Combine<T>, leaves: seq<T>): (r: seq<seq<T>>)
    ensures |r| == TREE_LEVELS
    ensures forall k :: 0 <= k < TREE_LEVELS ==> r[k] == Level(h, leaves, k)
  {
    seq(TREE_LEVELS, k requires 0 <= k < TREE_LEVELS => Level(h, leaves, k))
  }

  // ------------------------------------------------------------ reference

  /** The largest power of two below n. */
  function SplitPoint(n: nat): (p: nat)
    requires n >= 2
    ensures 0 < p < n <= 2 * p
  {
    if n == 2 then 1 else 2 * SplitPoint((n + 1) / 2)
  }

  lemma {:induction false} SplitPointIsPow2(n: nat) returns (j: nat)
    requires n >= 2
    ensures SplitPoint(n) == Pow2(j)
  {
    if n == 2 {
      j := 0;
    } else {
      j := SplitPointIsPow2((n + 1) / 2);
      j := j + 1;
    }
  }

  function RangeHash<T>(h: Combine<T>, leaves: seq<T>): T
    requires |leaves| > 0
    decreases |leaves|
  {
    if |leaves| == 1 then leaves[0]
    else
      var p := SplitPoint(|leaves|);
      h(RangeHash(h, leaves[..p]), RangeHash(h, leaves[p..]))
  }

  /** The reference on small trees: left before right, and the last leaf of an odd
      number alone on the right. */
  lemma {:induction false} SmallTrees<T>(h: Combine<T>, a: T, b: T, c: T, d: T, e: T)
    ensures RangeHash(h, [a]) == a
    ensures RangeHash(h, [a, b]) == h(a, b)
    ensures RangeHash(h, [a, b, c]) == h(h(a, b), c)
    ensures RangeHash(h, [a, b, c, d]) == h(h(a, b), h(c, d))
    ensures RangeHash(h, [a, b, c, d, e]) == h(h(h(a, b), h(c, d)), e)
  {
    TwoLeaves(h, a, b);
    TwoLeaves(h, c, d);
    assert SplitPoint(3) == 2 && SplitPoint(4) == 2 && SplitPoint(5) == 4;
    assert [a, b, c][..2] == [a, b] && [a, b, c][2..] == [c];
    assert [a, b, c, d][..2] == [a, b] && [a, b, c, d][2..] == [c, d];
    assert [a, b, c, d, e][..4] == [a, b, c, d] && [a, b, c, d, e][4..] == [e];
  }

  lemma TwoLeaves<T>(h: Combine<T>, a: T, b: T)
    ensures RangeHash(h, [a, b]) == h(a, b)
  {
    assert [a, b][..1] == [a] && [a, b][1..] == [b];
  }

  // ---------------------------------------------------------------- sizes

  /** There is an i-th subtree of height k exactly when its first leaf exists. */
  lemma {:induction false} CountSpec(n: nat, k: nat, i: nat)
    ensures i < Count(n, k) <==> i * Pow2(k) < n
    decreases k
  {
    if k != 0 {
      CountSpec(n, k - 1, 2 * i);
      assert (2 * i) * Pow2(k - 1) == i * Pow2(k);
    }
  }

  lemma {:induction false} CountPositive(n: nat, k: nat)
    ensures Count(n, k) > 0 <==> n > 0
    decreases k
  {
    if k != 0 { CountPositive(n, k - 1); }
  }

  lemma {:induction false} CountIsShr(n: nat, k: nat)
    requires n > 0
    ensures Count(n, k) == Shr(n - 1, k) + 1
    decreases k
  {
    if k != 0 { CountIsShr(n, k - 1); }
  }

  lemma {:induction false} ShrMonotone(a: nat, b: nat, k: nat)
    requires a <= b
    ensures Shr(a, k) <= Shr(b, k)
    decreases k
  {
    if k != 0 { ShrMonotone(a, b, k - 1); }
  }

  lemma {:induction false} ShrBelowCount(n: nat, i: nat, k: nat)
    requires i < n
    ensures Shr(i, k) < Count(n, k)
  {
    CountIsShr(n, k);
    ShrMonotone(i, n - 1, k);
  }

  lemma {:induction false} CountMonotone(n: nat, j: nat, k: nat)
    requires j <= k
    ensures Count(n, k) <= Count(n, j)
    ensures Count(n, j) <= 1 ==> Count(n, k) == Count(n, j)
    decreases k
  {
    if j < k { CountMonotone(n, j, k - 1); }
  }

  /** The predicted size of a level: node i of level k is stored exactly when
      the first leaf of its right half exists. */
  lemma {:induction false} LevelSize<T>(h: Combine<T>, leaves: seq<T>, k: nat, i: nat)
    requires k > 0
    ensures i < |Level(h, leaves, k)| <==> (2 * i + 1) * Pow2(k - 1) < |leaves|
  {
    CountSpec(|leaves|, k - 1, 2 * i + 1);
  }

  // ------------------------------------------- rows against the reference

  lemma {:induction false} LiftConcat<T>(h: Combine<T>, a: seq<T>, b: seq<T>)
    requires |a| % 2 == 0
    ensures Lift(h, a + b) == Lift(h, a) + Lift(h, b)
  {
    var l, r := Lift(h, a + b), Lift(h, a) + Lift(h, b);
    assert |a + b| / 2 == |a| / 2 + |b| / 2;
    forall i | 0 <= i < |l| ensures l[i] == r[i] {
      if i >= |a| / 2 { var j := i - |a| / 2; assert (a + b)[2 * i] == b[2 * j]; }
    }
  }

  /** n leaves fill a whole number of subtrees of height k. */
  predicate Aligned(n: nat, k: nat) {
    k == 0 || (Aligned(n, k - 1) && Count(n, k - 1) % 2 == 0)
  }

  lemma {:induction false} MultipleIsAligned(m: nat, k: nat)
    ensures Aligned(m * Pow2(k), k) && Count(m * Pow2(k), k) == m
    decreases k
  {
    if k != 0 {
      assert m * Pow2(k) == (2 * m) * Pow2(k - 1);
      MultipleIsAligned(2 * m, k - 1);
    }
  }

  /** A whole number of subtrees of height k can be split off on the left. */
  lemma {:induction false} NodesConcat<T>(h: Combine<T>, a: seq<T>, b: seq<T>, k: nat)
    requires Aligned(|a|, k)
    ensures Nodes(h, a + b, k) == Nodes(h, a, k) + Nodes(h, b, k)
    decreases k
  {
    if k != 0 {
      NodesConcat(h, a, b, k - 1);
      LiftConcat(h, Nodes(h, a, k - 1), Nodes(h, b, k - 1));
    }
  }

  lemma LiftSingle<T>(h: Combine<T>, row: seq<T>)
    requires |row| == 1
    ensures Lift(h, row) == row
  {
  }

  lemma {:induction false} SingleStays<T>(h: Combine<T>, c: seq<T>, j: nat, k: nat)
    requires j <= k && Count(|c|, j) == 1
    ensures Nodes(h, c, k) == Nodes(h, c, j)
    decreases k
  {
    hide Lift, Count;
    if j < k {
      SingleStays(h, c, j, k - 1);
      LiftSingle(h, Nodes(h, c, k - 1));
    }
  }

  lemma {:induction false} TwoNodes<T>(h: Combine<T>, c: seq<T>, j: nat, x: T, y: T)
    requires Nodes(h, c, j) == [x, y]
    ensures Nodes(h, c, j + 1) == [h(x, y)]
  {
    assert Lift(h, [x, y]) == [h(x, y)];
  }

  /** Two neighbouring subtrees of height j, the left one full. */
  lemma {:induction false} JoinSubtrees<T>(h: Combine<T>, a: seq<T>, b: seq<T>, x: T, y: T, j: nat, k: nat)
    requires |a| == Pow2(j) && j < k
    requires Nodes(h, a, j) == [x] && Nodes(h, b, j) == [y]
    ensures Nodes(h, a + b, k) == [h(x, y)]
  {
    hide Nodes, Count, Aligned;
    MultipleIsAligned(1, j);
    NodesConcat(h, a, b, j);
    TwoNodes(h, a + b, j, x, y);
    SingleStays(h, a + b, j + 1, k);
  }

  /** One subtree of height k, full or not, is the range hash of its leaves. */
  lemma {:induction false} SubtreeIsRangeHash<T>(h: Combine<T>, c: seq<T>, k: nat)
    requires 0 < |c| <= Pow2(k)
    ensures Nodes(h, c, k) == [RangeHash(h, c)]
    decreases |c|
  {
    hide Nodes;
    if |c| == 1 {
      SingleLeaf(h, c, k);
    } else {
      var p := SplitPoint(|c|);
      var j := SplitPointIsPow2(|c|);
      if k <= j { Pow2Monotone(k, j); }
      SubtreeIsRangeHash(h, c[..p], j);
      SubtreeIsRangeHash(h, c[p..], j);
      JoinSubtrees(h, c[..p], c[p..], RangeHash(h, c[..p]), RangeHash(h, c[p..]), j, k);
      assert c == c[..p] + c[p..];
    }
  }

  lemma {:induction false} SingleLeaf<T>(h: Combine<T>, c: seq<T>, k: nat)
    requires |c| == 1
    ensures Nodes(h, c, k) == c
  {
    SingleStays(h, c, 0, k);
  }

  function Min(a: nat, b: nat): nat { if a <= b then a else b }

  /** The subtrees to the right of an aligned position do not depend on the left. */
  lemma {:induction false} NodesFrom<T>(h: Combine<T>, leaves: seq<T>, k: nat, lo: nat)
    requires lo < |leaves| && Aligned(lo, k)
    ensures Count(|leaves|, k) > Count(lo, k) && Count(|leaves| - lo, k) > 0
    ensures Nodes(h, leaves, k)[Count(lo, k)] == Nodes(h, leaves[lo..], k)[0]
  {
    NodesConcat(h, leaves[..lo], leaves[lo..], k);
    CountPositive(|leaves| - lo, k);
    assert leaves == leaves[..lo] + leaves[lo..];
  }

  lemma {:induction false} FirstNodeIsRangeHash<T>(h: Combine<T>, c: seq<T>, rest: seq<T>, k: nat)
    requires 0 < |c| <= Pow2(k)
    requires Aligned(|c|, k) || rest == []
    ensures Count(|c| + |rest|, k) > 0
    ensures Nodes(h, c + rest, k)[0] == RangeHash(h, c)
  {
    SubtreeIsRangeHash(h, c, k);
    if rest == [] {
      assert c + rest == c;
    } else {
      NodesConcat(h, c, rest, k);
    }
  }

  lemma {:induction false} NodeInRange<T>(h: Combine<T>, leaves: seq<T>, k: nat, lo: nat, hi: nat)
    requires lo < hi <= |leaves| && hi - lo <= Pow2(k)
    requires Aligned(hi - lo, k) || hi == |leaves|
    requires Aligned(lo, k)
    ensures Count(|leaves|, k) > Count(lo, k)
    ensures Nodes(h, leaves, k)[Count(lo, k)] == RangeHash(h, leaves[lo..hi])
  {
    var c, rest := leaves[lo..hi], leaves[hi..];
    assert leaves[lo..] == c + rest;
    NodesFrom(h, leaves, k, lo);
    FirstNodeIsRangeHash(h, c, rest, k);
  }

  /** Every node, stored or carried, is the range hash of the leaves below it. */
  lemma {:induction false} NodeIsRangeHash<T>(h: Combine<T>, leaves: seq<T>, k: nat, i: nat, lo: nat)
    requires i < Count(|leaves|, k) && lo == i * Pow2(k)
    ensures lo < |leaves|
    ensures Nodes(h, leaves, k)[i] == RangeHash(h, leaves[lo..Min(lo + Pow2(k), |leaves|)])
  {
    hide Nodes, RangeHash, Count, Aligned;
    CountSpec(|leaves|, k, i);
    MultipleIsAligned(i, k);
    MultipleIsAligned(1, k);
    NodeInRange(h, leaves, k, lo, Min(lo + Pow2(k), |leaves|));
  }

  lemma {:induction false} RootIsRangeHash<T>(h: Combine<T>, leaves: seq<T>, k: nat)
    requires Count(|leaves|, k) == 1
    ensures |leaves| > 0
    ensures Nodes(h, leaves, k)[0] == RangeHash(h, leaves)
  {
    CountSpec(|leaves|, k, 0);
    CountSpec(|leaves|, k, 1);
    SubtreeIsRangeHash(h, leaves, k);
  }
}

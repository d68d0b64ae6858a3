/** How the rows and levels of the tree change when a leaf is appended or
    replaced, and why the root binds the leaves. */
module MerkleChange {
  import opened Bits
  import opened MerkleSpec

  /** The value of the parent of node q when that node has the value d. */
  function Parent<T>(h: Combine<T>, row: seq<T>, q: nat, d: T): T
    requires q < |row|
  {
    if q % 2 == 1 then h(row[q - 1], d)
    else if q + 1 < |row| then h(d, row[q + 1])
    else d
  }

  /** The value that the ancestor of leaf i at height k gets from a leaf value d. */
  function Climb<T>(h: Combine<T>, leaves: seq<T>, i: nat, d: T, k: nat): T
    requires i < |leaves|
  {
    if k == 0 then d
    else
      ShrBelowCount(|leaves|, i, k - 1);
      Parent(h, Nodes(h, leaves, k - 1), Shr(i, k - 1), Climb(h, leaves, i, d, k - 1))
  }

  // -------------------------------------------------------------- storage

  /** A level stores its row except possibly for the carried last node. */
  lemma {:induction false} LevelIsPrefix<T>(h: Combine<T>, leaves: seq<T>, k: nat)
    ensures |Level(h, leaves, k)| <= |Nodes(h, leaves, k)| <= |Level(h, leaves, k)| + 1
    ensures Level(h, leaves, k) == Nodes(h, leaves, k)[..|Level(h, leaves, k)|]
  {
    if k != 0 {
      var row := Nodes(h, leaves, k - 1);
      assert Lift(h, row) == Nodes(h, leaves, k);
    }
  }

  /** Every stored node is the range hash of the leaves below it. */
  lemma {:induction false} StoredNodeIsRangeHash<T>(h: Combine<T>, leaves: seq<T>, k: nat, i: nat, lo: nat)
    requires i < |Level(h, leaves, k)| && lo == i * Pow2(k)
    ensures lo < |leaves|
    ensures Level(h, leaves, k)[i] == RangeHash(h, leaves[lo..Min(lo + Pow2(k), |leaves|)])
  {
    hide Level, Nodes, Count, RangeHash;
    LevelIsPrefix(h, leaves, k);
    NodeIsRangeHash(h, leaves, k, i, lo);
  }

  /** A node that is not stored at its level is the first node one level down. */
  lemma {:induction false} CarriedNode<T>(h: Combine<T>, leaves: seq<T>, k: nat, j: nat)
    requires k > 0 && |Level(h, leaves, k)| <= j
    ensures j < Count(|leaves|, k) <==> 2 * j < Count(|leaves|, k - 1)
    ensures j < Count(|leaves|, k) ==> Nodes(h, leaves, k)[j] == Nodes(h, leaves, k - 1)[2 * j]
  {
    LiftLast(h, Nodes(h, leaves, k - 1), j);
  }

  lemma {:induction false} LiftLast<T>(h: Combine<T>, row: seq<T>, j: nat)
    requires |row| / 2 <= j
    ensures j < (|row| + 1) / 2 <==> 2 * j < |row|
    ensures 2 * j < |row| ==> Lift(h, row)[j] == row[2 * j]
  {
  }

  // ------------------------------------------------------------ replacing

  lemma {:induction false} LiftUpdate<T>(h: Combine<T>, row: seq<T>, q: nat, d: T)
    requires q < |row|
    ensures Lift(h, row[q := d]) == Lift(h, row)[q / 2 := Parent(h, row, q, d)]
  {
    var l, r := Lift(h, row[q := d]), Lift(h, row)[q / 2 := Parent(h, row, q, d)];
    forall i | 0 <= i < |l| ensures l[i] == r[i] {
      if i != q / 2 { assert q != 2 * i && q != 2 * i + 1; }
    }
  }

  /** Replacing a leaf changes exactly the nodes on its path. */
  lemma {:induction false} UpdateNodes<T>(h: Combine<T>, leaves: seq<T>, i: nat, d: T, k: nat)
    requires i < |leaves|
    ensures Shr(i, k) < Count(|leaves|, k)
    ensures Nodes(h, leaves[i := d], k)
         == Nodes(h, leaves, k)[Shr(i, k) := Climb(h, leaves, i, d, k)]
    decreases k
  {
    hide Lift, Parent, Count;
    ShrBelowCount(|leaves|, i, k);
    if k != 0 {
      UpdateNodes(h, leaves, i, d, k - 1);
      LiftUpdate(h, Nodes(h, leaves, k - 1), Shr(i, k - 1), Climb(h, leaves, i, d, k - 1));
    }
  }

  function UpdateIfExists<T>(s: seq<T>, q: nat, d: T): seq<T> {
    if q < |s| then s[q := d] else s
  }

  /** The stored levels after replacing a leaf: one write per level, skipped
      where the node on the path is not stored. */
  lemma {:induction false} UpdateLevel<T>(h: Combine<T>, leaves: seq<T>, i: nat, d: T, k: nat)
    requires i < |leaves|
    ensures Level(h, leaves[i := d], k)
         == UpdateIfExists(Level(h, leaves, k), Shr(i, k), Climb(h, leaves, i, d, k))
  {
    UpdateNodes(h, leaves, i, d, k);
    LevelIsPrefix(h, leaves, k);
    LevelIsPrefix(h, leaves[i := d], k);
    var old_, new_ := Level(h, leaves, k), Level(h, leaves[i := d], k);
    assert |old_| == |new_|;
  }

  /** Climbing from a leaf to the root gives the root of the tree in which the
      leaf is replaced. */
  lemma {:induction false} ClimbToRoot<T>(h: Combine<T>, leaves: seq<T>, i: nat, d: T, k: nat)
    requires i < |leaves| && Count(|leaves|, k) == 1
    ensures Climb(h, leaves, i, d, k) == RangeHash(h, leaves[i := d])
  {
    UpdateNodes(h, leaves, i, d, k);
    RootIsRangeHash(h, leaves[i := d], k);
  }

  // ------------------------------------------------------------ appending

  /** Number of zero bits below the lowest set bit. */
  function TrailingZeros(m: nat): nat
    requires m > 0
  {
    if m % 2 == 1 then 0 else 1 + TrailingZeros(m / 2)
  }

  /** The row before leaf m is appended ends just before the new path, or holds
      the node of the new path already. */
  lemma {:induction false} AppendCount(m: nat, k: nat)
    requires m > 0
    ensures Count(m + 1, k) == Shr(m, k) + 1
    ensures Count(m, k) == if k <= TrailingZeros(m) then Shr(m, k) else Shr(m, k) + 1
    decreases k
  {
    CountIsShr(m + 1, k);
    if k != 0 {
      AppendCount(m, k - 1);
      ShrParity(m, k - 1);
    }
  }

  lemma {:induction false} ShrParity(m: nat, k: nat)
    requires m > 0
    ensures k < TrailingZeros(m) ==> Shr(m, k) % 2 == 0
    ensures k == TrailingZeros(m) ==> Shr(m, k) % 2 == 1
    decreases k
  {
    if k != 0 {
      ShrHalf(m, k - 1);
      if m % 2 == 0 { ShrParity(m / 2, k - 1); }
    }
  }

  ghost predicate SamePrefix<T>(a: seq<T>, b: seq<T>, n: nat) {
    n <= |a| && n <= |b| && forall i :: 0 <= i < n ==> a[i] == b[i]
  }

  lemma {:induction false} LiftPrefix<T>(h: Combine<T>, a: seq<T>, b: seq<T>, n: nat)
    requires SamePrefix(a, b, n)
    ensures SamePrefix(Lift(h, a), Lift(h, b), n / 2)
    ensures SamePrefix(Pairs(h, a), Pairs(h, b), n / 2)
  {
  }

  /** Nodes to the left of the new path do not change. */
  lemma {:induction false} AppendNodes<T>(h: Combine<T>, leaves: seq<T>, x: T, k: nat)
    ensures Count(|leaves| + 1, k) == Shr(|leaves|, k) + 1
    ensures Shr(|leaves|, k) <= Count(|leaves|, k) <= Shr(|leaves|, k) + 1
    ensures SamePrefix(Nodes(h, leaves + [x], k), Nodes(h, leaves, k), Shr(|leaves|, k))
    decreases k
  {
    CountIsShr(|leaves| + 1, k);
    if k != 0 {
      AppendNodes(h, leaves, x, k - 1);
      LiftPrefix(h, Nodes(h, leaves + [x], k - 1), Nodes(h, leaves, k - 1), Shr(|leaves|, k - 1));
    }
  }

  /** The value on the new path: the pair hash if the node below is a right node,
      the node below itself otherwise. */
  lemma {:induction false} AppendPath<T>(h: Combine<T>, leaves: seq<T>, x: T, k: nat)
    ensures Count(|leaves| + 1, k) == Shr(|leaves|, k) + 1
    ensures Count(|leaves| + 1, k + 1) == Shr(|leaves|, k) / 2 + 1
    ensures var q, row := Shr(|leaves|, k), Nodes(h, leaves + [x], k);
            Nodes(h, leaves + [x], k + 1)[q / 2] == Parent(h, row, q, row[q])
  {
    hide Lift, Parent, Shr;
    CountIsShr(|leaves| + 1, k);
    LastParent(h, Nodes(h, leaves + [x], k));
  }

  /** The left neighbour of a right node on the new path is stored. */
  lemma {:induction false} AppendLeft<T>(h: Combine<T>, leaves: seq<T>, x: T, k: nat)
    requires Shr(|leaves|, k) % 2 == 1
    ensures Count(|leaves| + 1, k) == Shr(|leaves|, k) + 1
    ensures var q := Shr(|leaves|, k);
            && q - 1 < |Level(h, leaves + [x], k)|
            && Level(h, leaves + [x], k)[q - 1] == Nodes(h, leaves + [x], k)[q - 1]
  {
    CountIsShr(|leaves| + 1, k);
    LevelIsPrefix(h, leaves + [x], k);
  }

  /** The write that appending a leaf makes one level up: nothing when the node
      on the path is a left node; otherwise the hash of the pair, appended or
      written over the last entry. */
  lemma {:induction false} AppendLevel<T>(h: Combine<T>, leaves: seq<T>, x: T, k: nat)
    ensures Count(|leaves| + 1, k) == Shr(|leaves|, k) + 1
    ensures Shr(|leaves|, k) / 2 <= |Level(h, leaves, k + 1)| <= Shr(|leaves|, k) / 2 + 1
    ensures Shr(|leaves|, k) % 2 == 0 ==> Level(h, leaves + [x], k + 1) == Level(h, leaves, k + 1)
    ensures Shr(|leaves|, k) % 2 == 1 ==>
              var q, row := Shr(|leaves|, k), Nodes(h, leaves + [x], k);
              Level(h, leaves + [x], k + 1)
              == Level(h, leaves, k + 1)[..q / 2] + [h(row[q - 1], row[q])]
  {
    AppendNodes(h, leaves, x, k);
    var q, row := Shr(|leaves|, k), Nodes(h, leaves + [x], k);
    LiftPrefix(h, row, Nodes(h, leaves, k), q);
    LastParent(h, row);
    SameButLast(Level(h, leaves + [x], k + 1), Level(h, leaves, k + 1), q / 2);
  }

  /** The parent of the last node of a row. */
  lemma {:induction false} LastParent<T>(h: Combine<T>, row: seq<T>)
    requires |row| > 0
    ensures var q := |row| - 1;
            && Lift(h, row)[q / 2] == Parent(h, row, q, row[q])
            && (q % 2 == 1 ==> Pairs(h, row)[q / 2] == h(row[q - 1], row[q]))
  {
  }

  lemma SameButLast<T>(a: seq<T>, b: seq<T>, n: nat)
    requires SamePrefix(a, b, n)
    ensures |a| == n == |b| ==> a == b
    ensures |a| == n + 1 ==> a == b[..n] + [a[n]]
  {
  }

  /** Appending leaf m > 0 appends exactly one inner node, one level above the
      trailing zeros of m; every other level keeps its size. */
  lemma {:induction false} AppendsOneNode<T>(h: Combine<T>, leaves: seq<T>, x: T, k: nat)
    requires |leaves| > 0 && k > 0
    ensures |Level(h, leaves + [x], k)|
         == |Level(h, leaves, k)| + if k == 1 + TrailingZeros(|leaves|) then 1 else 0
  {
    hide Nodes, Count, Shr, TrailingZeros;
    AppendCount(|leaves|, k - 1);
    ShrParity(|leaves|, k - 1);
  }

  /** Number of inner nodes stored on levels 1 to k. */
  function InnerNodes<T>(h: Combine<T>, leaves: seq<T>, k: nat): nat {
    if k == 0 then 0 else InnerNodes(h, leaves, k - 1) + |Level(h, leaves, k)|
  }

  /** n leaves have n - 1 inner nodes. */
  lemma {:induction false} InnerNodesTotal<T>(h: Combine<T>, leaves: seq<T>, k: nat)
    ensures InnerNodes(h, leaves, k) == |leaves| - Count(|leaves|, k)
    decreases k
  {
    if k != 0 { InnerNodesTotal(h, leaves, k - 1); }
  }

  // -------------------------------------------------------------- binding

  /** Two pairs with one hash, read off two different leaf sequences of equal
      length that have the same root. */
  function Collision<T(==)>(h: Combine<T>, a: seq<T>, b: seq<T>): ((T, T), (T, T))
    requires |a| == |b| && |a| > 0 && a != b && RangeHash(h, a) == RangeHash(h, b)
    decreases |a|
  {
    var p := SplitPoint(|a|);
    var la, ra := RangeHash(h, a[..p]), RangeHash(h, a[p..]);
    var lb, rb := RangeHash(h, b[..p]), RangeHash(h, b[p..]);
    if la != lb || ra != rb then ((la, ra), (lb, rb))
    else if a[..p] != b[..p] then Collision(h, a[..p], b[..p])
    else
      assert a == a[..p] + a[p..] && b == b[..p] + b[p..];
      Collision(h, a[p..], b[p..])
  }

  lemma {:induction false} RootBinds<T>(h: Combine<T>, a: seq<T>, b: seq<T>)
    requires |a| == |b| && |a| > 0 && a != b && RangeHash(h, a) == RangeHash(h, b)
    ensures var (x, y) := Collision(h, a, b);
            x != y && h(x.0, x.1) == h(y.0, y.1)
    decreases |a|
  {
    var p := SplitPoint(|a|);
    var la, ra := RangeHash(h, a[..p]), RangeHash(h, a[p..]);
    var lb, rb := RangeHash(h, b[..p]), RangeHash(h, b[p..]);
    if la == lb && ra == rb {
      if a[..p] != b[..p] {
        RootBinds(h, a[..p], b[..p]);
      } else {
        assert a == a[..p] + a[p..] && b == b[..p] + b[p..];
        RootBinds(h, a[p..], b[p..]);
      }
    }
  }
}

/** The single-producer single-consumer ring of pc_state, pcs_state and
    mk_rec_state: two free-running 64-bit counters and a pool of slots whose
    number is a power of two. A slot access and the counter increment that
    follows it are separate steps. */
module Rings {
  import opened Bits

  const WORD: nat := 0x1_0000_0000_0000_0000

  datatype Ring<T> = Ring(bits: nat, head: nat, tail: nat, pool: seq<T>) {

    function Size(): nat { Pow2(bits) }

    /** `counter & Q_MASK` */
    function Slot(counter: nat): (i: nat)
      ensures i < Size()
    {
      MaskIsMod(counter, bits);
      BitAnd(counter, Size() - 1)
    }

    predicate Shape() {
      bits < 64 && |pool| == Size()
    }

    /** `head == tail` */
    predicate Empty() { head == tail }

    /** `tail == head + SIZE` on words */
    predicate Full() { tail == (head + Size()) % WORD }

    /** `record_pool[tail & Q_MASK] = x` */
    function Write(x: T): Ring<T>
      requires Shape()
    {
      this.(pool := pool[Slot(tail) := x])
    }

    /** `record_pool[head & Q_MASK]` */
    function Read(): T
      requires Shape()
    {
      pool[Slot(head)]
    }

    /** `__sync_fetch_and_add(&tail, 1)` */
    function IncTail(): Ring<T> { this.(tail := (tail + 1) % WORD) }

    /** `__sync_fetch_and_add(&head, 1)` */
    function IncHead(): Ring<T> { this.(head := (head + 1) % WORD) }

    /** The ring holds what was pushed and not yet popped: the counters are the
        numbers of pushes and pops modulo the word size. */
    ghost predicate Holds(pushed: seq<T>, popped: nat) {
      && Shape()
      && popped <= |pushed| <= popped + Size()
      && head == popped % WORD && tail == |pushed| % WORD
      && forall i :: popped <= i < |pushed| ==> pool[i % Size()] == pushed[i]
    }
  }

  // ------------------------------------------------------------- numbers

  lemma {:induction false} WordIsPow2()
    ensures Pow2(64) == WORD
  {
    Pow2Values();
    Pow2Add(32, 32);
  }

  lemma {:induction false} SizeBelowWord(bits: nat)
    requires bits < 64
    ensures 0 < Pow2(bits) < WORD
  {
    WordIsPow2();
    Pow2Monotone(bits, 63);
  }

  /** The mask of a word counter picks the slot of the unbounded counter. */
  lemma {:induction false} SlotOfWord(i: nat, bits: nat)
    requires bits < 64
    ensures BitAnd(i % WORD, Pow2(bits) - 1) == i % Pow2(bits)
  {
    MaskIsMod(i % WORD, bits);
    WordIsPow2();
    Pow2Add(bits, 64 - bits);
    ModOfMod(i, Pow2(bits), Pow2(64 - bits));
  }

  lemma {:induction false} ModOfMod(i: nat, n: nat, m: nat)
    requires n > 0 && m > 0
    ensures n * m > 0 && i % (n * m) % n == i % n
  {
    MulStep(n, 0, m);
    var p := n * m;
    var q, r := i / p, i % p;
    var k, t := r / n, r % n;
    MulFacts(n, m, q, k);
    DivUnique(i, n, m * q + k, t);
  }

  lemma MulFacts(n: nat, m: nat, q: nat, k: nat)
    ensures (n * m) * q + n * k == n * (m * q + k)
  {
    calc {
      n * (m * q + k);
      n * (m * q) + n * k;
      { assert n * (m * q) == (n * m) * q; }
      (n * m) * q + n * k;
    }
  }

  /** Two counters less than one lap apart use different slots. */
  lemma {:induction false} SlotsDiffer(i: nat, j: nat, n: nat)
    requires n > 0 && i < j < i + n
    ensures i % n != j % n
  {
    if i % n == j % n {
      var a, b := i / n, j / n;
      assert i == n * a + i % n && j == n * b + j % n;
      assert j - i == n * (b - a) by { assert n * b - n * a == n * (b - a); }
      MulBetween(n, b - a);
    }
  }

  lemma MulBetween(n: nat, d: int)
    ensures !(0 < n * d < n)
  {
    if d >= 1 { assert n * (d - 1) >= 0 && n * d == n * (d - 1) + n; }
    if d <= 0 { assert n * d <= 0; }
  }

  /** Word counters less than a word apart are equal only if the counters are. */
  lemma {:induction false} SameWord(a: nat, b: nat)
    requires a <= b < a + WORD
    ensures a % WORD == b % WORD <==> a == b
  {
  }

  lemma WordAdd(a: nat, n: nat)
    ensures (a % WORD + n) % WORD == (a + n) % WORD
  {
  }

  lemma NextWord(a: nat)
    ensures (a % WORD + 1) % WORD == (a + 1) % WORD
  {
  }

  // ---------------------------------------------------------------- steps

  lemma {:induction false} EmptyExact<T>(r: Ring<T>, pushed: seq<T>, popped: nat)
    requires r.Holds(pushed, popped)
    ensures r.Empty() <==> popped == |pushed|
  {
    SizeBelowWord(r.bits);
    SameWord(popped, |pushed|);
  }

  lemma {:induction false} FullExact<T>(r: Ring<T>, pushed: seq<T>, popped: nat)
    requires r.Holds(pushed, popped)
    ensures r.Full() <==> |pushed| == popped + r.Size()
  {
    hide Pow2;
    SizeBelowWord(r.bits);
    WordAdd(popped, r.Size());
    SameWord(|pushed|, popped + r.Size());
  }

  lemma {:induction false} SlotsInPool<T>(r: Ring<T>, pushed: seq<T>, popped: nat)
    requires r.Holds(pushed, popped)
    ensures r.Slot(r.tail) == |pushed| % r.Size() < |r.pool|
    ensures r.Slot(r.head) == popped % r.Size() < |r.pool|
  {
    SlotOfWord(|pushed|, r.bits);
    SlotOfWord(popped, r.bits);
  }

  /** Writing the slot at the tail of a ring that is not full keeps every unread
      element. */
  lemma {:induction false} WriteKeeps<T>(r: Ring<T>, pushed: seq<T>, popped: nat, x: T)
    requires r.Holds(pushed, popped) && |pushed| < popped + r.Size()
    ensures r.Slot(r.tail) < |r.pool|
    ensures r.Write(x).Holds(pushed, popped)
    ensures r.Write(x).Slot(r.Write(x).tail) == r.Slot(r.tail)
    ensures r.Write(x).pool[r.Slot(r.tail)] == x
  {
    SlotsInPool(r, pushed, popped);
    var n := r.Size();
    forall i | popped <= i < |pushed| ensures r.Write(x).pool[i % n] == pushed[i] {
      SlotsDiffer(i, |pushed|, n);
    }
  }

  lemma {:induction false} PushIsAppend<T>(r: Ring<T>, pushed: seq<T>, popped: nat, x: T)
    requires r.Holds(pushed, popped) && |pushed| < popped + r.Size()
    requires r.Slot(r.tail) < |r.pool| && r.pool[r.Slot(r.tail)] == x
    ensures r.IncTail().Holds(pushed + [x], popped)
  {
    hide BitAnd, Pow2;
    SlotsInPool(r, pushed, popped);
    NextWord(|pushed|);
    var n, more := r.Size(), pushed + [x];
    forall i | popped <= i < |more| ensures r.pool[i % n] == more[i] {
      if i < |pushed| { assert r.pool[i % n] == pushed[i]; }
    }
  }

  lemma {:induction false} ReadIsFirst<T>(r: Ring<T>, pushed: seq<T>, popped: nat)
    requires r.Holds(pushed, popped) && popped < |pushed|
    ensures r.Slot(r.head) < |r.pool| && r.Read() == pushed[popped]
  {
    SlotsInPool(r, pushed, popped);
  }

  lemma {:induction false} PopAdvances<T>(r: Ring<T>, pushed: seq<T>, popped: nat)
    requires r.Holds(pushed, popped) && popped < |pushed|
    ensures r.IncHead().Holds(pushed, popped + 1)
  {
    NextWord(popped);
  }

  /** Writer and reader are never blocked at the same time. */
  lemma {:induction false} NotBothBlocked<T>(r: Ring<T>, pushed: seq<T>, popped: nat)
    requires r.Holds(pushed, popped)
    ensures !(r.Full() && r.Empty())
  {
    SizeBelowWord(r.bits);
    EmptyExact(r, pushed, popped);
    FullExact(r, pushed, popped);
  }
}

/** Packing records into frames of one mebibyte: the greedy split that
    consumer_func of storage/secure/sec_ssd_server.c computes. */
module Packets {
  import opened Types

  type Record = seq<byte>

  const RECV_BUF_SIZE: nat := 1048576
  const PAYLOAD: nat := RECV_BUF_SIZE - 8

  /** Records one after the other. */
  function Bytes(g: seq<Record>): seq<byte> {
    if g == [] then [] else Bytes(g[..|g| - 1]) + g[|g| - 1]
  }

  function Joined(gs: seq<seq<Record>>): seq<Record> {
    if gs == [] then [] else gs[0] + Joined(gs[1..])
  }

  predicate RecordsFit(rs: seq<Record>) {
    forall i :: 0 <= i < |rs| ==> |rs[i]| <= PAYLOAD
  }

  /** An order-preserving split into groups that each fit one packet. */
  ghost predicate IsSplit(gs: seq<seq<Record>>, rs: seq<Record>) {
    && Joined(gs) == rs
    && forall i :: 0 <= i < |gs| ==> |Bytes(gs[i])| <= PAYLOAD
  }

  /** The packets still to come when `open` is in the current packet: a record
      joins the packet if it fits and starts the next one otherwise. */
  function GreedyFrom(open: seq<Record>, rest: seq<Record>): seq<seq<Record>>
    decreases |rest|
  {
    if rest == [] then (if open == [] then [] else [open])
    else if open == [] || |Bytes(open)| + |rest[0]| <= PAYLOAD then
      GreedyFrom(open + [rest[0]], rest[1..])
    else [open] + GreedyFrom([rest[0]], rest[1..])
  }

  function Greedy(rs: seq<Record>): seq<seq<Record>> { GreedyFrom([], rs) }

  // ------------------------------------------------------------- algebra

  lemma {:induction false} BytesConcat(a: seq<Record>, b: seq<Record>)
    ensures Bytes(a + b) == Bytes(a) + Bytes(b)
    decreases |b|
  {
    if b == [] {
      assert a + b == a;
    } else {
      var n := |b| - 1;
      assert (a + b)[..|a + b| - 1] == a + b[..n];
      BytesConcat(a, b[..n]);
    }
  }

  lemma BytesOne(r: Record)
    ensures Bytes([r]) == r
  {
    assert [r][..0] == [];
  }

  lemma {:induction false} BytesAppend(g: seq<Record>, r: Record)
    ensures Bytes(g + [r]) == Bytes(g) + r
  {
    BytesConcat(g, [r]);
    BytesOne(r);
  }

  lemma {:induction false} JoinedConcat(a: seq<seq<Record>>, b: seq<seq<Record>>)
    ensures Joined(a + b) == Joined(a) + Joined(b)
    decreases |a|
  {
    if a == [] {
      assert a + b == b;
    } else {
      assert (a + b)[1..] == a[1..] + b;
      JoinedConcat(a[1..], b);
    }
  }

  // --------------------------------------------- what the greedy split is

  /** Nothing is lost, duplicated or reordered, and no packet is too large. */
  lemma {:induction false} GreedyIsSplit(open: seq<Record>, rest: seq<Record>)
    requires RecordsFit(rest) && |Bytes(open)| <= PAYLOAD
    ensures IsSplit(GreedyFrom(open, rest), open + rest)
    decreases |rest|
  {
    var gs := GreedyFrom(open, rest);
    if rest == [] {
      if open != [] { assert gs[1..] == []; }
    } else {
      var r, more := rest[0], rest[1..];
      BytesOne(r);
      if open == [] || |Bytes(open)| + |r| <= PAYLOAD {
        BytesAppend(open, r);
        GreedyIsSplit(open + [r], more);
        assert open + rest == open + [r] + more;
      } else {
        GreedyIsSplit([r], more);
        assert gs[1..] == GreedyFrom([r], more);
        assert rest == [r] + more;
      }
    }
  }

  /** The bytes of a packet and the first record of the next exceed the payload. */
  ghost predicate Tight(gs: seq<seq<Record>>) {
    |gs| <= 1 || (gs[1] != [] && |Bytes(gs[0])| + |gs[1][0]| > PAYLOAD && Tight(gs[1..]))
  }

  /** No packet is empty, and none has room for the first record of the next. */
  lemma {:induction false} GreedyIsTight(open: seq<Record>, rest: seq<Record>)
    ensures Tight(GreedyFrom(open, rest))
    ensures forall i :: 0 <= i < |GreedyFrom(open, rest)| ==> GreedyFrom(open, rest)[i] != []
    ensures open != [] ==> GreedyFrom(open, rest) != [] && open <= GreedyFrom(open, rest)[0]
    decreases |rest|
  {
    var gs := GreedyFrom(open, rest);
    if rest != [] {
      var r, more := rest[0], rest[1..];
      if open == [] || |Bytes(open)| + |r| <= PAYLOAD {
        GreedyIsTight(open + [r], more);
        assert open <= open + [r];
      } else {
        GreedyIsTight([r], more);
        assert gs[1..] == GreedyFrom([r], more);
        assert gs[1][0] == r;
      }
    }
  }

  /** A split with the first m records taken out of its groups. */
  function Drop(gs: seq<seq<Record>>, m: nat): seq<seq<Record>>
    requires m <= |Joined(gs)|
  {
    if gs == [] then []
    else if m <= |gs[0]| then [gs[0][m..]] + gs[1..]
    else [[]] + Drop(gs[1..], m - |gs[0]|)
  }

  lemma {:induction false} DropIsSplit(gs: seq<seq<Record>>, rs: seq<Record>, m: nat)
    requires IsSplit(gs, rs) && m <= |rs|
    ensures |Drop(gs, m)| == |gs| && IsSplit(Drop(gs, m), rs[m..])
    decreases |gs|
  {
    if gs != [] {
      var d := Drop(gs, m);
      var first, rest := gs[0], Joined(gs[1..]);
      if m <= |first| {
        assert first == first[..m] + first[m..];
        BytesConcat(first[..m], first[m..]);
        assert d[1..] == gs[1..];
        assert (first + rest)[m..] == first[m..] + rest;
      } else {
        DropIsSplit(gs[1..], rest, m - |first|);
        assert d[1..] == Drop(gs[1..], m - |first|);
        assert (first + rest)[m..] == rest[m - |first|..];
      }
    }
  }

  /** A prefix of a record sequence is no larger than the sequence. */
  lemma {:induction false} PrefixBytes(a: seq<Record>, b: seq<Record>)
    requires a <= b
    ensures |Bytes(a)| <= |Bytes(b)|
  {
    BytesConcat(a, b[|a|..]);
    assert b == a + b[|a|..];
  }

  /** No split into packets uses fewer packets than the greedy one. */
  lemma {:induction false} GreedyIsLeast(open: seq<Record>, rest: seq<Record>, gs: seq<seq<Record>>)
    requires IsSplit(gs, open + rest)
    ensures |GreedyFrom(open, rest)| <= |gs|
    decreases |rest|
  {
    if rest == [] {
      assert open + rest == open;
    } else {
      var r, more := rest[0], rest[1..];
      assert open + rest == open + [r] + more;
      assert rest == [r] + more;
      if open == [] || |Bytes(open)| + |r| <= PAYLOAD {
        GreedyIsLeast(open + [r], more, gs);
      } else {
        FirstGroupIsShort(gs, open, r, more);
        var c := open[|gs[0]|..];
        var others := gs[1..];
        assert c + rest == (open + rest)[|gs[0]|..];
        assert IsSplit(others, c + rest) by { assert open + rest == gs[0] + Joined(others); }
        DropIsSplit(others, c + rest, |c|);
        assert (c + rest)[|c|..] == [r] + more;
        GreedyIsLeast([r], more, Drop(others, |c|));
      }
    }
  }

  lemma {:induction false} FirstGroupIsShort(gs: seq<seq<Record>>, open: seq<Record>, r: Record, more: seq<Record>)
    requires IsSplit(gs, open + [r] + more)
    requires |Bytes(open)| + |r| > PAYLOAD
    ensures gs != [] && |gs[0]| <= |open|
  {
    BytesAppend(open, r);
    if |gs[0]| > |open| {
      assert gs[0] == (open + [r] + more)[..|gs[0]|];
      assert open + [r] <= gs[0];
      PrefixBytes(open + [r], gs[0]);
    }
  }

  /** The number of records over all packets. */
  function RecordCount(gs: seq<seq<Record>>): nat {
    if gs == [] then 0 else |gs[0]| + RecordCount(gs[1..])
  }

  lemma RecordCountIsLength(gs: seq<seq<Record>>)
    ensures RecordCount(gs) == |Joined(gs)|
  {
  }

  /** Two records share a packet exactly if they have 1048568 bytes together. */
  lemma {:induction false} TwoRecords(a: Record, b: Record)
    ensures |Greedy([a, b])| == if |a| + |b| <= 1048568 then 1 else 2
  {
    BytesOne(a);
    assert [a, b][1..] == [b] && [] + [a] == [a] && [b][1..] == [];
    assert GreedyFrom([], [a, b]) == GreedyFrom([a], [b]);
  }

  /** The three facts about the packets of a whole stream. */
  lemma {:induction false} GreedyOptimal(rs: seq<Record>, gs: seq<seq<Record>>)
    requires RecordsFit(rs) && IsSplit(gs, rs)
    ensures IsSplit(Greedy(rs), rs) && Tight(Greedy(rs))
    ensures |Greedy(rs)| <= |gs|
    ensures RecordCount(Greedy(rs)) == |rs|
  {
    assert [] + rs == rs;
    GreedyIsSplit([], rs);
    GreedyIsTight([], rs);
    GreedyIsLeast([], rs, gs);
    RecordCountIsLength(Greedy(rs));
  }
}

/** Rows on the wire: serialize of the storage engine and deserialize of the
    host engine, and the host's loop over the records of a packet. */
module RecordFormat {
  import opened Types
  import opened Words
  import opened Packets
  import opened Pipeline
  import opened PipelineInvariant

  const INT_LIMIT: nat := 0x8000_0000

  /** The fields of Mem that travel: n, szMalloc, and the n + 1 bytes at z. */
  datatype Mem = Mem(n: nat, szMalloc: nat, z: seq<byte>)

  predicate IsRow(m: Mem) {
    m.n + 9 < INT_LIMIT && m.szMalloc < INT_LIMIT && |m.z| == m.n + 1
  }

  function Serialize(m: Mem): Record
    requires IsRow(m)
  {
    LE32(m.n) + LE32(m.szMalloc) + m.z
  }

  /** One record at an offset, with the number of bytes it takes; None if the
      reader would leave the buffer. */
  function Deserialize(data: seq<byte>, at: nat): Option<(Mem, nat)> {
    if at + 8 > |data| then None
    else
      var n := FromLE32(data[at..at + 4]);
      if at + 8 + n + 1 > |data| then None
      else Some((Mem(n, FromLE32(data[at + 4..at + 8]), data[at + 8..at + 8 + n + 1]), 8 + n + 1))
  }

  /** num records from an offset on. */
  function Unpack(data: seq<byte>, at: nat, num: nat): Option<seq<Mem>>
    decreases num
  {
    if num == 0 then Some([])
    else match Deserialize(data, at)
      case None => None
      case Some((m, step)) =>
        match Unpack(data, at + step, num - 1)
        case None => None
        case Some(ms) => Some([m] + ms)
  }

  /** The loop of batch_deserialize_add. */
  method BatchDeserialize(b: Batch) returns (r: Option<seq<Mem>>)
    ensures r == Unpack(b.data, 0, b.num)
  {
    hide Deserialize;
    var ms: seq<Mem>, at := [], 0;
    ghost var all := Unpack(b.data, 0, b.num);
    assert all.Some? ==> ms + all.value == all.value;
    for i := 0 to b.num
      invariant match Unpack(b.data, at, b.num - i)
                case None => all == None
                case Some(rest) => all == Some(ms + rest)
    {
      match Deserialize(b.data, at) {
        case None =>
          return None;
        case Some((m, step)) =>
          ghost var rest := Unpack(b.data, at + step, b.num - i - 1);
          assert rest.Some? ==> ms + ([m] + rest.value) == ms + [m] + rest.value;
          ms, at := ms + [m], at + step;
      }
    }
    assert ms + [] == ms;
    return Some(ms);
  }

  function Serialized(ms: seq<Mem>): (rs: seq<Record>)
    requires forall i :: 0 <= i < |ms| ==> IsRow(ms[i])
    ensures |rs| == |ms|
    ensures forall i :: 0 <= i < |ms| ==> rs[i] == Serialize(ms[i])
  {
    seq(|ms|, i requires 0 <= i < |ms| => Serialize(ms[i]))
  }

  /** A record is the two lengths and the bytes at z, with the byte after them. */
  lemma {:induction false} RecordLayout(m: Mem)
    requires IsRow(m)
    ensures var r := Serialize(m);
            |r| == m.n + 9 && r[..4] == LE32(m.n) && r[4..8] == LE32(m.szMalloc) && r[8..] == m.z
  {
    hide LE32;
  }

  // ---------------------------------------------------------- round trips

  lemma {:induction false} DeserializeRow(data: seq<byte>, at: nat, m: Mem)
    requires IsRow(m) && at + |Serialize(m)| <= |data|
    requires data[at..at + |Serialize(m)|] == Serialize(m)
    ensures Deserialize(data, at) == Some((m, |Serialize(m)|))
  {
    hide LE32, FromLE32;
    LE32RoundTrip(m.n);
    LE32RoundTrip(m.szMalloc);
    assert Serialize(m) == LE32(m.n) + (LE32(m.szMalloc) + m.z);
    TwoParts(data, at, LE32(m.n), LE32(m.szMalloc) + m.z);
    TwoParts(data, at + 4, LE32(m.szMalloc), m.z);
  }

  lemma BytesFirst(rs: seq<Record>)
    requires rs != []
    ensures Bytes(rs) == rs[0] + Bytes(rs[1..])
  {
    assert rs == [rs[0]] + rs[1..];
    BytesConcat([rs[0]], rs[1..]);
    BytesOne(rs[0]);
  }

  lemma TwoParts(data: seq<byte>, at: nat, a: seq<byte>, b: seq<byte>)
    requires at + |a + b| <= |data| && data[at..at + |a + b|] == a + b
    ensures data[at..at + |a|] == a && data[at + |a|..at + |a| + |b|] == b
  {
    var all := data[at..at + |a + b|];
    assert all[..|a|] == a && all[|a|..] == b;
    assert data[at..at + |a|] == all[..|a|];
    assert data[at + |a|..at + |a| + |b|] == all[|a|..];
  }

  /** Rows packed one after the other come out again, whatever follows them. */
  lemma {:induction false} UnpackPacked(data: seq<byte>, at: nat, ms: seq<Mem>)
    requires forall i :: 0 <= i < |ms| ==> IsRow(ms[i])
    requires at + |Bytes(Serialized(ms))| <= |data|
    requires data[at..at + |Bytes(Serialized(ms))|] == Bytes(Serialized(ms))
    ensures Unpack(data, at, |ms|) == Some(ms)
    decreases |ms|
  {
    hide Bytes, Serialize, Deserialize;
    if ms != [] {
      var r, rest := Serialize(ms[0]), ms[1..];
      BytesFirst(Serialized(ms));
      assert Serialized(ms)[1..] == Serialized(rest);
      TwoParts(data, at, r, Bytes(Serialized(rest)));
      DeserializeRow(data, at, ms[0]);
      UnpackPacked(data, at + |r|, rest);
      assert ms == [ms[0]] + rest;
    }
  }

  // --------------------------------------------------- a table of packets

  /** The rows that the host has inserted. */
  function Delivered(table: seq<Batch>): Option<seq<Mem>> {
    if table == [] then Some([])
    else match Unpack(table[0].data, 0, table[0].num)
      case None => None
      case Some(ms) =>
        match Delivered(table[1..])
        case None => None
        case Some(rest) => Some(ms + rest)
  }

  /** Packets that carry the groups of a split deliver the rows of the split. */
  lemma {:induction false} DeliveredGroups(table: seq<Batch>, gs: seq<seq<Record>>, ms: seq<Mem>)
    requires forall i :: 0 <= i < |ms| ==> IsRow(ms[i])
    requires |table| == |gs| && forall i :: 0 <= i < |gs| ==> BatchOf(table[i], gs[i])
    requires Joined(gs) == Serialized(ms)
    ensures Delivered(table) == Some(ms)
    decreases |table|
  {
    hide Bytes, Serialize, Unpack, Joined, IsRow;
    if table != [] {
      FirstGroup(gs, ms);
      var head, rest := ms[..|gs[0]|], ms[|gs[0]|..];
      UnpackBatch(table[0], head);
      DeliveredGroups(table[1..], gs[1..], rest);
      assert ms == head + rest;
    } else {
      NoGroups(ms);
    }
  }

  lemma FirstGroup(gs: seq<seq<Record>>, ms: seq<Mem>)
    requires gs != [] && forall i :: 0 <= i < |ms| ==> IsRow(ms[i])
    requires Joined(gs) == Serialized(ms)
    ensures |gs[0]| <= |ms| && gs[0] == Serialized(ms[..|gs[0]|])
    ensures Joined(gs[1..]) == Serialized(ms[|gs[0]|..])
  {
    hide Serialize, IsRow;
    assert Joined(gs)[..|gs[0]|] == gs[0];
    assert Joined(gs)[|gs[0]|..] == Joined(gs[1..]);
  }

  lemma NoGroups(ms: seq<Mem>)
    requires (forall i :: 0 <= i < |ms| ==> IsRow(ms[i])) && Joined([]) == Serialized(ms)
    ensures ms == []
  {
    hide Serialize, IsRow;
    assert |Serialized(ms)| == 0;
  }

  lemma UnpackBatch(b: Batch, ms: seq<Mem>)
    requires (forall i :: 0 <= i < |ms| ==> IsRow(ms[i])) && BatchOf(b, Serialized(ms))
    ensures Unpack(b.data, 0, b.num) == Some(ms)
  {
    hide Bytes, Serialize, Unpack, IsRow;
    var n := |Bytes(Serialized(ms))|;
    assert b.data[0..0 + n] == b.data[..n];
    UnpackPacked(b.data, 0, ms);
  }
}

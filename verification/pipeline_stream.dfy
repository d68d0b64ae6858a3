/** The bytes on the connection. They depend on the rows and on the initial memory
    only, not on the schedule nor on how the calls cut them. */
module PipelineStream {
  import opened Types
  import opened Words
  import opened Packets
  import opened Pipeline
  import opened PipelineInvariant
  import opened PipelineSafety
  import opened PipelineHost

  // ------------------------------------------------------------ the frames

  /** Bytes copied to the front of a buffer. */
  function Put(data: seq<byte>, src: seq<byte>): (r: seq<byte>)
    ensures |r| == |data|
  {
    if |src| <= |data| then src + data[|src|..] else data
  }

  /** serial_data after the packets gs: each leaves its bytes over those before. */
  function DataAfter(data: seq<byte>, gs: seq<seq<Record>>): (r: seq<byte>)
    ensures |r| == |data|
    decreases |gs|
  {
    if gs == [] then data else Put(DataAfter(data, gs[..|gs| - 1]), Bytes(gs[|gs| - 1]))
  }

  /** num_records after the packets gs. */
  function CountAfter(num: nat, gs: seq<seq<Record>>): nat {
    if gs == [] then num else |gs[|gs| - 1]|
  }

  function Frame(kind: nat, num: nat, data: seq<byte>): seq<byte> {
    if kind < UINT32 && num < UINT32 then EncodeFrame(Batch(kind, num, data)) else []
  }

  function PacketFrames(data: seq<byte>, gs: seq<seq<Record>>): seq<seq<byte>>
    decreases |gs|
  {
    if gs == [] then []
    else PacketFrames(data, gs[..|gs| - 1]) + [Frame(REC_PKT, |gs[|gs| - 1]|, DataAfter(data, gs))]
  }

  /** The end packet still has the count and the data of the last packet. */
  function EndFrame(cfg: Config, gs: seq<seq<Record>>): seq<byte> {
    Frame(END_PKT, CountAfter(cfg.numRecords, gs), DataAfter(cfg.serialData, gs))
  }

  /** All frames of a complete run. */
  function AllFrames(cfg: Config): seq<seq<byte>> {
    PacketFrames(cfg.serialData, Greedy(cfg.records)) + [EndFrame(cfg, Greedy(cfg.records))]
  }

  // ------------------------------------------------------------ invariant

  ghost predicate ExactData(cfg: Config, c: Packer) {
    var before := DataAfter(cfg.serialData, c.closed);
    if c.open == [] then c.data == before && c.num == CountAfter(cfg.numRecords, c.closed)
    else |Bytes(c.open)| <= |before| && c.data == Put(before, Bytes(c.open))
  }

  ghost predicate ExactFrames(cfg: Config, c: Packer) {
    c.frames == PacketFrames(cfg.serialData, c.closed) + if Ended(c.pc) then [EndFrame(cfg, c.closed)] else []
  }

  ghost predicate Exact(cfg: Config, c: Packer) { ExactData(cfg, c) && ExactFrames(cfg, c) }

  lemma {:induction false} PutMore(data: seq<byte>, b: seq<byte>, r: seq<byte>)
    requires |b| + |r| <= |data|
    ensures Overwrite(Put(data, b), |b|, r) == Put(data, b + r)
  {
  }

  lemma {:induction false} OneMorePacket(data: seq<byte>, gs: seq<seq<Record>>, g: seq<Record>)
    ensures DataAfter(data, gs + [g]) == Put(DataAfter(data, gs), Bytes(g))
    ensures PacketFrames(data, gs + [g]) == PacketFrames(data, gs) + [Frame(REC_PKT, |g|, DataAfter(data, gs + [g]))]
  {
    hide Bytes, Put, Frame;
    var more := gs + [g];
    assert more[..|more| - 1] == gs;
  }

  lemma {:induction false} ClosePacket(cfg: Config, c: Packer)
    requires Exact(cfg, c) && OpenPacket(c) && c.pc == CClose
    ensures var f := EncodeFrame(Batch(REC_PKT, c.num, c.data));
            Exact(cfg, c.(pc := CSend, rows := c.rows + c.num, closed := c.closed + [c.open], open := [],
                          batch := f, nbuffer := 0, frames := c.frames + [f]))
  {
    hide Bytes, EncodeFrame, Put, DataAfter, PacketFrames, EndFrame;
    OneMorePacket(cfg.serialData, c.closed, c.open);
  }

  lemma {:induction false} CopyRecord(cfg: Config, c: Packer, r: Record)
    requires ExactData(cfg, c) && |cfg.serialData| == PAYLOAD
    requires c.open == [] || |Bytes(c.open)| + |r| <= PAYLOAD
    requires c.open == [] ==> |r| <= PAYLOAD
    ensures var n := if c.open == [] then 0 else |Bytes(c.open)|;
            && n + |r| <= |c.data|
            && var before := DataAfter(cfg.serialData, c.closed);
               |Bytes(c.open + [r])| <= |before| && Overwrite(c.data, n, r) == Put(before, Bytes(c.open + [r]))
  {
    hide Bytes, DataAfter;
    EmptyBytes();
    BytesAppend(c.open, r);
    var before := DataAfter(cfg.serialData, c.closed);
    if c.open == [] {
      assert Overwrite(before, 0, r) == Put(before, r);
      assert [] + r == r;
    } else {
      PutMore(before, Bytes(c.open), r);
    }
  }

  /** The packer moves on with the same packet; inside it the count may change. */
  ghost predicate SamePacket(c: Packer, c': Packer) {
    && c'.data == c.data && c'.open == c.open && c'.closed == c.closed && c'.frames == c.frames
    && (c'.num == c.num || c.pc == CPopFirst) && (Ended(c'.pc) <==> Ended(c.pc))
  }

  lemma {:induction false} SameExact(cfg: Config, c: Packer, c': Packer)
    requires Exact(cfg, c) && SamePacket(c, c') && (c.pc == CPopFirst ==> c.open != [])
    ensures Exact(cfg, c')
  {
    hide DataAfter, PacketFrames, Bytes, Put, EndFrame, CountAfter;
  }

  lemma {:induction false} TestsKeepPacket(cfg: Config, s: State, len: nat)
    requires PackerStep(cfg, s, len).Ran? && Testing(s.c.pc)
    ensures SamePacket(s.c, PackerStep(cfg, s, len).s.c)
  {
    hide Overwrite, EncodeFrame;
  }

  lemma {:induction false} SendsKeepPacket(cfg: Config, s: State, len: nat)
    requires PackerStep(cfg, s, len).Ran? && Sending(s.c.pc)
    ensures SamePacket(s.c, PackerStep(cfg, s, len).s.c)
  {
    hide Overwrite, EncodeFrame;
  }

  lemma {:induction false} PopsKeepPacket(cfg: Config, s: State, len: nat)
    requires PackerStep(cfg, s, len).Ran? && (Copied(s.c.pc) || s.c.pc == CExit)
    ensures SamePacket(s.c, PackerStep(cfg, s, len).s.c)
  {
    hide Overwrite, EncodeFrame;
  }

  /** Steps that neither copy nor build a frame. */
  lemma {:induction false} OtherSteps(cfg: Config, s: State, len: nat)
    requires Exact(cfg, s.c) && PackerStep(cfg, s, len).Ran? && (InPacket(s.c.pc) <==> s.c.open != [])
    requires s.c.pc !in {CFirst, CAdd, CClose, CEnd}
    ensures Exact(cfg, PackerStep(cfg, s, len).s.c)
  {
    hide Exact, PackerStep, SamePacket;
    if Testing(s.c.pc) {
      TestsKeepPacket(cfg, s, len);
    } else if Sending(s.c.pc) {
      SendsKeepPacket(cfg, s, len);
    } else {
      PopsKeepPacket(cfg, s, len);
    }
    SameExact(cfg, s.c, PackerStep(cfg, s, len).s.c);
  }

  lemma {:induction false} CopySteps(cfg: Config, s: State, len: nat)
    requires Exact(cfg, s.c) && OpenPacket(s.c) && |cfg.serialData| == PAYLOAD
    requires PackerStep(cfg, s, len).Ran? && (s.c.pc == CFirst || s.c.pc == CAdd)
    ensures Exact(cfg, PackerStep(cfg, s, len).s.c)
  {
    hide DataAfter, PacketFrames, Bytes, Put, EndFrame, CountAfter, Overwrite;
    var c, r := s.c, s.pcs.Read();
    if c.pc == CFirst {
      CopyRecord(cfg, c, r);
      assert c.open + [r] == [r];
    } else if c.window >= |r| {
      CopyRecord(cfg, c, r);
    }
  }

  lemma {:induction false} FrameSteps(cfg: Config, s: State, len: nat)
    requires Exact(cfg, s.c) && OpenPacket(s.c)
    requires PackerStep(cfg, s, len).Ran? && (s.c.pc == CClose || s.c.pc == CEnd)
    ensures Exact(cfg, PackerStep(cfg, s, len).s.c)
  {
    hide DataAfter, PacketFrames, Bytes, Put, EncodeFrame;
    if s.c.pc == CClose {
      ClosePacket(cfg, s.c);
    } else {
      assert s.c.frames + [] == s.c.frames;
    }
  }

  lemma {:induction false} PackerExact(cfg: Config, s: State, len: nat)
    requires Inv(cfg, s) && WellFormed(cfg) && Exact(cfg, s.c) && PackerStep(cfg, s, len).Ran?
    ensures Exact(cfg, PackerStep(cfg, s, len).s.c)
  {
    hide Inv, PackerInv, Exact, PackerStep, OpenPacket;
    InvParts(cfg, s);
    OpenOf(cfg, s.c, s.m.made, s.pcsDone, s.stream);
    if s.c.pc == CFirst || s.c.pc == CAdd {
      CopySteps(cfg, s, len);
    } else if s.c.pc == CClose || s.c.pc == CEnd {
      FrameSteps(cfg, s, len);
    } else {
      OtherSteps(cfg, s, len);
    }
  }

  lemma OpenOf(cfg: Config, c: Packer, made: nat, done: bool, stream: seq<byte>)
    requires PackerInv(cfg, c, made, done, stream)
    ensures OpenPacket(c) && (InPacket(c.pc) <==> c.open != [])
  {
  }

  /** The other threads leave the packer alone. */
  lemma {:induction false} OthersKeepPacker(cfg: Config, s: State, a: Action)
    requires Step(cfg, s, a).Ran? && !a.StepPacker?
    ensures Step(cfg, s, a).s.c == s.c
  {
    hide Overwrite, DecodeFrame;
  }

  lemma {:induction false} RunExact(cfg: Config, actions: seq<Action>)
    requires WellFormed(cfg) && Run(cfg, actions).Ran?
    ensures Exact(cfg, Run(cfg, actions).s.c)
  {
    hide Inv, Step, Exact, PackerStep;
    if actions == [] {
      StartsExact(cfg);
    } else {
      var n := |actions| - 1;
      var a := actions[n];
      var s := Run(cfg, actions[..n]).s;
      RunExact(cfg, actions[..n]);
      RunSafe(cfg, actions[..n]);
      if a.StepPacker? {
        PackerStepIs(cfg, s, a.len);
        PackerExact(cfg, s, a.len);
      } else {
        OthersKeepPacker(cfg, s, a);
      }
    }
  }

  lemma PackerStepIs(cfg: Config, s: State, len: nat)
    ensures Step(cfg, s, StepPacker(len)) == PackerStep(cfg, s, len)
  {
    hide PackerStep;
  }

  lemma StartsExact(cfg: Config)
    ensures Exact(cfg, Init(cfg).c)
  {
  }

  // -------------------------------------------------------------- result

  lemma {:induction false} FramesPrefix(data: seq<byte>, gs: seq<seq<Record>>, n: nat)
    requires n <= |gs|
    ensures PacketFrames(data, gs[..n]) <= PacketFrames(data, gs)
    decreases |gs|
  {
    hide DataAfter, Frame;
    if n < |gs| {
      var m := |gs| - 1;
      FramesPrefix(data, gs[..m], n);
      assert gs[..m][..n] == gs[..n];
    } else {
      assert gs[..n] == gs;
    }
  }

  lemma {:induction false} WirePrefix(fs: seq<seq<byte>>, n: nat)
    requires n <= |fs|
    ensures Wire(fs[..n]) <= Wire(fs)
    decreases |fs|
  {
    if n < |fs| {
      var m := |fs| - 1;
      WirePrefix(fs[..m], n);
      assert fs[..m][..n] == fs[..n];
    } else {
      assert fs[..n] == fs;
    }
  }

  lemma {:induction false} SentFacts(cfg: Config, s: State)
    requires Inv(cfg, s)
    ensures s.stream <= Wire(s.c.frames)
    ensures s.c.pc == CExit ==> s.stream == Wire(s.c.frames)
    ensures s.c.closed <= Greedy(cfg.records)
    ensures Ended(s.c.pc) ==> s.c.closed == Greedy(cfg.records)
  {
    hide QueryInv, MakerInv, ReceiverInv, SinkInv, FramesInv, OpenPacket, Tested, Bytes, Joined, Wire, RecordsFit;
    var c, rs := s.c, cfg.records;
    FrameSizes(c.frames, c.closed, Ended(c.pc));
    WireLength(c.frames);
    OpenOf(cfg, c, s.m.made, s.pcsDone, s.stream);
    if Ended(c.pc) {
      assert rs[Packed(c)..] == [];
      assert c.closed + [] == c.closed;
    }
  }

  /** At any moment of any interleaving, and however the calls cut them, the bytes
      sent are the first bytes of one fixed stream, and all of them once the packer
      has finished. */
  lemma {:induction false} StreamIsFixed(cfg: Config, actions: seq<Action>)
    requires WellFormed(cfg) && Run(cfg, actions).Ran?
    ensures var s := Run(cfg, actions).s;
            && s.stream <= Wire(AllFrames(cfg))
            && (s.c.pc == CExit ==> s.stream == Wire(AllFrames(cfg)))
  {
    hide Inv, Run, Wire, Greedy, PacketFrames, EndFrame, Bytes, DataAfter;
    RunSafe(cfg, actions);
    RunExact(cfg, actions);
    var s := Run(cfg, actions).s;
    SentFacts(cfg, s);
    var gs, all, n := Greedy(cfg.records), AllFrames(cfg), |s.c.closed|;
    assert s.c.closed == gs[..n];
    FramesPrefix(cfg.serialData, gs, n);
    assert s.c.frames == all[..|s.c.frames|];
    WirePrefix(all, |s.c.frames|);
  }

  lemma {:induction false} PacketFrameAt(data: seq<byte>, gs: seq<seq<Record>>, i: nat)
    requires i < |gs|
    ensures |PacketFrames(data, gs)| == |gs|
    ensures PacketFrames(data, gs)[i] == Frame(REC_PKT, |gs[i]|, Put(DataAfter(data, gs[..i]), Bytes(gs[i])))
    decreases |gs|
  {
    hide Frame, Bytes, Put;
    var m := |gs| - 1;
    if i < m {
      PacketFrameAt(data, gs[..m], i);
      assert gs[..m][..i] == gs[..i];
    } else {
      NoOfFrames(data, gs[..m]);
    }
  }

  lemma {:induction false} NoOfFrames(data: seq<byte>, gs: seq<seq<Record>>)
    ensures |PacketFrames(data, gs)| == |gs|
    decreases |gs|
  {
    hide Frame, DataAfter;
    if gs != [] { NoOfFrames(data, gs[..|gs| - 1]); }
  }

  lemma KindBytes()
    ensures LE32(REC_PKT) == [0, 0, 0, 0] && LE32(END_PKT) == [2, 0, 0, 0]
  {
  }

  lemma {:induction false} GroupFits(cfg: Config, i: nat)
    requires WellFormed(cfg) && RecordsFit(cfg.records) && i < |Greedy(cfg.records)|
    ensures |Bytes(Greedy(cfg.records)[i])| <= PAYLOAD
    ensures |Greedy(cfg.records)[i]| < UINT32
  {
    hide Bytes, GreedyFrom, Joined;
    var gs := Greedy(cfg.records);
    EmptyBytes();
    GreedyIsSplit([], cfg.records);
    assert [] + cfg.records == cfg.records;
    assert gs == gs[..i] + ([gs[i]] + gs[i + 1..]);
    JoinedConcat(gs[..i], [gs[i]] + gs[i + 1..]);
    JoinedConcat([gs[i]], gs[i + 1..]);
    JoinedOne(gs[i]);
  }

  /** Frame i of that stream: one mebibyte, with kind 0, the number of records and
      their bytes for packet i of the greedy split, and kind 2 at the end. */
  lemma {:induction false} StreamLayout(cfg: Config, i: nat)
    requires WellFormed(cfg) && RecordsFit(cfg.records) && i <= |Greedy(cfg.records)|
    ensures |AllFrames(cfg)| == |Greedy(cfg.records)| + 1
    ensures i < |Greedy(cfg.records)| ==> |Greedy(cfg.records)[i]| < UINT32
    ensures var (f, gs) := (AllFrames(cfg)[i], Greedy(cfg.records));
            && |f| == 1048576
            && f[..4] == (if i < |gs| then [0, 0, 0, 0] else [2, 0, 0, 0])
            && (i < |gs| ==>
                  && f[4..8] == LE32(|gs[i]|)
                  && 8 + |Bytes(gs[i])| <= 1048576 && f[8..8 + |Bytes(gs[i])|] == Bytes(gs[i]))
            && (i == |gs| && i > 0 ==> f[4..] == AllFrames(cfg)[i - 1][4..])
  {
    hide Bytes, DataAfter, PacketFrames, Greedy, EncodeFrame, LE32;
    var data, gs := cfg.serialData, Greedy(cfg.records);
    NoOfFrames(data, gs);
    KindBytes();
    if i < |gs| {
      PacketLayout(cfg, gs, i);
    } else {
      EndLayout(cfg, gs);
    }
  }

  lemma {:induction false} PacketLayout(cfg: Config, gs: seq<seq<Record>>, i: nat)
    requires WellFormed(cfg) && RecordsFit(cfg.records) && gs == Greedy(cfg.records) && i < |gs|
    ensures |PacketFrames(cfg.serialData, gs)| == |gs| && |gs[i]| < UINT32
    ensures var f := PacketFrames(cfg.serialData, gs)[i];
            && |f| == RECV_BUF_SIZE && f[..4] == LE32(REC_PKT) && f[4..8] == LE32(|gs[i]|)
            && 8 + |Bytes(gs[i])| <= RECV_BUF_SIZE && f[8..8 + |Bytes(gs[i])|] == Bytes(gs[i])
            && f[8..] == DataAfter(cfg.serialData, gs[..i + 1])
  {
    hide Bytes, PacketFrames, Greedy, EncodeFrame, LE32;
    var data := DataAfter(cfg.serialData, gs[..i]);
    PacketFrameAt(cfg.serialData, gs, i);
    GroupFits(cfg, i);
    assert gs[..i + 1][..i] == gs[..i];
    var d := Put(data, Bytes(gs[i]));
    FrameLayout(Batch(REC_PKT, |gs[i]|, d));
    assert d[..|Bytes(gs[i])|] == Bytes(gs[i]);
    var f := EncodeFrame(Batch(REC_PKT, |gs[i]|, d));
    assert f[8..8 + |Bytes(gs[i])|] == f[8..][..|Bytes(gs[i])|];
  }

  lemma {:induction false} EndLayout(cfg: Config, gs: seq<seq<Record>>)
    requires WellFormed(cfg) && RecordsFit(cfg.records) && gs == Greedy(cfg.records)
    ensures |PacketFrames(cfg.serialData, gs)| == |gs|
    ensures var f := EndFrame(cfg, gs);
            && |f| == RECV_BUF_SIZE && f[..4] == LE32(END_PKT)
            && (gs != [] ==> f[4..] == PacketFrames(cfg.serialData, gs)[|gs| - 1][4..])
  {
    hide Bytes, PacketFrames, Greedy, EncodeFrame, LE32, DataAfter;
    NoOfFrames(cfg.serialData, gs);
    var d, n := DataAfter(cfg.serialData, gs), |gs| - 1;
    if gs != [] {
      GroupFits(cfg, n);
      PacketLayout(cfg, gs, n);
      assert gs[..n + 1] == gs;
      var p := PacketFrames(cfg.serialData, gs)[n];
      assert p[4..] == p[4..8] + p[8..];
    }
    FrameLayout(Batch(END_PKT, CountAfter(cfg.numRecords, gs), d));
    var f := EndFrame(cfg, gs);
    assert f[4..] == f[4..8] + f[8..];
  }
}

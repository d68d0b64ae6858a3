/** Every step of every thread keeps the invariant and stays within memory. */
module PipelineSafety {
  import opened Types
  import opened Words
  import opened Rings
  import opened Packets
  import opened Pipeline
  import opened PipelineInvariant

  // -------------------------------------------------------------- query

  lemma {:induction false} QueryKeeps(cfg: Config, s: State)
    requires Inv(cfg, s)
    ensures QueryStep(cfg, s) != Fault
    ensures QueryStep(cfg, s).Ran? ==> Inv(cfg, QueryStep(cfg, s).s)
  {
    hide PackerInv, ReceiverInv, SinkInv, Ring.Holds, Ring.Slot, Ring.Full;
    var q, mk, taken := s.q, s.mk, s.m.taken;
    HoldsShape(mk, Rows(q.next), taken);
    FullExact(mk, Rows(q.next), taken);
    if q.pc == QWrite {
      WriteKeeps(mk, Rows(q.next), taken, q.next);
    } else if q.pc == QInc {
      PushIsAppend(mk, Rows(q.next), taken, q.next);
      assert Rows(q.next) + [q.next] == Rows(q.next + 1);
    }
  }

  lemma HoldsShape<T>(r: Ring<T>, pushed: seq<T>, popped: nat)
    requires r.Holds(pushed, popped)
    ensures r.Shape() && popped <= |pushed| <= popped + r.Size()
  {
  }

  // -------------------------------------------------------------- maker

  ghost predicate MakerOk(cfg: Config, s: State) {
    && MakerStep(cfg, s) != Fault
    && (MakerStep(cfg, s).Ran? ==> Inv(cfg, MakerStep(cfg, s).s))
  }

  lemma {:induction false} MakerKeeps(cfg: Config, s: State)
    requires Inv(cfg, s)
    ensures MakerOk(cfg, s)
  {
    hide Inv, MakerOk;
    if s.m.pc == MRead || s.m.pc == MPop {
      MakerTakes(cfg, s);
    } else if s.m.pc == MPut {
      MakerWrites(cfg, s);
    } else if s.m.pc == MPush {
      MakerPushes(cfg, s);
    } else {
      MakerTests(cfg, s);
    }
  }

  /** More records made, or the end announced: nothing the packer relies on. */
  lemma {:induction false} PackerSeesMaker(cfg: Config, c: Packer, made: nat, done: bool, stream: seq<byte>, made': nat, done': bool)
    requires PackerInv(cfg, c, made, done, stream) && made <= made' && (done ==> done')
    ensures PackerInv(cfg, c, made', done', stream)
  {
    hide OpenPacket, GreedySoFar, FramesInv, SentInv;
  }

  lemma {:induction false} MakerTests(cfg: Config, s: State)
    requires Inv(cfg, s) && s.m.pc !in {MRead, MPop, MPut, MPush}
    ensures MakerOk(cfg, s)
  {
    hide ReceiverInv, SinkInv, PackerInv, Ring.Holds, Ring.Slot, Ring.Full, Ring.Empty;
    var m, rs := s.m, cfg.records;
    HoldsShape(s.mk, Rows(s.q.next), m.taken);
    HoldsShape(s.pcs, rs[..m.made], s.c.taken);
    EmptyExact(s.mk, Rows(s.q.next), m.taken);
    FullExact(s.pcs, rs[..m.made], s.c.taken);
    PackerSeesMaker(cfg, s.c, m.made, s.pcsDone, s.stream, m.made, true);
  }

  lemma {:induction false} MakerTakes(cfg: Config, s: State)
    requires Inv(cfg, s) && (s.m.pc == MRead || s.m.pc == MPop)
    ensures MakerOk(cfg, s)
  {
    hide ReceiverInv, SinkInv, PackerInv, Ring.Holds, Ring.Slot, Ring.Read;
    HoldsShape(s.mk, Rows(s.q.next), s.m.taken);
    HoldsShape(s.pcs, cfg.records[..s.m.made], s.c.taken);
    if s.m.pc == MRead {
      ReadIsFirst(s.mk, Rows(s.q.next), s.m.taken);
    } else {
      MakerPops(cfg, s);
    }
  }

  lemma {:induction false} MakerWrites(cfg: Config, s: State)
    requires Inv(cfg, s) && s.m.pc == MPut
    ensures MakerOk(cfg, s)
  {
    hide ReceiverInv, SinkInv, PackerInv, QueryInv, Ring.Holds, Ring.Slot;
    var m, rs := s.m, cfg.records;
    QueryShape(cfg, s);
    HoldsShape(s.pcs, rs[..m.made], s.c.taken);
    WriteKeeps(s.pcs, rs[..m.made], s.c.taken, rs[m.made]);
  }

  lemma {:induction false} MakerPushes(cfg: Config, s: State)
    requires Inv(cfg, s) && s.m.pc == MPush
    ensures MakerOk(cfg, s)
  {
    hide ReceiverInv, SinkInv, PackerInv, QueryInv, Ring.Holds, Ring.Slot;
    var m, rs := s.m, cfg.records;
    QueryShape(cfg, s);
    HoldsShape(s.pcs, rs[..m.made], s.c.taken);
    PushIsAppend(s.pcs, rs[..m.made], s.c.taken, rs[m.made]);
    assert rs[..m.made] + [rs[m.made]] == rs[..m.made + 1];
    PackerSeesMaker(cfg, s.c, m.made, s.pcsDone, s.stream, m.made + 1, s.pcsDone);
  }

  lemma QueryShape(cfg: Config, s: State)
    requires QueryInv(cfg, s.q, s.mk, s.mkDone, s.m.taken)
    ensures s.mk.Shape()
  {
  }

  lemma {:induction false} MakerPops(cfg: Config, s: State)
    requires QueryInv(cfg, s.q, s.mk, s.mkDone, s.m.taken) && s.m.taken < s.q.next
    ensures QueryInv(cfg, s.q, s.mk.IncHead(), s.mkDone, s.m.taken + 1)
  {
    hide Ring.Holds;
    PopAdvances(s.mk, Rows(s.q.next), s.m.taken);
  }

  // ------------------------------------------------------------- packer

  /** The packer's step as a lemma for the groups of program points below. */
  ghost predicate PackerOk(cfg: Config, s: State, len: nat) {
    && PackerStep(cfg, s, len) != Fault
    && (PackerStep(cfg, s, len).Ran? ==> Inv(cfg, PackerStep(cfg, s, len).s))
  }

  predicate Testing(pc: PackerPc) {
    pc == CWait || pc == CDone || pc == CEmpty || pc == COpen
    || pc == CMore || pc == CMoreDone || pc == CMoreEmpty || pc == CNext
  }

  /** Where the packer goes from a test, given whether its queue is empty. */
  function AfterTest(pc: PackerPc, empty: bool, done: bool): PackerPc
    requires Testing(pc)
  {
    match pc
    case CWait => CDone
    case CDone => if done then CEmpty else COpen
    case CEmpty => if empty then CEnd else COpen
    case COpen => CFirst
    case CMore => CMoreDone
    case CMoreDone => if done then CMoreEmpty else CNext
    case CMoreEmpty => if empty then CClose else CNext
    case CNext => CAdd
  }

  /** A test that lets the packer go on. Once done is seen, nothing is made any
      more, so an empty queue means that the stream has ended. */
  lemma {:induction false} TestKeeps(cfg: Config, c: Packer, made: nat, done: bool, stream: seq<byte>)
    requires PackerInv(cfg, c, made, done, stream) && Testing(c.pc)
    requires done ==> made == |cfg.records|
    requires c.pc == COpen || c.pc == CNext ==> c.taken < made
    requires c.pc == CWait || c.pc == CMore ==> c.taken < made || done
    ensures var to := AfterTest(c.pc, c.taken == made, done);
            PackerInv(cfg, if to == CFirst then c.(pc := to, window := PAYLOAD) else c.(pc := to), made, done, stream)
  {
    hide FramesInv, SentInv, Greedy, GreedyFrom, Bytes, Joined, RecordsFit;
    if c.pc == CMoreEmpty && c.taken == made {
      CloseAtEnd(c.open, cfg.records[Packed(c)..]);
    }
  }

  /** The tests of done and of emptiness. */
  lemma {:induction false} PackerTests(cfg: Config, s: State, len: nat)
    requires Inv(cfg, s) && Testing(s.c.pc)
    ensures PackerOk(cfg, s, len)
  {
    hide PackerInv, QueryInv, ReceiverInv, SinkInv, Ring.Holds, Ring.Slot, Ring.Full, Ring.Empty;
    var c, rs := s.c, cfg.records;
    MadeIsHeld(cfg, s);
    HoldsShape(s.pcs, rs[..s.m.made], c.taken);
    EmptyExact(s.pcs, rs[..s.m.made], c.taken);
    if PackerStep(cfg, s, len).Ran? {
      PackerTested(cfg, c, s.m.made, s.pcsDone, s.stream);
      TestKeeps(cfg, c, s.m.made, s.pcsDone, s.stream);
    }
  }

  lemma PackerTested(cfg: Config, c: Packer, made: nat, done: bool, stream: seq<byte>)
    requires PackerInv(cfg, c, made, done, stream)
    ensures c.taken <= made && Tested(c, made, done)
  {
  }

  lemma CloseAtEnd(open: seq<Record>, rest: seq<Record>)
    requires rest == [] && open != []
    ensures GreedyFrom(open, rest) == [open] + GreedyFrom([], rest)
  {
  }

  lemma CloseWhenFull(open: seq<Record>, rest: seq<Record>)
    requires rest != [] && open != [] && |Bytes(open)| + |rest[0]| > PAYLOAD
    ensures GreedyFrom(open, rest) == [open] + GreedyFrom([], rest)
  {
    assert [] + [rest[0]] == [rest[0]];
  }

  lemma KeepFilling(open: seq<Record>, rest: seq<Record>)
    requires rest != [] && (open == [] || |Bytes(open)| + |rest[0]| <= PAYLOAD)
    ensures GreedyFrom(open, rest) == GreedyFrom(open + [rest[0]], rest[1..])
  {
  }

  /** One more record in the packet. */
  lemma {:induction false} PutRecord(cfg: Config, c: Packer, r: Record)
    requires c.taken < |cfg.records| && r == cfg.records[c.taken]
    requires GreedySoFar(cfg, c) && Packed(c) == c.taken && |r| <= PAYLOAD
    requires c.open == [] || |Bytes(c.open)| + |r| <= PAYLOAD
    ensures var rs, n, open' := cfg.records, c.taken + 1, c.open + [r];
            && RecordsFit(rs[..n])
            && rs[..n] == Joined(c.closed) + open'
            && Greedy(rs) == c.closed + GreedyFrom(open', rs[n..])
            && Bytes(open') == Bytes(c.open) + r
  {
    hide Greedy, GreedyFrom, Bytes, Joined;
    var rs, n := cfg.records, c.taken;
    assert rs[n..][0] == r && rs[n..][1..] == rs[n + 1..];
    KeepFilling(c.open, rs[n..]);
    BytesAppend(c.open, r);
    assert rs[..n + 1] == rs[..n] + [r];
    assert Joined(c.closed) + c.open + [r] == Joined(c.closed) + (c.open + [r]);
  }

  lemma {:induction false} FirstKeeps(cfg: Config, c: Packer, r: Record, made: nat, done: bool, stream: seq<byte>)
    requires PackerInv(cfg, c, made, done, stream) && c.pc == CFirst
    requires made <= |cfg.records| && r == cfg.records[c.taken] && |r| <= PAYLOAD
    ensures var c' := c.(pc := CPopFirst, sbytes := |r|, data := Overwrite(c.data, 0, r), open := [r]);
            PackerInv(cfg, c', made, done, stream)
  {
    hide FramesInv, SentInv, Greedy, GreedyFrom, Bytes, Joined;
    EmptyBytes();
    PutRecord(cfg, c, r);
    assert c.open + [r] == [r];
    assert Overwrite(c.data, 0, r)[..|r|] == r;
  }

  lemma Overwritten(data: seq<byte>, n: nat, r: seq<byte>)
    requires n + |r| <= |data|
    ensures |Overwrite(data, n, r)| == |data| && Overwrite(data, n, r)[..n + |r|] == data[..n] + r
  {
  }

  lemma {:induction false} AddKeeps(cfg: Config, c: Packer, r: Record, made: nat, done: bool, stream: seq<byte>)
    requires PackerInv(cfg, c, made, done, stream) && c.pc == CAdd
    requires made <= |cfg.records| && r == cfg.records[c.taken] && |r| <= c.window
    ensures c.sbytes + |r| <= |c.data|
    ensures var c' := c.(pc := CPopNext, data := Overwrite(c.data, c.sbytes, r), num := c.num + 1,
                         sbytes := c.sbytes + |r|, window := c.window - |r|, open := c.open + [r]);
            |cfg.records| < UINT32 ==> PackerInv(cfg, c', made, done, stream)
  {
    hide FramesInv, SentInv, GreedySoFar;
    AddOpens(cfg, c, r);
    AddGreedily(cfg, c, r);
  }

  lemma {:induction false} AddOpens(cfg: Config, c: Packer, r: Record)
    requires OpenPacket(c) && GreedySoFar(cfg, c) && c.pc == CAdd && |r| <= c.window
    ensures c.sbytes + |r| <= |c.data|
    ensures |Bytes(c.open)| + |r| <= PAYLOAD && |r| <= PAYLOAD
    ensures var c' := c.(pc := CPopNext, data := Overwrite(c.data, c.sbytes, r), num := c.num + 1,
                         sbytes := c.sbytes + |r|, window := c.window - |r|, open := c.open + [r]);
            |cfg.records| < UINT32 && c.taken < |cfg.records| ==> OpenPacket(c')
  {
    hide Greedy, GreedyFrom, Bytes, Joined, RecordsFit;
    BytesAppend(c.open, r);
    Overwritten(c.data, c.sbytes, r);
    assert |c.open| <= |cfg.records[..c.taken]|;
  }

  lemma {:induction false} AddGreedily(cfg: Config, c: Packer, r: Record)
    requires GreedySoFar(cfg, c) && c.pc == CAdd && c.taken < |cfg.records| && r == cfg.records[c.taken]
    requires |Bytes(c.open)| + |r| <= PAYLOAD && c.sbytes + |r| <= |c.data|
    ensures var c' := c.(pc := CPopNext, data := Overwrite(c.data, c.sbytes, r), num := c.num + 1,
                         sbytes := c.sbytes + |r|, window := c.window - |r|, open := c.open + [r]);
            GreedySoFar(cfg, c')
  {
    hide Greedy, GreedyFrom, Bytes, Joined, RecordsFit, Overwrite;
    PutRecord(cfg, c, r);
  }

  lemma {:induction false} FullKeeps(cfg: Config, c: Packer, r: Record, made: nat, done: bool, stream: seq<byte>)
    requires PackerInv(cfg, c, made, done, stream) && c.pc == CAdd
    requires made <= |cfg.records| && r == cfg.records[c.taken] && |r| > c.window
    ensures PackerInv(cfg, c.(pc := CClose), made, done, stream)
  {
    hide FramesInv, SentInv, Greedy, GreedyFrom, Bytes, Joined;
    assert cfg.records[Packed(c)..][0] == r;
    CloseWhenFull(c.open, cfg.records[Packed(c)..]);
  }

  /** Copying the first record of a packet, or a further one that fits. The copy
      of a first record stays in the buffer only if the record fits a packet. */
  lemma {:induction false} PackerCopies(cfg: Config, s: State, len: nat)
    requires Inv(cfg, s) && (s.c.pc == CFirst || s.c.pc == CAdd) && |cfg.records| < UINT32
    requires s.c.pc == CFirst && s.c.taken < |cfg.records| ==> |cfg.records[s.c.taken]| <= PAYLOAD
    ensures PackerOk(cfg, s, len)
  {
    hide Inv, PackerInv, Ring.Read, Ring.Shape, Overwrite;
    var c, rs := s.c, cfg.records;
    NextRecord(cfg, s);
    var r := rs[c.taken];
    if c.pc == CFirst {
      FirstKeeps(cfg, c, r, s.m.made, s.pcsDone, s.stream);
    } else if c.window >= |r| {
      AddKeeps(cfg, c, r, s.m.made, s.pcsDone, s.stream);
    } else {
      FullKeeps(cfg, c, r, s.m.made, s.pcsDone, s.stream);
    }
    var s' := PackerStep(cfg, s, len).s;
    PackerMoved(cfg, s, s'.c, s'.stream);
  }

  /** The record at the head of the queue is the next one of the query. */
  lemma {:induction false} NextRecord(cfg: Config, s: State)
    requires Inv(cfg, s) && (s.c.pc == CFirst || s.c.pc == CAdd)
    ensures s.pcs.Shape() && s.c.taken < s.m.made <= |cfg.records|
    ensures s.pcs.Read() == cfg.records[s.c.taken]
    ensures |s.c.data| == PAYLOAD && PackerInv(cfg, s.c, s.m.made, s.pcsDone, s.stream)
  {
    hide MakerInv, PackerInv, QueryInv, ReceiverInv, SinkInv, Ring.Holds;
    MadeIsHeld(cfg, s);
    PackerTested(cfg, s.c, s.m.made, s.pcsDone, s.stream);
    ReadIsFirst(s.pcs, cfg.records[..s.m.made], s.c.taken);
    BufferSize(cfg, s.c, s.m.made, s.pcsDone, s.stream);
  }

  lemma BufferSize(cfg: Config, c: Packer, made: nat, done: bool, stream: seq<byte>)
    requires PackerInv(cfg, c, made, done, stream)
    ensures |c.data| == PAYLOAD
  {
  }

  lemma EmptyBytes()
    ensures Bytes([]) == []
  {
  }

  lemma {:induction false} MadeIsHeld(cfg: Config, s: State)
    requires MakerInv(cfg, s.m, s.q.next, s.mkDone, s.pcs, s.pcsDone, s.c.taken)
    ensures s.m.made <= |cfg.records|
    ensures s.pcs.Holds(cfg.records[..s.m.made], s.c.taken) && s.pcs.Shape()
  {
  }

  lemma {:induction false} PopKeeps(cfg: Config, c: Packer, made: nat, done: bool, stream: seq<byte>)
    requires PackerInv(cfg, c, made, done, stream) && Copied(c.pc)
    ensures var c' := if c.pc == CPopFirst
                      then c.(pc := CMore, num := 1, window := c.window - c.sbytes, taken := c.taken + 1)
                      else c.(pc := CMore, taken := c.taken + 1);
            PackerInv(cfg, c', made, done, stream)
  {
    hide FramesInv, SentInv, Greedy, GreedyFrom, Bytes, Joined;
  }

  lemma {:induction false} PopKeepsMaker(cfg: Config, s: State)
    requires MakerInv(cfg, s.m, s.q.next, s.mkDone, s.pcs, s.pcsDone, s.c.taken)
    requires s.c.taken < s.m.made
    ensures MakerInv(cfg, s.m, s.q.next, s.mkDone, s.pcs.IncHead(), s.pcsDone, s.c.taken + 1)
  {
    hide Ring.Holds, Ring.Slot;
    PopAdvances(s.pcs, cfg.records[..s.m.made], s.c.taken);
    HeadOnly(s.pcs);
  }

  /** Advancing the head over a record that has been copied. */
  lemma {:induction false} PackerPops(cfg: Config, s: State, len: nat)
    requires Inv(cfg, s) && Copied(s.c.pc)
    ensures PackerOk(cfg, s, len)
  {
    hide MakerInv, PackerInv, QueryInv, ReceiverInv, SinkInv;
    MadeIsHeld(cfg, s);
    PackerTested(cfg, s.c, s.m.made, s.pcsDone, s.stream);
    PopKeeps(cfg, s.c, s.m.made, s.pcsDone, s.stream);
    PopKeepsMaker(cfg, s);
  }

  lemma HeadOnly<T>(r: Ring<T>)
    ensures r.IncHead().pool == r.pool && r.IncHead().tail == r.tail && r.IncHead().bits == r.bits
    ensures r.IncHead().Slot(r.tail) == r.Slot(r.tail) && r.IncHead().Size() == r.Size()
  {
  }

  // ------------------------------------------------------------- frames

  lemma {:induction false} FrameRoundTrip(b: Batch)
    requires b.kind < UINT32 && b.num < UINT32
    ensures |EncodeFrame(b)| == 8 + |b.data| && DecodeFrame(EncodeFrame(b)) == b
  {
    hide LE32, FromLE32;
    var f := EncodeFrame(b);
    LE32RoundTrip(b.kind);
    LE32RoundTrip(b.num);
    assert f[..4] == LE32(b.kind) && f[4..8] == LE32(b.num) && f[8..] == b.data;
  }

  /** A frame is the kind, the number of records, and the data. */
  lemma {:induction false} FrameLayout(b: Batch)
    requires b.kind < UINT32 && b.num < UINT32
    ensures var f := EncodeFrame(b);
            |f| == 8 + |b.data| && f[..4] == LE32(b.kind) && f[4..8] == LE32(b.num) && f[8..] == b.data
  {
    hide LE32;
  }

  lemma {:induction false} WireLength(fs: seq<seq<byte>>)
    requires forall i :: 0 <= i < |fs| ==> |fs[i]| == RECV_BUF_SIZE
    ensures |Wire(fs)| == |fs| * RECV_BUF_SIZE
  {
    if fs != [] { WireLength(fs[..|fs| - 1]); }
  }

  /** Frame i is found where it belongs on the wire. */
  lemma {:induction false} WireSlice(fs: seq<seq<byte>>, i: nat)
    requires forall j :: 0 <= j < |fs| ==> |fs[j]| == RECV_BUF_SIZE
    requires i < |fs|
    ensures |Wire(fs)| == |fs| * RECV_BUF_SIZE
    ensures Wire(fs)[i * RECV_BUF_SIZE..i * RECV_BUF_SIZE + RECV_BUF_SIZE] == fs[i]
    decreases |fs|
  {
    var n := |fs| - 1;
    WireLength(fs);
    WireLength(fs[..n]);
    if i < n { WireSlice(fs[..n], i); }
  }

  lemma {:induction false} WireAppend(fs: seq<seq<byte>>, f: seq<byte>)
    ensures Wire(fs + [f]) == Wire(fs) + f
  {
    assert (fs + [f])[..|fs|] == fs;
  }

  lemma FrameSizes(frames: seq<seq<byte>>, closed: seq<seq<Record>>, ended: bool)
    requires FramesInv(frames, closed, ended)
    ensures forall i :: 0 <= i < |frames| ==> |frames[i]| == RECV_BUF_SIZE
  {
    forall i | 0 <= i < |frames| ensures |frames[i]| == RECV_BUF_SIZE {
      if i < |closed| { assert Carries(frames[i], closed[i]); }
    }
  }

  /** Adding a frame to the list, before any of its bytes are sent. */
  lemma {:induction false} NewFrame(frames: seq<seq<byte>>, sent: nat, stream: seq<byte>, f: seq<byte>, b: seq<byte>, n: nat)
    requires SentInv(frames, sent, stream, false, b, n)
    ensures SentInv(frames + [f], sent, stream, true, f, 0)
  {
    hide Wire;
    WireAppend(frames, f);
  }

  lemma {:induction false} ClosedFrames(frames: seq<seq<byte>>, closed: seq<seq<Record>>, f: seq<byte>, g: seq<Record>)
    requires FramesInv(frames, closed, false) && Carries(f, g)
    ensures FramesInv(frames + [f], closed + [g], false)
  {
    hide Carries;
  }

  lemma {:induction false} CloseKeeps(cfg: Config, c: Packer, made: nat, done: bool, stream: seq<byte>)
    requires PackerInv(cfg, c, made, done, stream) && c.pc == CClose
    ensures var f := EncodeFrame(Batch(REC_PKT, c.num, c.data));
            var c' := c.(pc := CSend, rows := c.rows + c.num, closed := c.closed + [c.open], open := [],
                         batch := f, nbuffer := 0, frames := c.frames + [f]);
            PackerInv(cfg, c', made, done, stream)
  {
    hide FramesInv, SentInv, Greedy, GreedyFrom, Bytes, Joined, LE32, FromLE32;
    var b := Batch(REC_PKT, c.num, c.data);
    var f := EncodeFrame(b);
    FrameRoundTrip(b);
    assert Carries(f, c.open);
    ClosedFrames(c.frames, c.closed, f, c.open);
    NewFrame(c.frames, c.packetsSent, stream, f, c.batch, c.nbuffer);
    JoinedConcat(c.closed, [c.open]);
    JoinedOne(c.open);
    var rest := GreedyFrom([], cfg.records[Packed(c)..]);
    assert c.closed + ([c.open] + rest) == (c.closed + [c.open]) + rest;
    assert Joined(c.closed) + c.open + [] == Joined(c.closed) + c.open;
  }

  lemma JoinedOne(g: seq<Record>)
    ensures Joined([g]) == g
  {
    assert [g][1..] == [];
  }

  lemma {:induction false} EndKeeps(cfg: Config, c: Packer, made: nat, done: bool, stream: seq<byte>)
    requires PackerInv(cfg, c, made, done, stream) && c.pc == CEnd
    ensures var f := EncodeFrame(Batch(END_PKT, c.num, c.data));
            PackerInv(cfg, c.(pc := CSendEnd, batch := f, nbuffer := 0, frames := c.frames + [f]), made, done, stream)
  {
    hide SentInv, Greedy, GreedyFrom, Bytes, Joined, LE32, FromLE32, Carries;
    var b := Batch(END_PKT, c.num, c.data);
    FrameRoundTrip(b);
    NewFrame(c.frames, c.packetsSent, stream, EncodeFrame(b), c.batch, c.nbuffer);
  }

  /** Bytes of the current frame appended to the stream. */
  lemma {:induction false} SendBytes(frames: seq<seq<byte>>, sent: nat, stream: seq<byte>, batch: seq<byte>, n: nat, len: nat)
    requires SentInv(frames, sent, stream, true, batch, n)
    requires forall i :: 0 <= i < |frames| ==> |frames[i]| == RECV_BUF_SIZE
    requires 0 < len <= RECV_BUF_SIZE - n
    ensures |batch| == RECV_BUF_SIZE
    ensures var stream' := stream + batch[n..n + len];
            if n + len < RECV_BUF_SIZE then SentInv(frames, sent, stream', true, batch, n + len)
            else SentInv(frames, sent + 1, stream', false, batch, 0)
  {
    var last := |frames| - 1;
    WireLength(frames[..last]);
    assert Wire(frames) == Wire(frames[..last]) + batch;
    assert stream == Wire(frames[..last]) + batch[..n];
    assert stream + batch[n..n + len] == Wire(frames[..last]) + batch[..n + len];
  }

  lemma {:induction false} SendKeeps(cfg: Config, c: Packer, made: nat, done: bool, stream: seq<byte>, len: nat)
    requires PackerInv(cfg, c, made, done, stream) && Sending(c.pc)
    requires 0 < len <= RECV_BUF_SIZE - c.nbuffer
    ensures c.nbuffer + len <= |c.batch|
    ensures var c' := if c.nbuffer + len < RECV_BUF_SIZE then c.(nbuffer := c.nbuffer + len)
                      else c.(pc := if c.pc == CSend then CWait else CExit, nbuffer := 0,
                              packetsSent := c.packetsSent + 1);
            PackerInv(cfg, c', made, done, stream + c.batch[c.nbuffer..c.nbuffer + len])
  {
    hide FramesInv, SentInv, OpenPacket, GreedySoFar, Tested;
    FrameSizes(c.frames, c.closed, Ended(c.pc));
    SendBytes(c.frames, c.packetsSent, stream, c.batch, c.nbuffer, len);
    SentAlready(cfg, c, made, done, c.nbuffer + len, c.packetsSent, c.pc);
    SentAlready(cfg, c, made, done, 0, c.packetsSent + 1, if c.pc == CSend then CWait else CExit);
  }

  /** The packets do not depend on how much has been sent. */
  lemma {:induction false} SentAlready(cfg: Config, c: Packer, made: nat, done: bool, n: nat, sent: nat, to: PackerPc)
    requires Sending(c.pc) && (to == c.pc || to == if c.pc == CSend then CWait else CExit)
    requires Tested(c, made, done) && OpenPacket(c) && GreedySoFar(cfg, c)
    ensures var c' := c.(pc := to, nbuffer := n, packetsSent := sent);
            Tested(c', made, done) && OpenPacket(c') && GreedySoFar(cfg, c')
  {
    hide Greedy, GreedyFrom, Bytes, Joined, RecordsFit;
  }

  // ----------------------------------------- the host sees the stream grow

  /** More frames, more packets and more bytes do not disturb the receiver. */
  lemma {:induction false} ReceiverFrame(h: Receiver, stream: seq<byte>, frames: seq<seq<byte>>, closed: nat,
                                         ring: Ring<Batch>, taken: nat,
                                         stream': seq<byte>, frames': seq<seq<byte>>, closed': nat)
    requires ReceiverInv(h, stream, frames, closed, ring, taken)
    requires stream <= stream' && frames <= frames' && closed <= closed'
    requires closed < closed' ==> |frames| == closed
    requires forall i :: 0 <= i < |frames'| ==> |frames'[i]| >= 8
    ensures ReceiverInv(h, stream', frames', closed', ring, taken)
  {
    hide Ring.Holds, Ring.Slot, DecodeFrame;
    assert frames[..h.frames] == frames'[..h.frames];
    if h.pc == HRecv {
      assert stream[h.frames * RECV_BUF_SIZE..h.rcvd] == stream'[h.frames * RECV_BUF_SIZE..h.rcvd];
    }
  }

  lemma {:induction false} SinkFrame(k: Sink, queued: nat, frames: seq<seq<byte>>, closed: nat,
                                     frames': seq<seq<byte>>, closed': nat)
    requires SinkInv(k, queued, frames, closed)
    requires frames <= frames' && closed <= closed'
    requires closed < closed' ==> |frames| == closed
    requires forall i :: 0 <= i < |frames'| ==> |frames'[i]| >= 8
    ensures SinkInv(k, queued, frames', closed')
  {
    hide DecodeFrame;
    var n := k.taken - (if k.pc == KUse || k.pc == KExit then 1 else 0);
    assert frames[..n] == frames'[..n];
  }

  lemma {:induction false} FramesOf(cfg: Config, c: Packer, made: nat, done: bool, stream: seq<byte>)
    requires PackerInv(cfg, c, made, done, stream)
    ensures FramesInv(c.frames, c.closed, Ended(c.pc))
    ensures SentInv(c.frames, c.packetsSent, stream, Sending(c.pc), c.batch, c.nbuffer)
    ensures c.num < UINT32
  {
  }

  /** A packer that keeps its own invariant and only adds to what the host sees. */
  lemma {:induction false} PackerMoved(cfg: Config, s: State, c': Packer, stream': seq<byte>)
    requires Inv(cfg, s) && c'.taken == s.c.taken
    requires PackerInv(cfg, c', s.m.made, s.pcsDone, stream')
    requires s.stream <= stream' && s.c.frames <= c'.frames && |s.c.closed| <= |c'.closed|
    requires |s.c.closed| < |c'.closed| ==> !Ended(s.c.pc)
    ensures Inv(cfg, s.(c := c', stream := stream'))
  {
    hide MakerInv, PackerInv, QueryInv, ReceiverInv, SinkInv, FramesInv, SentInv;
    var c := s.c;
    FramesOf(cfg, c, s.m.made, s.pcsDone, s.stream);
    FramesOf(cfg, c', s.m.made, s.pcsDone, stream');
    FrameSizes(c'.frames, c'.closed, Ended(c'.pc));
    FrameCount(c.frames, c.closed, Ended(c.pc));
    ReceiverFrame(s.h, s.stream, c.frames, |c.closed|, s.ring, s.k.taken, stream', c'.frames, |c'.closed|);
    SinkFrame(s.k, s.h.frames, c.frames, |c.closed|, c'.frames, |c'.closed|);
  }

  lemma {:induction false} PackerCloses(cfg: Config, s: State, len: nat)
    requires Inv(cfg, s) && s.c.pc == CClose
    ensures PackerOk(cfg, s, len)
  {
    hide Inv, PackerInv, EncodeFrame, FramesInv, SentInv, Ring.Shape;
    InvParts(cfg, s);
    FramesOf(cfg, s.c, s.m.made, s.pcsDone, s.stream);
    CloseKeeps(cfg, s.c, s.m.made, s.pcsDone, s.stream);
    var s' := PackerStep(cfg, s, len).s;
    PackerMoved(cfg, s, s'.c, s'.stream);
  }

  lemma {:induction false} PackerEnds(cfg: Config, s: State, len: nat)
    requires Inv(cfg, s) && s.c.pc == CEnd
    ensures PackerOk(cfg, s, len)
  {
    hide Inv, PackerInv, EncodeFrame, FramesInv, SentInv, Ring.Shape;
    InvParts(cfg, s);
    FramesOf(cfg, s.c, s.m.made, s.pcsDone, s.stream);
    EndKeeps(cfg, s.c, s.m.made, s.pcsDone, s.stream);
    var s' := PackerStep(cfg, s, len).s;
    PackerMoved(cfg, s, s'.c, s'.stream);
  }

  lemma {:induction false} PackerSends(cfg: Config, s: State, len: nat)
    requires Inv(cfg, s) && Sending(s.c.pc)
    ensures PackerOk(cfg, s, len)
  {
    hide Inv, PackerInv;
    InvParts(cfg, s);
    if 0 < len <= RECV_BUF_SIZE - s.c.nbuffer && |s.stream| + len <= s.h.rcvd + cfg.window {
      SendKeeps(cfg, s.c, s.m.made, s.pcsDone, s.stream, len);
      var s' := PackerStep(cfg, s, len).s;
      PackerMoved(cfg, s, s'.c, s'.stream);
    }
  }

  lemma {:induction false} InvParts(cfg: Config, s: State)
    requires Inv(cfg, s)
    ensures PackerInv(cfg, s.c, s.m.made, s.pcsDone, s.stream)
    ensures s.pcs.Shape()
  {
    MadeIsHeld(cfg, s);
  }

  lemma FrameCount(frames: seq<seq<byte>>, closed: seq<seq<Record>>, ended: bool)
    requires FramesInv(frames, closed, ended)
    ensures |frames| == |closed| + if ended then 1 else 0
  {
  }

  /** Every step of the packer, provided its next record fits a packet. */
  lemma {:induction false} PackerKeeps(cfg: Config, s: State, len: nat)
    requires Inv(cfg, s) && |cfg.records| < UINT32
    requires s.c.pc == CFirst && s.c.taken < |cfg.records| ==> |cfg.records[s.c.taken]| <= PAYLOAD
    ensures PackerOk(cfg, s, len)
  {
    hide Inv, PackerOk;
    if Testing(s.c.pc) {
      PackerTests(cfg, s, len);
    } else if s.c.pc == CFirst || s.c.pc == CAdd {
      PackerCopies(cfg, s, len);
    } else if Copied(s.c.pc) {
      PackerPops(cfg, s, len);
    } else if s.c.pc == CClose {
      PackerCloses(cfg, s, len);
    } else if s.c.pc == CEnd {
      PackerEnds(cfg, s, len);
    } else if s.c.pc == CExit {
      PackerDone(cfg, s, len);
    } else {
      PackerSends(cfg, s, len);
    }
  }

  /** The first record of a packet is copied without a test of its size. */
  lemma {:induction false} PackerFaults(cfg: Config, s: State, len: nat)
    requires Inv(cfg, s) && s.c.pc == CFirst
    requires s.c.taken < |cfg.records| ==> |cfg.records[s.c.taken]| > PAYLOAD
    ensures PackerStep(cfg, s, len) == Fault && !RecordsFit(cfg.records)
  {
    hide Inv, PackerInv, Ring.Read, Ring.Shape;
    NextRecord(cfg, s);
  }

  lemma {:induction false} PackerDone(cfg: Config, s: State, len: nat)
    requires Inv(cfg, s) && s.c.pc == CExit
    ensures PackerOk(cfg, s, len)
  {
    hide QueryInv, PackerInv, ReceiverInv, SinkInv;
    MadeIsHeld(cfg, s);
  }
}

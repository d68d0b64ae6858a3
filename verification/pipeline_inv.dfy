/** What holds in every state that any interleaving can reach. */
module PipelineInvariant {
  import opened Types
  import opened Rings
  import opened Packets
  import opened Pipeline

  /** The rows 0, 1, ..., n - 1. */
  function Rows(n: nat): (r: seq<nat>)
    ensures |r| == n
    ensures forall i :: 0 <= i < n ==> r[i] == i
  {
    seq(n, i => i)
  }

  // --------------------------------------------- query and mk_rec queue

  ghost predicate QueryInv(cfg: Config, q: Query, mk: Ring<nat>, mkDone: bool, taken: nat) {
    && q.next <= |cfg.records|
    && mk.Holds(Rows(q.next), taken)
    && (mkDone <==> q.pc == QExit)
    && (q.pc == QExit ==> q.next == |cfg.records|)
    && (q.pc == QWrite || q.pc == QInc ==> q.next < |cfg.records| && q.next < taken + mk.Size())
    && (q.pc == QInc ==> mk.pool[mk.Slot(mk.tail)] == q.next)
  }

  // ------------------------------------------------ maker and pcs queue

  predicate HasRow(pc: MakerPc) { pc == MRoom || pc == MPut || pc == MPush }

  ghost predicate MakerInv(cfg: Config, m: Maker, next: nat, mkDone: bool,
                           pcs: Ring<Record>, pcsDone: bool, taken: nat) {
    && m.taken <= next <= |cfg.records|
    && m.taken == m.made + (if HasRow(m.pc) then 1 else 0)
    && pcs.Holds(cfg.records[..m.made], taken)
    && (pcsDone <==> m.pc == MExit)
    && (m.pc == MDone ==> m.taken < next || mkDone)
    && (m.pc == MEmpty ==> mkDone)
    && (m.pc == MTake || m.pc == MRead || m.pc == MPop ==> m.taken < next)
    && (m.pc == MPop ==> m.row == m.taken)
    && (HasRow(m.pc) ==> m.row == m.made)
    && (m.pc == MPut || m.pc == MPush ==> m.made < taken + pcs.Size())
    && (m.pc == MPush ==> pcs.pool[pcs.Slot(pcs.tail)] == cfg.records[m.made])
    && (m.pc == MStop || m.pc == MExit ==> mkDone && m.taken == |cfg.records|)
  }

  // ------------------------------------------------------------- packer

  predicate InPacket(pc: PackerPc) {
    pc == CPopFirst || pc == CMore || pc == CMoreDone || pc == CMoreEmpty
    || pc == CNext || pc == CAdd || pc == CPopNext || pc == CClose
  }

  /** Between copying a record and advancing the head over it. */
  predicate Copied(pc: PackerPc) { pc == CPopFirst || pc == CPopNext }

  predicate Sending(pc: PackerPc) { pc == CSend || pc == CSendEnd }

  predicate Ending(pc: PackerPc) { pc == CEnd || pc == CSendEnd || pc == CExit }

  /** The number of records in packets. */
  function Packed(c: Packer): nat { c.taken + if Copied(c.pc) then 1 else 0 }

  /** What the packer has learned from its tests of done and of emptiness. */
  ghost predicate Tested(c: Packer, made: nat, pcsDone: bool) {
    && (c.pc == CDone || c.pc == CMoreDone ==> c.taken < made || pcsDone)
    && (c.pc == CEmpty || c.pc == CMoreEmpty ==> pcsDone)
    && (c.pc == COpen || c.pc == CFirst || c.pc == CNext || c.pc == CAdd || Copied(c.pc) ==>
          c.taken < made)
    && (Ending(c.pc) ==> pcsDone)
  }

  /** The packet that is being filled. */
  ghost predicate OpenPacket(c: Packer) {
    && |c.data| == PAYLOAD
    && (InPacket(c.pc) <==> c.open != [])
    && (InPacket(c.pc) ==>
          && c.sbytes == |Bytes(c.open)| <= PAYLOAD
          && c.data[..c.sbytes] == Bytes(c.open)
          && (if c.pc == CPopFirst then c.window == PAYLOAD && |c.open| == 1
              else c.num == |c.open| && c.sbytes + c.window == PAYLOAD))
    && (c.pc == CFirst ==> c.window == PAYLOAD)
    && c.num < UINT32
  }

  /** The packets so far are the ones of the greedy split. */
  ghost predicate GreedySoFar(cfg: Config, c: Packer) {
    var rs := cfg.records;
    && Packed(c) <= |rs|
    && RecordsFit(rs[..Packed(c)])
    && rs[..Packed(c)] == Joined(c.closed) + c.open
    && Greedy(rs) == c.closed + GreedyFrom(c.open, rs[Packed(c)..])
    && (c.pc == CClose ==>
          GreedyFrom(c.open, rs[Packed(c)..]) == [c.open] + GreedyFrom([], rs[Packed(c)..]))
    && (Ending(c.pc) ==> c.taken == |rs|)
    && c.rows == |Joined(c.closed)|
  }

  /** A frame that carries the group g. */
  ghost predicate Carries(f: seq<byte>, g: seq<Record>) {
    && |f| == RECV_BUF_SIZE
    && BatchOf(DecodeFrame(f), g)
  }

  ghost predicate BatchOf(b: Batch, g: seq<Record>) {
    && b.kind == REC_PKT && b.num == |g|
    && |Bytes(g)| <= |b.data| && b.data[..|Bytes(g)|] == Bytes(g)
  }

  ghost predicate IsEnd(f: seq<byte>) {
    |f| == RECV_BUF_SIZE && DecodeFrame(f).kind == END_PKT
  }

  /** Frames one after the other. */
  function Wire(fs: seq<seq<byte>>): seq<byte> {
    if fs == [] then [] else Wire(fs[..|fs| - 1]) + fs[|fs| - 1]
  }

  /** The end frame has been built. */
  predicate Ended(pc: PackerPc) { pc == CSendEnd || pc == CExit }

  /** One frame per packet, then the end frame. */
  ghost predicate FramesInv(frames: seq<seq<byte>>, closed: seq<seq<Record>>, ended: bool) {
    && |frames| == |closed| + (if ended then 1 else 0)
    && (forall i :: 0 <= i < |closed| ==> Carries(frames[i], closed[i]))
    && (ended ==> IsEnd(frames[|closed|]))
  }

  /** The bytes sent are the frames, up to the part of the last one not yet sent. */
  ghost predicate SentInv(frames: seq<seq<byte>>, packetsSent: nat, stream: seq<byte>,
                          sending: bool, batch: seq<byte>, nbuffer: nat) {
    && stream <= Wire(frames)
    && |stream| == packetsSent * RECV_BUF_SIZE + (if sending then nbuffer else 0)
    && |frames| == packetsSent + (if sending then 1 else 0)
    && (sending ==> nbuffer < RECV_BUF_SIZE && batch == frames[|frames| - 1])
  }

  // ----------------------------------------------------- host receiver

  predicate HasFrame(pc: ReceiverPc) { pc == HParse || pc == HRoom || pc == HPut || pc == HPush }

  function Batches(fs: seq<seq<byte>>): (r: seq<Batch>)
    requires forall i :: 0 <= i < |fs| ==> |fs[i]| >= 8
    ensures |r| == |fs|
    ensures forall i :: 0 <= i < |fs| ==> r[i] == DecodeFrame(fs[i])
  {
    seq(|fs|, i requires 0 <= i < |fs| => DecodeFrame(fs[i]))
  }

  ghost predicate ReceiverInv(h: Receiver, stream: seq<byte>, frames: seq<seq<byte>>, closed: nat,
                              ring: Ring<Batch>, taken: nat) {
    && h.frames <= |frames|
    && |h.tcp| == RECV_BUF_SIZE
    && h.rcvd <= |stream|
    && h.rcvd == h.frames * RECV_BUF_SIZE
       + (if HasFrame(h.pc) then RECV_BUF_SIZE else if h.pc == HRecv then h.nbuffer else 0)
    && (h.pc == HRecv ==>
          && h.nbuffer < RECV_BUF_SIZE && h.frames <= closed
          && h.tcp[..h.nbuffer] == stream[h.frames * RECV_BUF_SIZE..h.rcvd])
    && (HasFrame(h.pc) ==> h.frames < |frames| && h.nbuffer == 0)
    && (h.pc == HParse ==> h.tcp == frames[h.frames])
    && (h.pc == HRoom || h.pc == HPut || h.pc == HPush ==>
          |frames[h.frames]| >= 8 && h.batch == DecodeFrame(frames[h.frames]))
    && (h.pc == HPut || h.pc == HPush ==> h.frames < taken + ring.Size())
    && (h.pc == HExit ==> h.frames == closed + 1)
    && (forall i :: 0 <= i < |frames| ==> |frames[i]| >= 8)
    && ring.Holds(Batches(frames[..h.frames]), taken)
    && (h.pc == HPush ==> ring.pool[ring.Slot(ring.tail)] == h.batch)
  }

  // ----------------------------------------------------- host consumer

  ghost predicate SinkInv(k: Sink, queued: nat, frames: seq<seq<byte>>, closed: nat) {
    && queued <= |frames|
    && (forall i :: 0 <= i < |frames| ==> |frames[i]| >= 8)
    && k.taken <= queued
    && (k.pc == KRead || k.pc == KPop ==> k.taken < queued)
    && (k.pc == KPop ==> k.batch == DecodeFrame(frames[k.taken]))
    && (k.pc == KUse ==> k.taken > 0 && k.batch == DecodeFrame(frames[k.taken - 1]))
    && (if k.pc == KExit then k.taken == closed + 1
        else if k.pc == KUse then k.taken <= closed + 1
        else k.taken <= closed)
    && k.table == Batches(frames[..k.taken - (if k.pc == KUse || k.pc == KExit then 1 else 0)])
  }

  // --------------------------------------------------------- altogether

  ghost predicate PackerInv(cfg: Config, c: Packer, made: nat, pcsDone: bool, stream: seq<byte>) {
    && c.taken <= made
    && Tested(c, made, pcsDone)
    && OpenPacket(c)
    && GreedySoFar(cfg, c)
    && FramesInv(c.frames, c.closed, Ended(c.pc))
    && SentInv(c.frames, c.packetsSent, stream, Sending(c.pc), c.batch, c.nbuffer)
  }

  ghost predicate Inv(cfg: Config, s: State) {
    && QueryInv(cfg, s.q, s.mk, s.mkDone, s.m.taken)
    && MakerInv(cfg, s.m, s.q.next, s.mkDone, s.pcs, s.pcsDone, s.c.taken)
    && PackerInv(cfg, s.c, s.m.made, s.pcsDone, s.stream)
    && ReceiverInv(s.h, s.stream, s.c.frames, |s.c.closed|, s.ring, s.k.taken)
    && SinkInv(s.k, s.h.frames, s.c.frames, |s.c.closed|)
  }
}

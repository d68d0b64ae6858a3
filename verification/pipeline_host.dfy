/** The steps of the two host threads, and the invariant over whole runs. */
module PipelineHost {
  import opened Types
  import opened Rings
  import opened Packets
  import opened Pipeline
  import opened PipelineInvariant
  import opened PipelineSafety

  // ------------------------------------------------------------ receiver

  ghost predicate ReceiverOk(cfg: Config, s: State, len: nat) {
    && ReceiverStep(s, len) != Fault
    && (ReceiverStep(s, len).Ran? ==> Inv(cfg, ReceiverStep(s, len).s))
  }

  /** Bytes of the current frame taken from the stream; the last of them
      complete the frame in the buffer. */
  lemma {:induction false} RecvBytes(h: Receiver, stream: seq<byte>, frames: seq<seq<byte>>, closed: nat,
                                     ring: Ring<Batch>, taken: nat, len: nat)
    requires ReceiverInv(h, stream, frames, closed, ring, taken) && h.pc == HRecv
    requires stream <= Wire(frames)
    requires forall i :: 0 <= i < |frames| ==> |frames[i]| == RECV_BUF_SIZE
    requires 0 < len <= RECV_BUF_SIZE - h.nbuffer && h.rcvd + len <= |stream|
    ensures var tcp' := Overwrite(h.tcp, h.nbuffer, stream[h.rcvd..h.rcvd + len]);
            var h' := h.(tcp := tcp', rcvd := h.rcvd + len);
            if h.nbuffer + len < RECV_BUF_SIZE
            then ReceiverInv(h'.(nbuffer := h.nbuffer + len), stream, frames, closed, ring, taken)
            else ReceiverInv(h'.(pc := HParse, nbuffer := 0), stream, frames, closed, ring, taken)
  {
    hide Ring.Holds, Ring.Slot, DecodeFrame, Wire;
    var a, n := h.frames * RECV_BUF_SIZE, h.nbuffer;
    var src := stream[h.rcvd..h.rcvd + len];
    Overwritten(h.tcp, n, src);
    assert stream[a..h.rcvd] + src == stream[a..h.rcvd + len];
    if n + len == RECV_BUF_SIZE {
      WireLength(frames);
      assert h.frames < |frames|;
      WireSlice(frames, h.frames);
      assert stream[a..h.rcvd + len] == Wire(frames)[a..a + RECV_BUF_SIZE];
      var tcp' := Overwrite(h.tcp, n, src);
      assert tcp' == tcp'[..RECV_BUF_SIZE];
    }
  }

  lemma {:induction false} HostParts(cfg: Config, s: State)
    requires Inv(cfg, s)
    ensures FramesInv(s.c.frames, s.c.closed, Ended(s.c.pc)) && s.stream <= Wire(s.c.frames)
    ensures forall i :: 0 <= i < |s.c.frames| ==> |s.c.frames[i]| == RECV_BUF_SIZE
    ensures ReceiverInv(s.h, s.stream, s.c.frames, |s.c.closed|, s.ring, s.k.taken)
    ensures SinkInv(s.k, s.h.frames, s.c.frames, |s.c.closed|)
    ensures s.h.frames <= |s.c.frames|
    ensures s.ring.Holds(Batches(s.c.frames[..s.h.frames]), s.k.taken)
    ensures s.ring.Shape()
  {
    hide MakerInv, QueryInv, SinkInv, FramesInv;
    FramesOf(cfg, s.c, s.m.made, s.pcsDone, s.stream);
    FrameSizes(s.c.frames, s.c.closed, Ended(s.c.pc));
  }

  /** A host step that keeps the two host invariants. */
  lemma {:induction false} HostMoved(cfg: Config, s: State, h': Receiver, ring': Ring<Batch>, k': Sink)
    requires Inv(cfg, s)
    requires ReceiverInv(h', s.stream, s.c.frames, |s.c.closed|, ring', k'.taken)
    requires SinkInv(k', h'.frames, s.c.frames, |s.c.closed|)
    ensures Inv(cfg, s.(h := h', ring := ring', k := k'))
  {
    hide MakerInv, QueryInv, PackerInv, ReceiverInv, SinkInv;
  }

  lemma {:induction false} ReceiverReads(cfg: Config, s: State, len: nat)
    requires Inv(cfg, s) && s.h.pc == HRecv
    ensures ReceiverOk(cfg, s, len)
  {
    hide Inv, FramesInv, SinkInv, Wire, Ring.Holds, Ring.Slot, Ring.Shape, DecodeFrame, Overwrite;
    HostParts(cfg, s);
    var h := s.h;
    if 0 < len <= RECV_BUF_SIZE - h.nbuffer && h.rcvd + len <= |s.stream| {
      RecvBytes(h, s.stream, s.c.frames, |s.c.closed|, s.ring, s.k.taken, len);
      HostMoved(cfg, s, ReceiverStep(s, len).s.h, s.ring, s.k);
    }
  }

  /** Parsing a whole frame, waiting for room, and writing the slot. */
  lemma {:induction false} ReceiverPuts(cfg: Config, s: State, len: nat)
    requires Inv(cfg, s) && s.h.pc in {HParse, HRoom, HPut}
    ensures ReceiverOk(cfg, s, len)
  {
    hide Inv, FramesInv, SinkInv, Wire, Ring.Holds, Ring.Slot, Ring.Full, DecodeFrame;
    HostParts(cfg, s);
    var h, queued := s.h, Batches(s.c.frames[..s.h.frames]);
    HoldsShape(s.ring, queued, s.k.taken);
    FullExact(s.ring, queued, s.k.taken);
    if h.pc == HPut {
      WriteKeeps(s.ring, queued, s.k.taken, h.batch);
    }
    if ReceiverStep(s, len).Ran? {
      var s' := ReceiverStep(s, len).s;
      HostMoved(cfg, s, s'.h, s'.ring, s'.k);
    }
  }

  /** Only the frame after the last packet is an end frame. */
  lemma {:induction false} EndIsLast(frames: seq<seq<byte>>, closed: seq<seq<Record>>, ended: bool, i: nat)
    requires FramesInv(frames, closed, ended) && i < |frames|
    ensures |frames[i]| == RECV_BUF_SIZE
    ensures DecodeFrame(frames[i]).kind == END_PKT <==> i == |closed|
    ensures i <= |closed|
  {
    hide DecodeFrame;
    if i < |closed| { assert Carries(frames[i], closed[i]); }
  }

  lemma {:induction false} OneMoreBatch(frames: seq<seq<byte>>, n: nat)
    requires n < |frames| && forall i :: 0 <= i < |frames| ==> |frames[i]| >= 8
    ensures Batches(frames[..n]) + [DecodeFrame(frames[n])] == Batches(frames[..n + 1])
  {
    hide DecodeFrame;
  }

  lemma {:induction false} ReceiverPushes(cfg: Config, s: State, len: nat)
    requires Inv(cfg, s) && s.h.pc == HPush
    ensures ReceiverOk(cfg, s, len)
  {
    hide Inv, FramesInv, Wire, Ring.Holds, Ring.Slot, DecodeFrame;
    HostParts(cfg, s);
    var h, frames := s.h, s.c.frames;
    HoldsShape(s.ring, Batches(frames[..h.frames]), s.k.taken);
    PushIsAppend(s.ring, Batches(frames[..h.frames]), s.k.taken, h.batch);
    OneMoreBatch(frames, h.frames);
    EndIsLast(frames, s.c.closed, Ended(s.c.pc), h.frames);
    var s' := ReceiverStep(s, len).s;
    HostMoved(cfg, s, s'.h, s'.ring, s'.k);
  }

  lemma {:induction false} ReceiverKeeps(cfg: Config, s: State, len: nat)
    requires Inv(cfg, s)
    ensures ReceiverOk(cfg, s, len)
  {
    hide Inv, ReceiverOk;
    if s.h.pc == HRecv {
      ReceiverReads(cfg, s, len);
    } else if s.h.pc == HPush {
      ReceiverPushes(cfg, s, len);
    } else if s.h.pc == HExit {
      ReceiverDone(cfg, s, len);
    } else {
      ReceiverPuts(cfg, s, len);
    }
  }

  lemma {:induction false} ReceiverDone(cfg: Config, s: State, len: nat)
    requires Inv(cfg, s) && s.h.pc == HExit
    ensures ReceiverOk(cfg, s, len)
  {
    hide Inv, FramesInv, Wire, SinkInv, ReceiverInv;
    HostParts(cfg, s);
  }

  // ---------------------------------------------------------------- sink

  ghost predicate SinkOk(cfg: Config, s: State) {
    && SinkStep(s) != Fault
    && (SinkStep(s).Ran? ==> Inv(cfg, SinkStep(s).s))
  }

  lemma {:induction false} SinkPops(h: Receiver, stream: seq<byte>, frames: seq<seq<byte>>, closed: nat,
                                    ring: Ring<Batch>, taken: nat)
    requires ReceiverInv(h, stream, frames, closed, ring, taken) && taken < h.frames
    ensures ReceiverInv(h, stream, frames, closed, ring.IncHead(), taken + 1)
  {
    hide Ring.Holds, Ring.Slot, DecodeFrame;
    PopAdvances(ring, Batches(frames[..h.frames]), taken);
    HeadOnly(ring);
  }

  lemma {:induction false} SinkWaits(cfg: Config, s: State)
    requires Inv(cfg, s) && s.k.pc in {KWait, KRead, KPop, KExit}
    ensures SinkOk(cfg, s)
  {
    hide Inv, FramesInv, Wire, ReceiverInv, Ring.Holds, Ring.Slot, Ring.Empty, Ring.Read, DecodeFrame;
    HostParts(cfg, s);
    var k, frames := s.k, s.c.frames;
    var queued := Batches(frames[..s.h.frames]);
    EmptyExact(s.ring, queued, k.taken);
    FrameCount(frames, s.c.closed, Ended(s.c.pc));
    if k.pc == KRead {
      ReadIsFirst(s.ring, queued, k.taken);
    } else if k.pc == KPop {
      SinkPops(s.h, s.stream, frames, |s.c.closed|, s.ring, k.taken);
    }
    if SinkStep(s).Ran? {
      HostMoved(cfg, s, s.h, SinkStep(s).s.ring, SinkStep(s).s.k);
    }
  }

  lemma {:induction false} SinkUses(cfg: Config, s: State)
    requires Inv(cfg, s) && s.k.pc == KUse
    ensures SinkOk(cfg, s)
  {
    hide Inv, FramesInv, Wire, ReceiverInv, Ring.Holds, Ring.Shape, DecodeFrame;
    HostParts(cfg, s);
    EndIsLast(s.c.frames, s.c.closed, Ended(s.c.pc), s.k.taken - 1);
    OneMoreBatch(s.c.frames, s.k.taken - 1);
    HostMoved(cfg, s, s.h, s.ring, SinkStep(s).s.k);
  }

  lemma {:induction false} SinkKeeps(cfg: Config, s: State)
    requires Inv(cfg, s)
    ensures SinkOk(cfg, s)
  {
    hide Inv, SinkOk;
    if s.k.pc == KUse {
      SinkUses(cfg, s);
    } else {
      SinkWaits(cfg, s);
    }
  }

  // ---------------------------------------------------------- whole runs

  lemma {:induction false} InitInv(cfg: Config)
    requires WellFormed(cfg)
    ensures Inv(cfg, Init(cfg))
  {
    hide Ring.Size;
    var s, rs := Init(cfg), cfg.records;
    assert rs[..0] == Joined([]) + [];
    assert rs[0..] == rs;
    assert Bytes([]) == [];
  }

  /** Every step of every thread keeps the invariant, and stays within memory
      if every record fits a packet. */
  lemma {:induction false} StepKeeps(cfg: Config, s: State, a: Action)
    requires Inv(cfg, s) && WellFormed(cfg)
    ensures Step(cfg, s, a).Ran? ==> Inv(cfg, Step(cfg, s, a).s)
    ensures Step(cfg, s, a) == Fault ==> !RecordsFit(cfg.records)
  {
    hide Inv, QueryStep, MakerStep, PackerStep, ReceiverStep, SinkStep;
    match a
    case StepQuery => QueryKeeps(cfg, s);
    case StepMaker => MakerKeeps(cfg, s);
    case StepPacker(len) =>
      if s.c.pc == CFirst && (s.c.taken < |cfg.records| ==> |cfg.records[s.c.taken]| > PAYLOAD) {
        PackerFaults(cfg, s, len);
      } else {
        PackerKeeps(cfg, s, len);
      }
    case StepReceiver(len) => ReceiverKeeps(cfg, s, len);
    case StepSink => SinkKeeps(cfg, s);
  }

  /** Every state that an interleaving reaches satisfies the invariant, and none
      accesses memory out of bounds if every record fits a packet. */
  lemma {:induction false} RunSafe(cfg: Config, actions: seq<Action>)
    requires WellFormed(cfg)
    ensures Run(cfg, actions).Ran? ==> Inv(cfg, Run(cfg, actions).s)
    ensures Run(cfg, actions) == Fault ==> !RecordsFit(cfg.records)
  {
    hide Inv, Step, Init;
    if actions == [] {
      InitInv(cfg);
    } else {
      var n := |actions| - 1;
      RunSafe(cfg, actions[..n]);
      if Run(cfg, actions[..n]).Ran? {
        StepKeeps(cfg, Run(cfg, actions[..n]).s, actions[n]);
      }
    }
  }
}

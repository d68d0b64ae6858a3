/** Every run is bounded, and no run stops before all threads have finished. */
module PipelineLiveness {
  import opened Types
  import opened Rings
  import opened Packets
  import opened Pipeline
  import opened PipelineInvariant
  import opened PipelineSafety
  import opened PipelineHost

  // ------------------------------------------------------------- variant

  function QueryWork(n: nat, q: Query): int {
    3 * (n - q.next) + match q.pc case QWait => 3 case QWrite => 2 case QInc => 1 case QExit => 0
  }

  function MakerWork(n: nat, m: Maker): int {
    9 * (n - m.made) + match m.pc
    case MWait => 9 case MDone => 8 case MEmpty => 7 case MTake => 6 case MRead => 5 case MPop => 4
    case MRoom => 3 case MPut => 2 case MPush => 1 case MStop => 1 case MExit => 0
  }

  function PackerRank(pc: PackerPc): nat {
    match pc
    case CWait => 19 case CDone => 18 case CEmpty => 17 case COpen => 16 case CFirst => 15
    case CPopFirst => 14 case CMore => 13 case CMoreDone => 12 case CMoreEmpty => 11
    case CNext => 10 case CAdd => 9 case CPopNext => 8 case CClose => 7 case CSend => 6
    case CEnd => 5 case CSendEnd => 4 case CExit => 0
  }

  function PackerWork(n: nat, bytes: nat, c: Packer, sent: nat): int {
    20 * (n - c.taken) + 20 * (bytes - sent) + PackerRank(c.pc)
  }

  function ReceiverWork(frames: nat, bytes: nat, h: Receiver): int {
    10 * (frames - h.frames) + (bytes - h.rcvd) + match h.pc
    case HRecv => 5 case HParse => 4 case HRoom => 3 case HPut => 2 case HPush => 1 case HExit => 0
  }

  function SinkWork(frames: nat, k: Sink): int {
    10 * (frames - k.taken) + match k.pc
    case KUse => 5 case KWait => 4 case KRead => 3 case KPop => 2 case KExit => 0
  }

  /** The number of frames of a complete run. */
  function FrameTotal(cfg: Config): nat { |Greedy(cfg.records)| + 1 }

  /** A bound on the steps still to come, whatever the interleaving. */
  function Work(cfg: Config, s: State): int {
    var n, frames := |cfg.records|, FrameTotal(cfg);
    var bytes := frames * RECV_BUF_SIZE;
    QueryWork(n, s.q) + MakerWork(n, s.m) + PackerWork(n, bytes, s.c, |s.stream|)
    + ReceiverWork(frames, bytes, s.h) + SinkWork(frames, s.k)
  }

  /** A step that moves no bytes goes down in rank or on to the next record. */
  ghost predicate GoesOn(s: State, s': State) {
    && s' == s.(c := s'.c, pcs := s'.pcs)
    && (if Copied(s.c.pc) then s'.c.taken == s.c.taken + 1 && s'.c.pc == CMore
        else s'.c.taken == s.c.taken && PackerRank(s'.c.pc) < PackerRank(s.c.pc))
  }

  lemma TestMoves(cfg: Config, s: State, len: nat)
    requires PackerStep(cfg, s, len).Ran? && Testing(s.c.pc)
    ensures GoesOn(s, PackerStep(cfg, s, len).s)
  {
    hide Ring.Shape, Ring.Empty;
  }

  lemma PackingMoves(cfg: Config, s: State, len: nat)
    requires PackerStep(cfg, s, len).Ran? && !Testing(s.c.pc) && !Sending(s.c.pc)
    ensures GoesOn(s, PackerStep(cfg, s, len).s)
  {
    hide Ring.Shape, Ring.Empty, EncodeFrame, Overwrite, Ring.IncHead, Ring.Read;
  }

  lemma PackerSendsSome(cfg: Config, s: State, len: nat)
    requires PackerStep(cfg, s, len).Ran? && Sending(s.c.pc)
    ensures var s' := PackerStep(cfg, s, len).s;
            && s' == s.(c := s'.c, stream := s'.stream)
            && s'.c.taken == s.c.taken && |s'.stream| > |s.stream|
            && s'.c.pc in {s.c.pc, CWait, CExit}
  {
    hide Ring.Shape;
  }

  /** A step leaves less work to the thread that makes it. */
  lemma PackerWorks(cfg: Config, n: nat, bytes: nat, s: State, len: nat)
    requires PackerStep(cfg, s, len).Ran?
    ensures var s' := PackerStep(cfg, s, len).s;
            && s' == s.(c := s'.c, stream := s'.stream, pcs := s'.pcs)
            && PackerWork(n, bytes, s'.c, |s'.stream|) < PackerWork(n, bytes, s.c, |s.stream|)
  {
    hide PackerStep;
    if Sending(s.c.pc) {
      PackerSendsSome(cfg, s, len);
    } else if Testing(s.c.pc) {
      TestMoves(cfg, s, len);
    } else {
      PackingMoves(cfg, s, len);
    }
  }

  lemma QueryWorks(cfg: Config, s: State, n: nat)
    ensures QueryStep(cfg, s).Ran? ==>
              var s' := QueryStep(cfg, s).s;
              && s' == s.(q := s'.q, mk := s'.mk, mkDone := s'.mkDone)
              && QueryWork(n, s'.q) < QueryWork(n, s.q)
  {
    hide Ring.Shape, Ring.Full, Ring.Write, Ring.IncTail;
  }

  lemma MakerWorks(cfg: Config, s: State, n: nat)
    ensures MakerStep(cfg, s).Ran? ==>
              var s' := MakerStep(cfg, s).s;
              && s' == s.(m := s'.m, mk := s'.mk, pcs := s'.pcs, pcsDone := s'.pcsDone)
              && MakerWork(n, s'.m) < MakerWork(n, s.m)
  {
    hide Ring.Shape, Ring.Full, Ring.Empty, Ring.Read, Ring.Write, Ring.IncHead, Ring.IncTail;
  }

  lemma HostWorks(s: State, frames: nat, bytes: nat, len: nat)
    ensures ReceiverStep(s, len).Ran? ==>
              var s' := ReceiverStep(s, len).s;
              && s' == s.(h := s'.h, ring := s'.ring)
              && ReceiverWork(frames, bytes, s'.h) < ReceiverWork(frames, bytes, s.h)
    ensures SinkStep(s).Ran? ==>
              var s' := SinkStep(s).s;
              && s' == s.(k := s'.k, ring := s'.ring)
              && SinkWork(frames, s'.k) < SinkWork(frames, s.k)
  {
    hide Ring.Shape, Ring.Full, Ring.Empty, Ring.Read, Ring.IncHead, Ring.IncTail, DecodeFrame, Overwrite;
  }

  lemma StepWorks(cfg: Config, s: State, a: Action)
    requires Step(cfg, s, a).Ran?
    ensures Work(cfg, Step(cfg, s, a).s) < Work(cfg, s)
  {
    hide Greedy, QueryStep, MakerStep, PackerStep, ReceiverStep, SinkStep,
         QueryWork, MakerWork, PackerWork, ReceiverWork, SinkWork;
    var n, frames := |cfg.records|, FrameTotal(cfg);
    match a
    case StepPacker(len) => PackerWorks(cfg, n, frames * RECV_BUF_SIZE, s, len);
    case StepReceiver(len) => HostWorks(s, frames, frames * RECV_BUF_SIZE, len);
    case StepSink => HostWorks(s, frames, 0, 0);
    case StepMaker => MakerWorks(cfg, s, n);
    case StepQuery => QueryWorks(cfg, s, n);
  }

  lemma {:induction false} WorkIsPositive(cfg: Config, s: State)
    requires Inv(cfg, s)
    ensures Work(cfg, s) >= 0
  {
    hide QueryInv, MakerInv, PackerInv, ReceiverInv, SinkInv, Greedy;
    Progress(cfg, s);
  }

  /** How far each thread can be. */
  lemma {:induction false} Progress(cfg: Config, s: State)
    requires Inv(cfg, s)
    ensures s.q.next <= |cfg.records| && s.m.made <= |cfg.records| && s.c.taken <= |cfg.records|
    ensures s.h.rcvd <= |s.stream| <= FrameTotal(cfg) * RECV_BUF_SIZE
    ensures s.k.taken <= s.h.frames <= FrameTotal(cfg)
  {
    hide Ring.Holds, Ring.Slot, OpenPacket, Tested, FramesInv, SentInv, Joined, Greedy, GreedyFrom, Wire;
    var c := s.c;
    FrameSizes(c.frames, c.closed, Ended(c.pc));
    FrameCount(c.frames, c.closed, Ended(c.pc));
    WireLength(c.frames);
    StreamIsPrefix(c.frames, c.packetsSent, s.stream, Sending(c.pc), c.batch, c.nbuffer);
  }

  lemma StreamIsPrefix(frames: seq<seq<byte>>, packetsSent: nat, stream: seq<byte>,
                       sending: bool, batch: seq<byte>, nbuffer: nat)
    requires SentInv(frames, packetsSent, stream, sending, batch, nbuffer)
    ensures |stream| <= |Wire(frames)|
  {
  }

  /** No interleaving has more steps than the work of the initial state, whether
      or not the schedule is fair. Waiting in a spin loop is not a step. */
  lemma {:induction false} RunsAreBounded(cfg: Config, actions: seq<Action>)
    requires WellFormed(cfg) && Run(cfg, actions).Ran?
    ensures |actions| <= Work(cfg, Init(cfg))
  {
    hide Work, Init, Step, Inv;
    RunWorks(cfg, actions);
    RunSafe(cfg, actions);
    WorkIsPositive(cfg, Run(cfg, actions).s);
  }

  lemma {:induction false} RunWorks(cfg: Config, actions: seq<Action>)
    requires Run(cfg, actions).Ran?
    ensures |actions| + Work(cfg, Run(cfg, actions).s) <= Work(cfg, Init(cfg))
  {
    hide Work, Init, Step;
    if actions != [] {
      var n := |actions| - 1;
      RunWorks(cfg, actions[..n]);
      StepWorks(cfg, Run(cfg, actions[..n]).s, actions[n]);
    }
  }

  // ---------------------------------------------------------- no deadlock

  predicate Finished(s: State) {
    s.q.pc == QExit && s.m.pc == MExit && s.c.pc == CExit && s.h.pc == HExit && s.k.pc == KExit
  }

  /** A thread that can move now, the host first; calls move one byte at a time. */
  function Choose(cfg: Config, s: State): Action {
    if SinkStep(s) != Blocked then StepSink
    else if ReceiverStep(s, 1) != Blocked then StepReceiver(1)
    else if PackerStep(cfg, s, 1) != Blocked then StepPacker(1)
    else if MakerStep(cfg, s) != Blocked then StepMaker
    else StepQuery
  }

  lemma {:induction false} SinkBlocked(cfg: Config, s: State)
    requires Inv(cfg, s) && SinkStep(s) == Blocked
    ensures s.k.pc == KExit || (s.k.pc == KWait && s.k.taken == s.h.frames)
  {
    hide Inv, FramesInv, Wire, ReceiverInv, SinkInv, Ring.Holds, Ring.Slot, Ring.Empty, Ring.Read;
    HostParts(cfg, s);
    EmptyExact(s.ring, Batches(s.c.frames[..s.h.frames]), s.k.taken);
  }

  lemma {:induction false} ReceiverBlocked(cfg: Config, s: State)
    requires Inv(cfg, s) && ReceiverStep(s, 1) == Blocked
    ensures || s.h.pc == HExit
            || (s.h.pc == HRecv && s.h.rcvd == |s.stream|)
            || (s.h.pc == HRoom && s.h.frames == s.k.taken + s.ring.Size())
  {
    hide Inv, FramesInv, Wire, SinkInv, Ring.Holds, Ring.Slot, Ring.Full, DecodeFrame;
    HostParts(cfg, s);
    FullExact(s.ring, Batches(s.c.frames[..s.h.frames]), s.k.taken);
  }

  /** A packer that waits for records has taken all there are. */
  lemma {:induction false} TestBlocked(cfg: Config, s: State)
    requires Inv(cfg, s) && Testing(s.c.pc) && PackerStep(cfg, s, 1) == Blocked
    ensures !s.pcsDone && s.c.taken == s.m.made
  {
    hide PackerInv, QueryInv, ReceiverInv, SinkInv, Ring.Holds, Ring.Slot, Ring.Full, Ring.Empty, Ring.Read;
    MadeIsHeld(cfg, s);
    EmptyExact(s.pcs, cfg.records[..s.m.made], s.c.taken);
    PackerTested(cfg, s.c, s.m.made, s.pcsDone, s.stream);
  }

  /** While it sends, the packer waits for nothing but room. */
  lemma {:induction false} SenderWaits(cfg: Config, s: State)
    requires Inv(cfg, s) && PackerStep(cfg, s, 1) == Blocked && Sending(s.c.pc)
    ensures |s.stream| >= s.h.rcvd + cfg.window
  {
    hide Inv, PackerInv;
    InvParts(cfg, s);
    FramesOf(cfg, s.c, s.m.made, s.pcsDone, s.stream);
  }

  lemma {:induction false} OnlyTestsBlock(cfg: Config, s: State)
    requires PackerStep(cfg, s, 1) == Blocked && !Testing(s.c.pc) && !Sending(s.c.pc)
    ensures s.c.pc == CExit
  {
    hide Ring.Shape, Ring.Read, Ring.IncHead, EncodeFrame, Overwrite;
  }

  lemma {:induction false} PackerBlocked(cfg: Config, s: State)
    requires Inv(cfg, s) && PackerStep(cfg, s, 1) == Blocked
    ensures || s.c.pc == CExit
            || (!s.pcsDone && s.c.taken == s.m.made)
            || (Sending(s.c.pc) && |s.stream| >= s.h.rcvd + cfg.window)
  {
    hide Inv, PackerStep, Testing, Sending;
    if Testing(s.c.pc) {
      TestBlocked(cfg, s);
    } else if Sending(s.c.pc) {
      SenderWaits(cfg, s);
    } else {
      OnlyTestsBlock(cfg, s);
    }
  }

  lemma {:induction false} MakerBlocked(cfg: Config, s: State)
    requires Inv(cfg, s) && MakerStep(cfg, s) == Blocked
    ensures || (s.m.pc == MExit && s.pcsDone && s.mkDone)
            || (s.m.pc == MWait && !s.mkDone && s.m.taken == s.q.next)
            || (s.m.pc == MRoom && s.m.made == s.c.taken + s.pcs.Size())
  {
    hide PackerInv, ReceiverInv, SinkInv, Ring.Holds, Ring.Slot, Ring.Full, Ring.Empty, Ring.Read;
    HoldsShape(s.mk, Rows(s.q.next), s.m.taken);
    HoldsShape(s.pcs, cfg.records[..s.m.made], s.c.taken);
    EmptyExact(s.mk, Rows(s.q.next), s.m.taken);
    FullExact(s.pcs, cfg.records[..s.m.made], s.c.taken);
  }

  lemma {:induction false} QueryBlocked(cfg: Config, s: State)
    requires Inv(cfg, s) && QueryStep(cfg, s) == Blocked
    ensures s.q.pc == QExit || (!s.mkDone && s.q.next == s.m.taken + s.mk.Size())
    ensures s.mkDone <==> s.q.pc == QExit
  {
    hide PackerInv, ReceiverInv, SinkInv, MakerInv, Ring.Holds, Ring.Slot, Ring.Full;
    HoldsShape(s.mk, Rows(s.q.next), s.m.taken);
    FullExact(s.mk, Rows(s.q.next), s.m.taken);
  }

  lemma {:induction false} RingSizes(cfg: Config, s: State)
    requires Inv(cfg, s)
    ensures s.mk.Size() > 0 && s.pcs.Size() > 0 && s.ring.Size() > 0
    ensures s.pcsDone <==> s.m.pc == MExit
  {
    hide PackerInv, SinkInv;
    SizeBelowWord(s.mk.bits);
    SizeBelowWord(s.pcs.bits);
    SizeBelowWord(s.ring.bits);
  }

  /** When the packer has left, so have the stages before it. */
  lemma {:induction false} StorageFinishes(cfg: Config, s: State)
    requires Inv(cfg, s) && PackerStep(cfg, s, 1) == Blocked && !Sending(s.c.pc)
    requires MakerStep(cfg, s) == Blocked && QueryStep(cfg, s) == Blocked
    ensures s.c.pc == CExit && s.m.pc == MExit && s.q.pc == QExit
  {
    hide Inv, PackerStep, MakerStep, QueryStep;
    PackerBlocked(cfg, s);
    MakerBlocked(cfg, s);
    QueryBlocked(cfg, s);
    RingSizes(cfg, s);
    AtExit(cfg, s);
  }

  lemma {:induction false} AtExit(cfg: Config, s: State)
    requires Inv(cfg, s)
    ensures s.c.pc == CExit ==> s.pcsDone && |s.stream| == (|s.c.closed| + 1) * RECV_BUF_SIZE
    ensures Sending(s.c.pc) ==> |s.stream| < (|s.c.closed| + 1) * RECV_BUF_SIZE
    ensures s.h.rcvd <= |s.stream|
    ensures s.h.pc == HExit ==> s.h.rcvd == (|s.c.closed| + 1) * RECV_BUF_SIZE
    ensures s.h.pc == HRecv ==>
              s.h.frames <= |s.c.closed| && s.h.rcvd < (s.h.frames + 1) * RECV_BUF_SIZE
    ensures s.h.pc == HRoom ==> s.h.frames <= |s.c.closed|
    ensures s.h.pc == HExit ==> s.h.frames == |s.c.closed| + 1
    ensures s.k.pc == KExit ==> s.k.taken == |s.c.closed| + 1 && s.k.taken <= s.h.frames
    ensures s.k.pc == KWait ==> s.k.taken <= |s.c.closed|
  {
    hide MakerInv, QueryInv, OpenPacket, GreedySoFar, FramesInv, Wire, Ring.Holds, Ring.Slot, DecodeFrame;
    FrameCount(s.c.frames, s.c.closed, Ended(s.c.pc));
  }

  /** A sender that the connection has no room for can go on once the host reads. */
  lemma {:induction false} SenderIsHeard(cfg: Config, s: State)
    requires Inv(cfg, s) && WellFormed(cfg)
    requires SinkStep(s) == Blocked && ReceiverStep(s, 1) == Blocked && PackerStep(cfg, s, 1) == Blocked
    ensures !Sending(s.c.pc)
  {
    hide Inv, PackerStep, ReceiverStep, SinkStep;
    SinkBlocked(cfg, s);
    ReceiverBlocked(cfg, s);
    if Sending(s.c.pc) { SenderWaits(cfg, s); }
    RingSizes(cfg, s);
    AtExit(cfg, s);
  }

  /** As long as a thread has not finished, some thread can move. */
  lemma {:induction false} NoDeadlock(cfg: Config, s: State)
    requires Inv(cfg, s) && WellFormed(cfg) && Step(cfg, s, Choose(cfg, s)) == Blocked
    ensures Finished(s)
  {
    hide Inv, QueryStep, MakerStep, PackerStep, ReceiverStep, SinkStep;
    SenderIsHeard(cfg, s);
    StorageFinishes(cfg, s);
    SinkBlocked(cfg, s);
    ReceiverBlocked(cfg, s);
    RingSizes(cfg, s);
    AtExit(cfg, s);
  }

  /** A run that cannot be continued has finished. */
  lemma {:induction false} StuckMeansFinished(cfg: Config, actions: seq<Action>)
    requires WellFormed(cfg) && Run(cfg, actions).Ran?
    requires forall a :: Step(cfg, Run(cfg, actions).s, a) == Blocked
    ensures Finished(Run(cfg, actions).s)
  {
    hide Inv, Step, Init, Choose, Finished;
    RunSafe(cfg, actions);
    var s := Run(cfg, actions).s;
    NoDeadlock(cfg, s);
  }

  // -------------------------------------------------- from any state on

  lemma {:induction false} RunOneMore(cfg: Config, actions: seq<Action>, a: Action)
    requires Run(cfg, actions).Ran?
    ensures Run(cfg, actions + [a]) == Step(cfg, Run(cfg, actions).s, a)
  {
    hide Step, Init;
    var more := actions + [a];
    assert more[..|more| - 1] == actions;
  }

  /** Every run can be continued until it finishes or leaves memory. */
  lemma {:induction false} Continue(cfg: Config, actions: seq<Action>) returns (all: seq<Action>)
    requires WellFormed(cfg) && Run(cfg, actions).Ran?
    ensures actions <= all
    ensures Run(cfg, all) == Fault || (Run(cfg, all).Ran? && Finished(Run(cfg, all).s))
    decreases Work(cfg, Init(cfg)) - |actions|
  {
    hide Work, Init, Step, Inv, Choose, Finished;
    RunSafe(cfg, actions);
    RunsAreBounded(cfg, actions);
    var s := Run(cfg, actions).s;
    var a := Choose(cfg, s);
    RunOneMore(cfg, actions, a);
    match Step(cfg, s, a) {
      case Blocked =>
        NoDeadlock(cfg, s);
        all := actions;
      case Fault =>
        all := actions + [a];
      case Ran(_) =>
        all := Continue(cfg, actions + [a]);
        assert actions <= actions + [a];
    }
  }

  /** All copies of all interleavings stay within their buffers if and only if
      every record fits one packet. */
  lemma {:induction false} SafeExactlyIfRecordsFit(cfg: Config)
    requires WellFormed(cfg)
    ensures (forall actions :: Run(cfg, actions) != Fault)
       <==> (forall i :: 0 <= i < |cfg.records| ==> |cfg.records[i]| <= 1048568)
  {
    hide Inv, Step, Init;
    if RecordsFit(cfg.records) {
      forall actions ensures Run(cfg, actions) != Fault {
        RunSafe(cfg, actions);
      }
    } else {
      var all := Continue(cfg, []);
      if Run(cfg, all) != Fault {
        RunSafe(cfg, all);
        FinishedMeansFit(cfg, Run(cfg, all).s);
      }
    }
  }

  lemma {:induction false} FinishedMeansFit(cfg: Config, s: State)
    requires Inv(cfg, s) && s.c.pc == CExit
    ensures RecordsFit(cfg.records)
  {
    hide QueryInv, MakerInv, ReceiverInv, SinkInv, FramesInv, SentInv, OpenPacket;
    assert cfg.records[..Packed(s.c)] == cfg.records;
  }
}

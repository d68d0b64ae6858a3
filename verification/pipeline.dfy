/** The split query: the threads of storage/secure/sec_ssd_server.c and
    host/secure/host_server.c as a state machine. An action is one step of one
    thread, so a sequence of actions is one interleaving. Each read of a shared
    variable that decides what happens next, and each write, is a step of its
    own. A spin loop is a step that is blocked until the loop can exit; where the
    loop reads a tail and a flag in turn, the step is taken on either, since one
    of the reads alone ends the loop. */
module Pipeline {
  import opened Types
  import opened Words
  import opened Rings
  import opened Packets

  const REC_PKT: nat := 0
  const END_PKT: nat := 2

  /** record_batch as the host sees it. */
  datatype Batch = Batch(kind: nat, num: nat, data: seq<byte>)

  /** serialize_before_send */
  function EncodeFrame(b: Batch): seq<byte>
    requires b.kind < UINT32 && b.num < UINT32
  {
    LE32(b.kind) + LE32(b.num) + b.data
  }

  /** The reader in the host's producer_func. */
  function DecodeFrame(f: seq<byte>): Batch
    requires |f| >= 8
  {
    Batch(FromLE32(f[..4]), FromLE32(f[4..8]), f[8..])
  }

  /** memcpy(buf + at, src, |src|) */
  function Overwrite(buf: seq<byte>, at: nat, src: seq<byte>): seq<byte>
    requires at + |src| <= |buf|
  {
    buf[..at] + src + buf[at + |src|..]
  }

  /** What a run depends on: the rows of the query in serialised form, the pool
      sizes as exponents of two, the number of bytes that the connection holds
      until the host reads them, and the initial contents of the memory. */
  datatype Config = Config(records: seq<Record>,
                           mkBits: nat, mkPool: seq<nat>,
                           pcsBits: nat, pcsPool: seq<Record>,
                           hostBits: nat, hostPool: seq<Batch>, window: nat,
                           serialData: seq<byte>, numRecords: nat, tcpData: seq<byte>)

  ghost predicate WellFormed(cfg: Config) {
    && |cfg.records| < 0x8000_0000 && cfg.window > 0
    && Ring(cfg.mkBits, 0, 0, cfg.mkPool).Shape()
    && Ring(cfg.pcsBits, 0, 0, cfg.pcsPool).Shape()
    && Ring(cfg.hostBits, 0, 0, cfg.hostPool).Shape()
    && |cfg.serialData| == PAYLOAD && cfg.numRecords < UINT32 && |cfg.tcpData| == RECV_BUF_SIZE
  }

  // ------------------------------------------------------------- threads

  /** The query: it pushes row after row on the mk_rec queue, then sets done. */
  datatype QueryPc = QWait | QWrite | QInc | QExit
  datatype Query = Query(pc: QueryPc, next: nat)

  /** mk_rec_thread: lines 190-196, 197 (done), 197 (head == tail), then one
      make_ssd_record call, which takes a row and puts a record. */
  datatype MakerPc = MWait | MDone | MEmpty | MTake | MRead | MPop | MRoom | MPut | MPush | MStop | MExit
  datatype Maker = Maker(pc: MakerPc, row: nat, taken: nat, made: nat)

  /** consumer_func of the storage server: the first record of a packet (lines
      100-119), further records (lines 126-152), sending (lines 155-165), and the
      end packet (lines 169-179). `taken`, `open`, `closed` and `frames` record
      the history: records popped, groups, and frames; no step looks at them. */
  datatype PackerPc =
    | CWait | CDone | CEmpty | COpen | CFirst | CPopFirst
    | CMore | CMoreDone | CMoreEmpty | CNext | CAdd | CPopNext
    | CClose | CSend | CEnd | CSendEnd | CExit
  datatype Packer = Packer(pc: PackerPc, sbytes: nat, window: int, num: nat, data: seq<byte>,
                           batch: seq<byte>, nbuffer: nat, packetsSent: nat, rows: nat,
                           taken: nat, open: seq<Record>, closed: seq<seq<Record>>,
                           frames: seq<seq<byte>>)

  /** producer_func of the host; `frames` counts the frames it has queued. */
  datatype ReceiverPc = HRecv | HParse | HRoom | HPut | HPush | HExit
  datatype Receiver = Receiver(pc: ReceiverPc, tcp: seq<byte>, nbuffer: nat, batch: Batch,
                               rcvd: nat, frames: nat)

  /** consumer_func of the host; `table` is what batch_deserialize_add was given. */
  datatype SinkPc = KWait | KRead | KPop | KUse | KExit
  datatype Sink = Sink(pc: SinkPc, batch: Batch, taken: nat, table: seq<Batch>)

  datatype State = State(mk: Ring<nat>, mkDone: bool, pcs: Ring<Record>, pcsDone: bool,
                         q: Query, m: Maker, c: Packer,
                         stream: seq<byte>, h: Receiver, ring: Ring<Batch>, k: Sink)

  /** One step. The two that move bytes over the connection carry the number of
      bytes that the send or receive call happens to transfer. */
  datatype Action = StepQuery | StepMaker | StepPacker(len: nat) | StepReceiver(len: nat) | StepSink

  /** A step runs, or cannot run now, or would access memory out of bounds. */
  datatype Outcome = Ran(s: State) | Blocked | Fault

  function Init(cfg: Config): State {
    State(Ring(cfg.mkBits, 0, 0, cfg.mkPool), false, Ring(cfg.pcsBits, 0, 0, cfg.pcsPool), false,
          Query(QWait, 0), Maker(MWait, 0, 0, 0),
          Packer(CWait, 0, 0, cfg.numRecords, cfg.serialData, [], 0, 0, 0, 0, [], [], []),
          [], Receiver(HRecv, cfg.tcpData, 0, Batch(0, 0, []), 0, 0),
          Ring(cfg.hostBits, 0, 0, cfg.hostPool), Sink(KWait, Batch(0, 0, []), 0, []))
  }

  function QueryStep(cfg: Config, s: State): Outcome {
    if !s.mk.Shape() then Fault else
    match s.q.pc
    case QWait =>
      if s.q.next == |cfg.records| then Ran(s.(mkDone := true, q := s.q.(pc := QExit)))
      else if s.mk.Full() then Blocked
      else Ran(s.(q := s.q.(pc := QWrite)))
    case QWrite => Ran(s.(mk := s.mk.Write(s.q.next), q := s.q.(pc := QInc)))
    case QInc => Ran(s.(mk := s.mk.IncTail(), q := Query(QWait, s.q.next + 1)))
    case QExit => Blocked
  }

  function MakerStep(cfg: Config, s: State): Outcome {
    if !s.mk.Shape() || !s.pcs.Shape() then Fault else
    match s.m.pc
    case MWait =>
      if !s.mk.Empty() || s.mkDone then Ran(s.(m := s.m.(pc := MDone))) else Blocked
    case MDone => Ran(s.(m := s.m.(pc := if s.mkDone then MEmpty else MTake)))
    case MEmpty => Ran(s.(m := s.m.(pc := if s.mk.Empty() then MStop else MTake)))
    case MTake => if s.mk.Empty() then Blocked else Ran(s.(m := s.m.(pc := MRead)))
    case MRead => Ran(s.(m := s.m.(pc := MPop, row := s.mk.Read())))
    case MPop => Ran(s.(mk := s.mk.IncHead(), m := s.m.(pc := MRoom, taken := s.m.taken + 1)))
    case MRoom => if s.pcs.Full() then Blocked else Ran(s.(m := s.m.(pc := MPut)))
    case MPut =>
      if s.m.row >= |cfg.records| then Fault
      else Ran(s.(pcs := s.pcs.Write(cfg.records[s.m.row]), m := s.m.(pc := MPush)))
    case MPush => Ran(s.(pcs := s.pcs.IncTail(), m := s.m.(pc := MWait, made := s.m.made + 1)))
    case MStop => Ran(s.(pcsDone := true, m := s.m.(pc := MExit)))
    case MExit => Blocked
  }

  function PackerStep(cfg: Config, s: State, len: nat): Outcome {
    var c := s.c;
    if !s.pcs.Shape() then Fault else
    match c.pc
    case CWait => if !s.pcs.Empty() || s.pcsDone then Ran(s.(c := c.(pc := CDone))) else Blocked
    case CDone => Ran(s.(c := c.(pc := if s.pcsDone then CEmpty else COpen)))
    case CEmpty => Ran(s.(c := c.(pc := if s.pcs.Empty() then CEnd else COpen)))
    case COpen => if s.pcs.Empty() then Blocked else Ran(s.(c := c.(pc := CFirst, window := PAYLOAD)))
    case CFirst =>
      var r := s.pcs.Read();
      if |r| > |c.data| then Fault
      else Ran(s.(c := c.(pc := CPopFirst, sbytes := |r|, data := Overwrite(c.data, 0, r), open := [r])))
    case CPopFirst =>
      Ran(s.(pcs := s.pcs.IncHead(),
             c := c.(pc := CMore, num := 1, window := c.window - c.sbytes, taken := c.taken + 1)))
    case CMore => if !s.pcs.Empty() || s.pcsDone then Ran(s.(c := c.(pc := CMoreDone))) else Blocked
    case CMoreDone => Ran(s.(c := c.(pc := if s.pcsDone then CMoreEmpty else CNext)))
    case CMoreEmpty => Ran(s.(c := c.(pc := if s.pcs.Empty() then CClose else CNext)))
    case CNext => if s.pcs.Empty() then Blocked else Ran(s.(c := c.(pc := CAdd)))
    case CAdd =>
      var r := s.pcs.Read();
      if c.window < |r| then Ran(s.(c := c.(pc := CClose)))
      else if c.sbytes + |r| > |c.data| then Fault
      else Ran(s.(c := c.(pc := CPopNext, data := Overwrite(c.data, c.sbytes, r), num := c.num + 1,
                          sbytes := c.sbytes + |r|, window := c.window - |r|, open := c.open + [r])))
    case CPopNext => Ran(s.(pcs := s.pcs.IncHead(), c := c.(pc := CMore, taken := c.taken + 1)))
    case CClose => StartSending(s, REC_PKT, c.(pc := CSend, rows := c.rows + c.num,
                                               closed := c.closed + [c.open], open := []))
    case CSend => Send(cfg, s, len, CWait)
    case CEnd => StartSending(s, END_PKT, c.(pc := CSendEnd))
    case CSendEnd => Send(cfg, s, len, CExit)
    case CExit => Blocked
  }

  /** serialize_before_send into batch_pkt. */
  function StartSending(s: State, kind: nat, c: Packer): Outcome {
    if kind >= UINT32 || c.num >= UINT32 then Fault
    else
      var f := EncodeFrame(Batch(kind, c.num, c.data));
      Ran(s.(c := c.(batch := f, nbuffer := 0, frames := c.frames + [f])))
  }

  /** One SSL_write of len bytes, which the connection must have room for. */
  function Send(cfg: Config, s: State, len: nat, after: PackerPc): Outcome {
    var c := s.c;
    if !(0 < len <= RECV_BUF_SIZE - c.nbuffer && |s.stream| + len <= s.h.rcvd + cfg.window) then Blocked
    else if c.nbuffer + len > |c.batch| then Fault
    else
      var s' := s.(stream := s.stream + c.batch[c.nbuffer..c.nbuffer + len]);
      if c.nbuffer + len < RECV_BUF_SIZE then Ran(s'.(c := c.(nbuffer := c.nbuffer + len)))
      else Ran(s'.(c := c.(pc := after, nbuffer := 0, packetsSent := c.packetsSent + 1)))
  }

  function ReceiverStep(s: State, len: nat): Outcome {
    var h := s.h;
    if !s.ring.Shape() then Fault else
    match h.pc
    case HRecv =>
      if !(0 < len <= RECV_BUF_SIZE - h.nbuffer && h.rcvd + len <= |s.stream|) then Blocked
      else if h.nbuffer + len > |h.tcp| then Fault
      else
        var h' := h.(tcp := Overwrite(h.tcp, h.nbuffer, s.stream[h.rcvd..h.rcvd + len]), rcvd := h.rcvd + len);
        if h.nbuffer + len < RECV_BUF_SIZE then Ran(s.(h := h'.(nbuffer := h.nbuffer + len)))
        else Ran(s.(h := h'.(pc := HParse, nbuffer := 0)))
    case HParse =>
      if |h.tcp| < 8 then Fault else Ran(s.(h := h.(pc := HRoom, batch := DecodeFrame(h.tcp))))
    case HRoom => if s.ring.Full() then Blocked else Ran(s.(h := h.(pc := HPut)))
    case HPut => Ran(s.(ring := s.ring.Write(h.batch), h := h.(pc := HPush)))
    case HPush =>
      Ran(s.(ring := s.ring.IncTail(),
             h := h.(pc := if h.batch.kind == END_PKT then HExit else HRecv, frames := h.frames + 1)))
    case HExit => Blocked
  }

  function SinkStep(s: State): Outcome {
    var k := s.k;
    if !s.ring.Shape() then Fault else
    match k.pc
    case KWait => if s.ring.Empty() then Blocked else Ran(s.(k := k.(pc := KRead)))
    case KRead => Ran(s.(k := k.(pc := KPop, batch := s.ring.Read())))
    case KPop => Ran(s.(ring := s.ring.IncHead(), k := k.(pc := KUse, taken := k.taken + 1)))
    case KUse =>
      if k.batch.kind == END_PKT then Ran(s.(k := k.(pc := KExit)))
      else Ran(s.(k := k.(pc := KWait, table := k.table + [k.batch])))
    case KExit => Blocked
  }

  function Step(cfg: Config, s: State, a: Action): Outcome {
    match a
    case StepQuery => QueryStep(cfg, s)
    case StepMaker => MakerStep(cfg, s)
    case StepPacker(len) => PackerStep(cfg, s, len)
    case StepReceiver(len) => ReceiverStep(s, len)
    case StepSink => SinkStep(s)
  }

  /** A whole run: the actions in order, from the start. */
  function Run(cfg: Config, actions: seq<Action>): Outcome {
    if actions == [] then Ran(Init(cfg))
    else
      var n := |actions| - 1;
      match Run(cfg, actions[..n])
      case Ran(s) => Step(cfg, s, actions[n])
      case other => other
  }
}

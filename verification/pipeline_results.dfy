/** What a run of the split query delivers. */
module PipelineResults {
  import opened Types
  import opened Packets
  import opened Pipeline
  import opened PipelineInvariant
  import opened PipelineSafety
  import opened PipelineHost
  import opened PipelineLiveness
  import opened RecordFormat

  /** What the invariant says about the packets. */
  lemma {:induction false} PacketFacts(cfg: Config, s: State)
    requires Inv(cfg, s)
    ensures s.c.closed <= Greedy(cfg.records) && Joined(s.c.closed) <= cfg.records
    ensures |s.k.table| <= |s.c.closed|
    ensures forall i :: 0 <= i < |s.k.table| ==> BatchOf(s.k.table[i], s.c.closed[i])
    ensures s.k.pc == KExit ==> |s.k.table| == |s.c.closed| && Ended(s.c.pc)
    ensures Ended(s.c.pc) ==> Joined(s.c.closed) == cfg.records && s.c.closed == Greedy(cfg.records)
    ensures s.c.pc == CExit ==>
              s.c.packetsSent == |Greedy(cfg.records)| + 1 && s.c.rows == |cfg.records|
  {
    hide QueryInv, MakerInv, ReceiverInv, FramesInv, Bytes, Joined, Wire, DecodeFrame, BatchOf, RecordsFit;
    var c, rs := s.c, cfg.records;
    FrameCount(c.frames, c.closed, Ended(c.pc));
    forall i | 0 <= i < |s.k.table| ensures BatchOf(s.k.table[i], c.closed[i]) {
      FrameCarries(c.frames, c.closed, Ended(c.pc), i);
    }
    assert rs[..Packed(c)] <= rs;
    if Ended(c.pc) {
      assert rs[..Packed(c)] == rs && rs[Packed(c)..] == [];
      assert Joined(c.closed) + [] == Joined(c.closed);
      assert c.closed + [] == c.closed;
    }
  }

  lemma FrameCarries(frames: seq<seq<byte>>, closed: seq<seq<Record>>, ended: bool, i: nat)
    requires FramesInv(frames, closed, ended) && i < |closed|
    ensures |frames[i]| == RECV_BUF_SIZE && BatchOf(DecodeFrame(frames[i]), closed[i])
  {
    hide DecodeFrame, BatchOf;
    assert Carries(frames[i], closed[i]);
  }

  /** The packets do not depend on the schedule: at any moment of any run, the
      packets given to the host's table are the first packets of the greedy split,
      and all of them once the host has seen the end packet. */
  lemma {:induction false} PacketsAreGreedy(cfg: Config, actions: seq<Action>)
    requires WellFormed(cfg) && Run(cfg, actions).Ran?
    ensures var s, gs := Run(cfg, actions).s, Greedy(cfg.records);
            && |s.k.table| <= |gs|
            && (forall i :: 0 <= i < |s.k.table| ==> BatchOf(s.k.table[i], gs[i]))
            && (s.k.pc == KExit ==> |s.k.table| == |gs|)
            && (s.c.pc == CExit ==> s.c.packetsSent == |gs| + 1 && s.c.rows == |cfg.records|)
  {
    hide Inv, Run, BatchOf, Greedy;
    RunSafe(cfg, actions);
    PacketFacts(cfg, Run(cfg, actions).s);
  }

  /** Every row of the query reaches the host's table once and in order: at any
      moment of any interleaving, and for any way in which the calls cut the byte
      stream, the table holds a prefix of the rows, and all rows when the host
      consumer has seen the end packet. */
  lemma {:induction false} RowsArriveInOrder(cfg: Config, rows: seq<Mem>, actions: seq<Action>)
    requires WellFormed(cfg) && Run(cfg, actions).Ran?
    requires (forall i :: 0 <= i < |rows| ==> IsRow(rows[i])) && cfg.records == Serialized(rows)
    ensures var s := Run(cfg, actions).s;
            && Delivered(s.k.table).Some? && Delivered(s.k.table).value <= rows
            && (s.k.pc == KExit ==> Delivered(s.k.table).value == rows)
  {
    hide Inv, Run, BatchOf, Greedy, Joined, Delivered, Serialize, IsRow;
    RunSafe(cfg, actions);
    var s := Run(cfg, actions).s;
    PacketFacts(cfg, s);
    var n := |s.k.table|;
    var gs := s.c.closed[..n];
    assert s.c.closed == gs + s.c.closed[n..];
    JoinedConcat(gs, s.c.closed[n..]);
    var got := rows[..|Joined(gs)|];
    assert Joined(gs) == Serialized(got) by {
      assert Joined(gs) == cfg.records[..|Joined(gs)|];
    }
    DeliveredGroups(s.k.table, gs, got);
    if s.k.pc == KExit {
      assert gs == s.c.closed;
    }
  }

  /** Every run can be continued to one that delivers all rows, and does not end
      before: if every record fits a packet, the split query always completes. */
  lemma {:induction false} QueryCompletes(cfg: Config, rows: seq<Mem>, actions: seq<Action>)
      returns (all: seq<Action>)
    requires WellFormed(cfg) && RecordsFit(cfg.records) && Run(cfg, actions).Ran?
    requires (forall i :: 0 <= i < |rows| ==> IsRow(rows[i])) && cfg.records == Serialized(rows)
    ensures actions <= all && Run(cfg, all).Ran? && Finished(Run(cfg, all).s)
    ensures Delivered(Run(cfg, all).s.k.table) == Some(rows)
  {
    hide Run, Delivered, Serialize, IsRow;
    all := Continue(cfg, actions);
    RunSafe(cfg, all);
    RowsArriveInOrder(cfg, rows, all);
  }
}

/** The timers of a control block over whole runs: the retransmission timeout and the window probe. */
module KcpTimers {
  import opened Common
  import opened KcpTypes
  import opened KcpWire
  import opened KcpSpec
  import opened KcpInvariant
  import opened KcpCongestion

  /** The timeout is the initial one or at least the configured minimum, and never above the maximum. */
  predicate RtoOk(cfg: Config, c: Clock) {
    c.rto <= RTO_MAX && (c.rto == RTO_DEF || Min(cfg.minRto, RTO_MAX) <= c.rto)
  }

  /** No probe is waited for, or one between the shortest and the longest wait. */
  predicate ProbeOk(f: Flow) {
    f.probeWait == 0 || PROBE_INIT <= f.probeWait <= PROBE_LIMIT
  }

  predicate TimersOk(k: Kcb) { RtoOk(k.cfg, k.clock) && ProbeOk(k.flow) }

  /** Every round-trip sample brings the timeout within its bounds. */
  lemma UpdateAckBounds(cfg: Config, c: Clock, rtt: nat)
    ensures Min(cfg.minRto, RTO_MAX) <= UpdateAck(cfg, c, rtt).rto <= RTO_MAX
  {
  }

  lemma ProbeBounds(f: Flow, current: u32)
    requires ProbeOk(f)
    ensures ProbeOk(Probe(f, current))
  {
  }

  lemma InputSegmentTimers(k: Kcb, seg: Segment)
    requires TimersOk(k)
    ensures TimersOk(InputSegment(k, seg))
  {
    hide ParseUna, ParseAck, ParseData, UpdateAck, TimeDiff;
    if TimeDiff(k.clock.current, seg.ts) >= 0 { UpdateAckBounds(k.cfg, k.clock, TimeDiff(k.clock.current, seg.ts)); }
  }

  lemma {:induction false} InputLoopTimers(k: Kcb, latest: Latest, b: seq<byte>)
    requires TimersOk(k)
    ensures TimersOk(InputLoop(k, latest, b).k)
    decreases |b|
  {
    hide InputSegment, Newer, TimersOk;
    if |b| >= OVERHEAD {
      var len := DataLength(b);
      if Read32(b, 0) == k.cfg.conv && !(|b| - OVERHEAD < len || len >= 0x8000_0000) {
        var seg := ReadHeader(b, b[OVERHEAD..OVERHEAD + len]);
        if KnownCommand(seg.cmd) {
          InputSegmentTimers(k, seg);
          InputLoopTimers(InputSegment(k, seg), if seg.cmd == CMD_ACK then Newer(latest, seg.sn, seg.ts) else latest,
                          b[OVERHEAD + len..]);
        }
      }
    }
  }

  lemma InputTimers(k: Kcb, b: seq<byte>)
    requires TimersOk(k) && 0 < k.cfg.mss
    ensures TimersOk(Input(k, b).0)
  {
    hide InputLoop, ParseFastAck, Grow, TimeDiff;
    InputLoopTimers(k, NoAck, b);
  }

  lemma FlushTimers(k: Kcb)
    requires TimersOk(k)
    ensures TimersOk(Flush(k).0)
  {
    hide FillWindow, FlushData, FlushAcks, FlushProbes, Probe, SendWindow, Adjust;
    if k.clock.updated {
      ProbeBounds(k.flow, k.clock.current);
      FillWindowFrame(AfterProbes(k), SendWindow(AfterProbes(k)));
    }
  }

  lemma ApplyTimers(k: Kcb, op: Op)
    requires TimersOk(k) && 0 < k.cfg.mss
    ensures TimersOk(Apply(k, op))
  {
    match op
    case DoSend(data) =>
    case DoRecv(len) => RecvTimers(k, len);
    case DoInput(bytes) => InputTimers(k, bytes);
    case DoFlush => FlushTimers(k);
    case DoUpdate(now) => UpdateTimers(k, now);
  }

  lemma RecvTimers(k: Kcb, len: int)
    requires TimersOk(k)
    ensures TimersOk(Recv(k, len).0)
  {
    hide MoveReady;
  }

  lemma UpdateTimers(k: Kcb, now: u32)
    requires TimersOk(k)
    ensures TimersOk(Update(k, now).0)
  {
    hide Flush, TimeDiff;
    forall c: Clock | c.rto == k.clock.rto ensures TimersOk(Flush(k.(clock := c)).0) {
      FlushTimers(k.(clock := c));
    }
  }

  lemma {:induction false} RunTimers(k: Kcb, ops: seq<Op>)
    requires TimersOk(k) && 0 < k.cfg.mss
    ensures TimersOk(Run(k, ops))
    decreases |ops|
  {
    hide Apply, TimersOk;
    if |ops| > 0 {
      ApplyTimers(k, ops[0]);
      RunTimers(Apply(k, ops[0]), ops[1..]);
    }
  }

  /** In every run, with any settings, the retransmission timeout and the probe wait keep their bounds. */
  lemma EveryRunTimers(cfg: Config, ops: seq<Op>)
    requires 0 < cfg.mss
    ensures TimersOk(Run(Create(cfg), ops))
  {
    RunTimers(Create(cfg), ops);
  }

  // ----- smoothing in 32 bits -----

  const SHORT := 0x1000_0000

  /** No intermediate value of the smoothing of one sample leaves 32 signed bits. */
  predicate StepFits(cfg: Config, c: Clock, rtt: nat) {
    var c' := UpdateAck(cfg, c, rtt);
    && 7 * c.srtt + rtt < 0x8000_0000 && 3 * c.rttval + Max(rtt, c.srtt) < 0x8000_0000
    && 4 * c'.rttval < 0x8000_0000 && c'.srtt + Max(cfg.interval, 4 * c'.rttval) < 0x8000_0000
  }

  predicate AveragesShort(c: Clock) { c.srtt < SHORT && c.rttval < SHORT }

  /** Whether a segment gives a round-trip sample. */
  predicate IsSample(k: Kcb, seg: Segment) {
    seg.cmd == CMD_ACK && TimeDiff(k.clock.current, seg.ts) >= 0
  }

  predicate SampleShort(k: Kcb, seg: Segment) {
    IsSample(k, seg) ==> TimeDiff(k.clock.current, seg.ts) < SHORT
  }

  predicate SampleFits(k: Kcb, seg: Segment) {
    IsSample(k, seg) ==> StepFits(k.cfg, k.clock, TimeDiff(k.clock.current, seg.ts))
  }

  /** Every segment that ikcp_input handles satisfies p in the state in which it is handled. */
  ghost predicate LoopHolds(k: Kcb, b: seq<byte>, p: (Kcb, Segment) -> bool)
    decreases |b|
  {
    |b| >= OVERHEAD ==>
      var len := DataLength(b);
      Read32(b, 0) == k.cfg.conv && len <= |b| - OVERHEAD && len < 0x8000_0000 ==>
        var seg := ReadHeader(b, b[OVERHEAD..OVERHEAD + len]);
        KnownCommand(seg.cmd) ==> p(k, seg) && LoopHolds(InputSegment(k, seg), b[OVERHEAD + len..], p)
  }

  /** Every round-trip sample of a run is short. */
  ghost predicate SamplesShort(k: Kcb, ops: seq<Op>)
    requires 0 < k.cfg.mss
    decreases |ops|
  {
    |ops| > 0 ==>
      && (ops[0].DoInput? ==> LoopHolds(k, ops[0].bytes, SampleShort))
      && SamplesShort(Apply(k, ops[0]), ops[1..])
  }

  /** The averages are short in every state of a run, and every smoothing step fits. */
  ghost predicate Smooth(k: Kcb, ops: seq<Op>)
    requires 0 < k.cfg.mss
    decreases |ops|
  {
    && AveragesShort(k.clock)
    && (|ops| > 0 ==>
          && (ops[0].DoInput? ==> LoopHolds(k, ops[0].bytes, SampleFits))
          && Smooth(Apply(k, ops[0]), ops[1..]))
  }

  /** Smoothing a short sample fits, and keeps the averages short. */
  lemma SmoothingFits(cfg: Config, c: Clock, rtt: nat)
    requires AveragesShort(c) && rtt < SHORT && cfg.interval <= 0x7000_0000
    ensures StepFits(cfg, c, rtt) && AveragesShort(UpdateAck(cfg, c, rtt))
  {
  }

  lemma SegmentSmooth(k: Kcb, seg: Segment)
    requires AveragesShort(k.clock) && SampleShort(k, seg) && k.cfg.interval <= 0x7000_0000
    ensures SampleFits(k, seg) && AveragesShort(InputSegment(k, seg).clock)
  {
    hide ParseUna, ParseAck, ParseData, UpdateAck, TimeDiff, StepFits;
    if IsSample(k, seg) { SmoothingFits(k.cfg, k.clock, TimeDiff(k.clock.current, seg.ts)); }
  }

  lemma {:induction false} LoopSmooth(k: Kcb, latest: Latest, b: seq<byte>)
    requires AveragesShort(k.clock) && LoopHolds(k, b, SampleShort) && k.cfg.interval <= 0x7000_0000
    ensures LoopHolds(k, b, SampleFits) && AveragesShort(InputLoop(k, latest, b).k.clock)
    decreases |b|
  {
    hide InputSegment, Newer, AveragesShort, SampleShort, SampleFits;
    if |b| >= OVERHEAD {
      var len := DataLength(b);
      if Read32(b, 0) == k.cfg.conv && !(|b| - OVERHEAD < len || len >= 0x8000_0000) {
        var seg := ReadHeader(b, b[OVERHEAD..OVERHEAD + len]);
        if KnownCommand(seg.cmd) {
          SegmentSmooth(k, seg);
          LoopSmooth(InputSegment(k, seg), if seg.cmd == CMD_ACK then Newer(latest, seg.sn, seg.ts) else latest,
                     b[OVERHEAD + len..]);
        }
      }
    }
  }

  lemma InputSmooth(k: Kcb, b: seq<byte>)
    requires AveragesShort(k.clock) && LoopHolds(k, b, SampleShort) && k.cfg.interval <= 0x7000_0000 && 0 < k.cfg.mss
    ensures LoopHolds(k, b, SampleFits) && AveragesShort(Input(k, b).0.clock)
  {
    LoopSmooth(k, NoAck, b);
    hide InputLoop, LoopHolds, ParseFastAck, Grow, TimeDiff;
  }

  /** Only ikcp_input changes the averages. */
  lemma AveragesKept(k: Kcb, op: Op)
    requires 0 < k.cfg.mss && !op.DoInput?
    ensures Apply(k, op).clock.srtt == k.clock.srtt && Apply(k, op).clock.rttval == k.clock.rttval
  {
    hide Flush, Send, Recv, TimeDiff;
    match op
    case DoSend(data) =>
    case DoRecv(len) => RecvClock(k, len);
    case DoFlush => FlushAverages(k);
    case DoUpdate(now) =>
      forall c: Clock
        ensures Flush(k.(clock := c)).0.clock.srtt == c.srtt && Flush(k.(clock := c)).0.clock.rttval == c.rttval
      {
        FlushAverages(k.(clock := c));
      }
  }

  lemma RecvClock(k: Kcb, len: int)
    ensures Recv(k, len).0.clock == k.clock
  {
    hide MoveReady;
  }

  lemma FlushAverages(k: Kcb)
    ensures Flush(k).0.clock.srtt == k.clock.srtt && Flush(k).0.clock.rttval == k.clock.rttval
  {
    hide FillWindow, FlushData, FlushAcks, FlushProbes, Probe, SendWindow, Adjust;
    if k.clock.updated { FillWindowFrame(AfterProbes(k), SendWindow(AfterProbes(k))); }
  }

  lemma {:induction false} RunSmooth(k: Kcb, ops: seq<Op>)
    requires 0 < k.cfg.mss && k.cfg.interval <= 0x7000_0000 && AveragesShort(k.clock) && SamplesShort(k, ops)
    ensures Smooth(k, ops)
    decreases |ops|
  {
    hide Apply, AveragesShort, LoopHolds;
    if |ops| > 0 {
      ApplySmooth(k, ops[0]);
      RunSmooth(Apply(k, ops[0]), ops[1..]);
    }
  }

  lemma ApplySmooth(k: Kcb, op: Op)
    requires 0 < k.cfg.mss && k.cfg.interval <= 0x7000_0000 && AveragesShort(k.clock)
    requires op.DoInput? ==> LoopHolds(k, op.bytes, SampleShort)
    ensures op.DoInput? ==> LoopHolds(k, op.bytes, SampleFits)
    ensures AveragesShort(Apply(k, op).clock)
  {
    hide LoopHolds, Input;
    if op.DoInput? {
      InputSmooth(k, op.bytes);
    } else {
      AveragesKept(k, op);
      hide Apply;
    }
  }

  /** In every run whose round-trip samples are below 2^28 milliseconds, the averages stay below 2^28 in
      every state and no smoothing step leaves 32 signed bits. */
  lemma EveryRunSmooth(cfg: Config, ops: seq<Op>)
    requires 0 < cfg.mss && cfg.interval <= 0x7000_0000 && SamplesShort(Create(cfg), ops)
    ensures Smooth(Create(cfg), ops)
  {
    RunSmooth(Create(cfg), ops);
  }
}

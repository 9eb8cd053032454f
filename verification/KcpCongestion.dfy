/** Congestion control over whole runs of a control block. */
module KcpCongestion {
  import opened Common
  import opened KcpTypes
  import opened KcpWire
  import opened KcpSpec
  import opened KcpInvariant
  import opened KcpTiming

  /** The largest window any run reaches. */
  function WindowLimit(cfg: Config): nat { Max(65535, 32767 + cfg.fastResend) }

  /** Configurations whose 32-bit congestion arithmetic cannot overflow. */
  ghost predicate Fits(cfg: Config) {
    ConfigOk(cfg) && cfg.mss * cfg.mss < U32 && (WindowLimit(cfg) + 3) * cfg.mss < U32
  }

  ghost predicate WindowOk(k: Kcb) {
    CreditOk(k.cfg.mss, k.cc) && k.cc.cwnd <= WindowLimit(k.cfg)
  }

  // ----- operations -----

  lemma {:induction false} InputLoopFrame(k: Kcb, latest: Latest, b: seq<byte>)
    ensures InputLoop(k, latest, b).k.cc == k.cc
    decreases |b|
  {
    hide InputSegment, Newer;
    if |b| >= OVERHEAD {
      var len := DataLength(b);
      if Read32(b, 0) == k.cfg.conv && !(|b| - OVERHEAD < len || len >= 0x8000_0000) {
        var seg := ReadHeader(b, b[OVERHEAD..OVERHEAD + len]);
        if KnownCommand(seg.cmd) {
          InputSegmentFrame(k, seg);
          InputLoopFrame(InputSegment(k, seg), if seg.cmd == CMD_ACK then Newer(latest, seg.sn, seg.ts) else latest,
                         b[OVERHEAD + len..]);
        }
      }
    }
  }

  lemma InputSegmentFrame(k: Kcb, seg: Segment)
    ensures InputSegment(k, seg).cc == k.cc
  {
    hide ParseUna, ParseAck, ParseData, UpdateAck, TimeDiff;
  }

  lemma InputCredit(k: Kcb, b: seq<byte>)
    requires KcbOk(k) && Fits(k.cfg) && WindowOk(k)
    ensures WindowOk(Input(k, b).0)
    ensures k.cc.cwnd <= Input(k, b).0.cc.cwnd <= k.cc.cwnd + if k.cc.cwnd < k.cc.ssthresh then 1 else 2
  {
    InputKeeps(k, b);
    RemoteWindow(Input(k, b).0);
    hide KcbOk, InputLoop, Grow, TimeDiff, MarkFast, InFlight, CreditOk, Fits, WindowLimit;
    if |b| >= OVERHEAD {
      InputLoopFrame(k, NoAck, b);
      Fits32(k.cfg, k.cc, Input(k, b).0.flow.rmtWnd);
      GrowOk(k.cfg, k.cc, Input(k, b).0.flow.rmtWnd);
      LimitCoversRemote(k.cfg);
    }
  }

  lemma RemoteWindow(k: Kcb)
    requires KcbOk(k)
    ensures k.flow.rmtWnd <= 65535 && Off(k.snd.una, k.snd.nxt) <= 65535 && 0 < k.cfg.mss
  {
  }

  lemma LimitCoversRemote(cfg: Config)
    ensures 65535 <= WindowLimit(cfg)
  {
  }

  lemma Fits32(cfg: Config, cc: Congestion, rmtWnd: u32)
    requires Fits(cfg) && cc.cwnd <= WindowLimit(cfg)
    ensures rmtWnd <= 65535 ==> GrowFits(cfg, cc, rmtWnd)
  {
    Monotone(cc.cwnd + 3, WindowLimit(cfg) + 3, cfg.mss);
    if rmtWnd <= 65535 { Monotone(rmtWnd, WindowLimit(cfg) + 3, cfg.mss); }
  }

  lemma {:induction false} FillWindowFrame(k: Kcb, cwnd: u32)
    ensures FillWindow(k, cwnd).cc == k.cc && FillWindow(k, cwnd).clock == k.clock && FillWindow(k, cwnd).flow == k.flow
    decreases |k.snd.queue|
  {
    hide TimeDiff;
    if TimeDiff(k.snd.nxt, Wrap(k.snd.una + cwnd)) < 0 && |k.snd.queue| > 0 {
      FillWindowFrame(k.(snd := k.snd.(queue := k.snd.queue[1..], nQueue := k.snd.nQueue - 1,
                                       buf := k.snd.buf + [Stamp(k, k.snd.queue[0])], nBuf := k.snd.nBuf + 1,
                                       nxt := Wrap(k.snd.nxt + 1))), cwnd);
    }
  }

  lemma FlushCongestion(k: Kcb)
    requires k.clock.updated
    ensures var k2 := Filled(k);
            var d := FlushData(k2, DataStart(k2, Control(k)), 0);
            Flush(k).0.cc == Adjust(k2.cfg, k2.cc, Off(k2.snd.una, k2.snd.nxt), SendWindow(AfterProbes(k)),
              d.change > 0, d.lost)
  {
    hide FillWindow, FlushData, FlushAcks, FlushProbes, Probe, SendWindow, Adjust;
  }

  lemma FlushCredit(k: Kcb)
    requires KcbOk(k) && Fits(k.cfg) && WindowOk(k)
    ensures WindowOk(Flush(k).0)
  {
    hide KcbOk, Flush, FlushData, FillWindow, Control, Adjust, CreditOk, Off, Fits, WindowLimit;
    if k.clock.updated {
      FlushCongestion(k);
      FilledOk(k);
      RemoteWindow(Filled(k));
      var k2 := Filled(k);
      FillWindowFrame(AfterProbes(k), SendWindow(AfterProbes(k)));
      var d0 := DataStart(k2, Control(k));
      var d := FlushData(k2, d0, 0);
      AdjustFits(k2.cfg, k2.cc, Off(k2.snd.una, k2.snd.nxt), SendWindow(AfterProbes(k)), d.change > 0, d.lost);
    } else {
      NotUpdated(k);
    }
  }

  lemma AdjustFits(cfg: Config, cc: Congestion, inFlight: u32, window: u32, changed: bool, lost: bool)
    requires Fits(cfg) && CreditOk(cfg.mss, cc) && cc.cwnd <= WindowLimit(cfg) && inFlight <= 65535
    ensures CreditOk(cfg.mss, Adjust(cfg, cc, inFlight, window, changed, lost))
    ensures Adjust(cfg, cc, inFlight, window, changed, lost).cwnd <= WindowLimit(cfg)
  {
    if changed && cfg.fastResend == 0 {
      AdjustWraps(cfg, cc, inFlight, window, lost);
    } else {
      if changed {
        var cwnd := Max(inFlight / 2, THRESH_MIN) + Resent(cfg);
        Monotone(cwnd, WindowLimit(cfg) + 3, cfg.mss);
        AtMostProduct(cwnd, cfg.mss);
        WrapSmall(cwnd);
      }
      AdjustOk(cfg, cc, inFlight, window, changed, lost);
    }
  }

  /** Without fast resends the limit is 0xffffffff. Should a skip count reach it, adding it to the
      threshold wraps to one less, which the credit follows. */
  lemma AdjustWraps(cfg: Config, cc: Congestion, inFlight: u32, window: u32, lost: bool)
    requires Fits(cfg) && cfg.fastResend == 0 && inFlight <= 65535
    ensures CreditOk(cfg.mss, Adjust(cfg, cc, inFlight, window, true, lost))
    ensures Adjust(cfg, cc, inFlight, window, true, lost).cwnd <= WindowLimit(cfg)
  {
    var ss := Max(inFlight / 2, THRESH_MIN);
    assert Wrap(ss + Resent(cfg)) == ss - 1;
    Monotone(ss - 1, WindowLimit(cfg) + 3, cfg.mss);
    ClipOk(cfg.mss, ss - 1);
    WrapSmall(cfg.mss);
    Distribute(1, 1, cfg.mss);
  }

  lemma ApplyCredit(k: Kcb, op: Op)
    requires KcbOk(k) && Fits(k.cfg) && WindowOk(k)
    ensures WindowOk(Apply(k, op))
  {
    hide KcbOk, Flush, Input, CreditOk, Fits, WindowLimit;
    match op
    case DoSend(data) =>
    case DoRecv(len) => RecvFrame(k, len);
    case DoInput(bytes) => InputCredit(k, bytes);
    case DoFlush => FlushCredit(k);
    case DoUpdate(now) =>
      UpdateIs(k, now);
      var c: Clock :| Update(k, now) == Flush(k.(clock := c)) || Update(k, now) == (k.(clock := c), []);
      ClockIrrelevant(k);
      FlushCredit(k.(clock := c));
  }

  lemma RecvFrame(k: Kcb, len: int)
    ensures Recv(k, len).0.cc == k.cc && Recv(k, len).0.snd == k.snd && Recv(k, len).0.cfg == k.cfg
  {
    hide MoveReady;
  }

  lemma {:induction false} RunCredit(k: Kcb, ops: seq<Op>)
    requires KcbOk(k) && Fits(k.cfg) && WindowOk(k)
    ensures WindowOk(Run(k, ops))
    decreases |ops|
  {
    hide KcbOk, Apply, WindowOk, Fits;
    if |ops| > 0 {
      OkConfig(k);
      ApplyKeeps(k, ops[0]);
      ApplyCredit(k, ops[0]);
      RunCredit(Apply(k, ops[0]), ops[1..]);
    }
  }

  /** In every run, the window and its byte credit stay within one segment of each other and the
      slow-start threshold never drops below its minimum. */
  lemma EveryRunCredit(cfg: Config, ops: seq<Op>)
    requires Fits(cfg)
    ensures CreditOk(cfg.mss, Run(Create(cfg), ops).cc)
  {
    var k := Create(cfg);
    Distribute(-1, 1, cfg.mss);
    RunCredit(k, ops);
  }
}

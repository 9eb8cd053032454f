/** What keeps a connection moving: where the next segment in order is, and that sending it once more
    helps if the datagram arrives. */
module KcpProgress {
  import opened Common
  import opened KcpTypes
  import opened KcpWire
  import opened KcpSpec
  import opened KcpOutput
  import opened KcpInvariant
  import opened KcpNetwork
  import opened KcpLink
  import opened KcpRuns
  import opened KcpReceive
  import opened KcpRetransmit

  ghost predicate BothDrained(n: Net) {
    Drained(n.a.rcv, n.a.cfg.rcvWnd) && Drained(n.b.rcv, n.b.cfg.rcvWnd)
  }

  lemma StepDrains(n: Net, e: Event)
    requires 0 < n.a.cfg.mss && Enabled(n, e) && BothDrained(n)
    ensures BothDrained(StepA(n, e))
  {
    hide KcpSpec.Send, KcpSpec.Recv, Input, Flush, Drained, AfterSend, AfterRecv, Update;
    match e
    case Send(data) => DrainedSend(n.a, data);
    case Recv(len) => RecvDrains(n.a, len);
    case Deliver(g) => InputDrains(n.a, EncodeAll(g));
    case FlushNow => ApplyDrains(n.a, DoFlush);
    case Tick(now) => ApplyDrains(n.a, DoUpdate(now));
  }

  lemma DrainedSend(k: Kcb, data: seq<byte>)
    requires 0 < k.cfg.mss
    ensures k.(snd := KcpSpec.Send(k.cfg, k.snd, data).0).rcv == k.rcv
  {
  }

  lemma {:induction false} RunBothDrained(n: Net, steps: seq<(bool, Event)>)
    requires Configured(n) && BothDrained(n)
    ensures BothDrained(KcpRuns.Run(n, steps))
    decreases |steps|
  {
    hide Drained, StepA, Enabled;
    if |steps| > 0 {
      if steps[0].0 {
        if Enabled(n, steps[0].1) { StepDrains(n, steps[0].1); }
      } else if Enabled(Swap(n), steps[0].1) {
        StepDrains(Swap(n), steps[0].1);
      }
      RunBothDrained(Step(n, steps[0].0, steps[0].1), steps[1..]);
    }
  }

  /** A state of a connection in some run. */
  ghost predicate Reached(n: Net, cfgA: Config, cfgB: Config, steps: seq<(bool, Event)>) {
    && ConfigOk(cfgA) && ConfigOk(cfgB) && cfgA.conv == cfgB.conv && n == KcpRuns.Run(Connect(cfgA, cfgB), steps)
  }

  lemma ReachedOk(n: Net, cfgA: Config, cfgB: Config, steps: seq<(bool, Event)>)
    requires Reached(n, cfgA, cfgB, steps)
    ensures NetOk(n) && BothDrained(n) && n.a.cfg == cfgA && n.b.cfg == cfgB && Configured(n)
  {
    var n0 := Connect(cfgA, cfgB);
    hide NetOk, Connect, KcpRuns.Run, BothDrained, ConfigOk, Configured;
    NewDrained(cfgA, cfgB);
    ConnectOk(cfgA, cfgB);
    KcpRuns.RunKeeps(n0, steps);
    RunBothDrained(n0, steps);
  }

  lemma NewDrained(cfgA: Config, cfgB: Config)
    ensures var n := Connect(cfgA, cfgB); BothDrained(n) && n.a.cfg == cfgA && n.b.cfg == cfgB
  {
  }

  /** A receiver with room in its queue misses the next segment in order; it is in the peer's send buffer
      if it has been numbered at all. */
  lemma FirstMissing(s: Sender, r: Receiver, rcvWnd: u32, data: set<seq<Segment>>, acks: set<seq<Segment>>, h: History,
                     stream: bool)
    requires LinkOk(s, r, data, acks, h, stream) && ReceiverOk(r, rcvWnd) && Drained(r, rcvWnd) && |r.queue| < rcvWnd
    ensures !Held(r, r.nxt) && (r.nxt < s.nxt ==> InBuf(s.buf, r.nxt))
  {
    LinkBounds(s, r, data, acks, h, stream);
    NextIsFirst(r, rcvWnd);
    hide LinkOk, SenderLink, ReceiverLink, HistoryOk, Ordered;
  }

  /** In every run, in both directions: while a receive queue has room, the next segment is not held by the
      receiver, and is in the send buffer of its peer if the peer has numbered it. */
  lemma NextIsWithSender(n: Net, cfgA: Config, cfgB: Config, steps: seq<(bool, Event)>)
    requires Reached(n, cfgA, cfgB, steps)
    ensures |n.b.rcv.queue| < cfgB.rcvWnd ==>
      !Held(n.b.rcv, n.b.rcv.nxt) && (n.b.rcv.nxt < n.a.snd.nxt ==> InBuf(n.a.snd.buf, n.b.rcv.nxt))
    ensures |n.a.rcv.queue| < cfgA.rcvWnd ==>
      !Held(n.a.rcv, n.a.rcv.nxt) && (n.a.rcv.nxt < n.b.snd.nxt ==> InBuf(n.b.snd.buf, n.a.rcv.nxt))
  {
    ReachedOk(n, cfgA, cfgB, steps);
    hide Reached, LinkOk, SenderOk, DataOk, ReceiverOk, Drained, NetSendable, Held;
    if |n.b.rcv.queue| < cfgB.rcvWnd {
      FirstMissing(n.a.snd, n.b.rcv, cfgB.rcvWnd, n.fromA, n.fromB, n.ab, n.a.cfg.stream);
    }
    if |n.a.rcv.queue| < cfgA.rcvWnd {
      FirstMissing(n.b.snd, n.a.rcv, cfgA.rcvWnd, n.fromB, n.fromA, n.ba, n.b.cfg.stream);
    }
  }

  // ----- one more transmission -----

  /** A data segment inside the window, or behind it, is held once its datagram has been handled. */
  lemma {:induction false} ArrivalHeld(k: Kcb, latest: Latest, segs: seq<Segment>, j: nat, nxt: int, h: History)
    requires KcbOk(k) && nxt <= |h.frags| < HALF && ReceiverLink(nxt, k.rcv, h) && AcksPending(k.rcv)
    requires forall i | 0 <= i < |segs| :: DataSegment(nxt, segs[i], h) && segs[i].wnd <= 65535
    requires j < |segs| && segs[j].cmd == CMD_PUSH && segs[j].sn < k.rcv.nxt + k.cfg.rcvWnd
    ensures Held(InputSegments(k, latest, segs).k.rcv, segs[j].sn)
    decreases |segs|
  {
    hide KcbOk, ReceiverLink, AcksPending, HeldGrows, InputSegment, Newer, DataSegment, Held;
    OkReceiver(k);
    var k1 := InputSegment(k, segs[0]);
    var latest1 := if segs[0].cmd == CMD_ACK then Newer(latest, segs[0].sn, segs[0].ts) else latest;
    InputSegmentReceiver(k, segs[0], nxt, h);
    InputSegmentKeeps(k, segs[0]);
    if j == 0 {
      PushHeld(k, segs[0], nxt, h);
      InputSegmentsReceiver(k1, latest1, segs[1..], nxt, h);
      HeldStays(k1.rcv, InputSegments(k1, latest1, segs[1..]).k.rcv, segs[0].sn);
    } else {
      NxtGrows(k.rcv, k1.rcv);
      assert segs[1..][j - 1] == segs[j];
      ArrivalHeld(k1, latest1, segs[1..], j - 1, nxt, h);
    }
  }

  lemma NxtGrows(r: Receiver, r': Receiver)
    requires HeldGrows(r, r')
    ensures r.nxt <= r'.nxt
  {
  }

  lemma PushHeld(k: Kcb, seg: Segment, nxt: int, h: History)
    requires KcbOk(k) && nxt <= |h.frags| < HALF && ReceiverLink(nxt, k.rcv, h) && DataSegment(nxt, seg, h)
    requires seg.cmd == CMD_PUSH && seg.sn < k.rcv.nxt + k.cfg.rcvWnd
    requires HeldGrows(k.rcv, InputSegment(k, seg).rcv) && ReceiverLink(nxt, InputSegment(k, seg).rcv, h)
    ensures Held(InputSegment(k, seg).rcv, seg.sn)
  {
    var r := k.rcv;
    if seg.sn < r.nxt {
      assert Held(r, seg.sn);
      hide InputSegment, ReceiverLink, KcbOk;
    } else {
      assert Off(r.nxt, seg.sn) < k.cfg.rcvWnd by { NoWrap(seg.sn, r.nxt); }
      PushStores(k, seg);
      OkReceiver(k);
      StoredIsHeld(r, k.cfg.rcvWnd, seg, InputSegment(k, seg).rcv);
      var r' := InputSegment(k, seg).rcv;
      hide InputSegment, KcbOk, Arranged, Drained;
      if !Buffers(r', seg.sn) {
        BehindNext(r, r', seg.sn);
      }
    }
  }

  lemma BehindNext(r: Receiver, r': Receiver, sn: u32)
    requires r.nxt <= sn < HALF && r.nxt + |r'.queue| - |r.queue| == r'.nxt
    requires Off(r.nxt, sn) < |r'.queue| - |r.queue|
    ensures sn < r'.nxt
  {
  }

  /** Sent once more, the next missing segment gets there if its datagram does: whenever the receiver has room
      and its next segment has been numbered, was never sent or has missed its deadline, ikcp_flush of the
      sender puts it in a datagram whose arrival moves rcv_nxt beyond it. */
  lemma RetransmissionHelps(n: Net, cfgA: Config, cfgB: Config, steps: seq<(bool, Event)>) returns (g: seq<Segment>)
    requires Reached(n, cfgA, cfgB, steps) && n.a.clock.updated
    requires |n.b.rcv.queue| < cfgB.rcvWnd && n.b.rcv.nxt < n.a.snd.nxt
    requires forall s | s in n.a.snd.buf && s.sn == n.b.rcv.nxt :: s.xmit == 0 || Expired(n.a.clock.current, s)
    ensures g in Flush(n.a).1
    ensures Input(n.b, EncodeAll(g)).0.rcv.nxt > n.b.rcv.nxt
  {
    hide *;
    ReachedOk(n, cfgA, cfgB, steps);
    NextIsWithSender(n, cfgA, cfgB, steps);
    OkParts(n);
    var m := n.b.rcv.nxt;
    var i := InBufAt(n.a.snd.buf, m);
    FilledPrefix(n.a, i);
    FlushSendsDue(n.a, i);
    var seg := Filled(n.a).snd.buf[i];
    DueNow(n.a, seg);
    var seg' := Flush(n.a).0.snd.buf[i];
    g := GoesIn(Flush(n.a).1, seg');
    SentFields(n.a, seg, seg');
    Arrives(n, g, seg');
  }

  lemma OkParts(n: Net)
    requires NetOk(n) && BothDrained(n)
    ensures Drained(n.b.rcv, n.b.cfg.rcvWnd)
    ensures KcbOk(n.a) && KcbOk(n.b) && ConfigOk(n.a.cfg) && ConfigOk(n.b.cfg)
    ensures LinkOk(n.a.snd, n.b.rcv, n.fromA, n.fromB, n.ab, n.a.cfg.stream)
  {
    hide LinkOk, NetSendable, SenderOk, ReceiverOk, DataOk;
  }

  lemma InBufAt(buf: seq<Segment>, sn: int) returns (i: nat)
    requires InBuf(buf, sn)
    ensures i < |buf| && buf[i].sn == sn && buf[i] in buf
  {
    i :| 0 <= i < |buf| && buf[i].sn == sn;
  }

  lemma FilledPrefix(k: Kcb, i: nat)
    requires KcbOk(k) && i < |k.snd.buf|
    ensures i < |Filled(k).snd.buf| && Filled(k).snd.buf[i] == k.snd.buf[i] && k.snd.buf[i].cmd == CMD_PUSH
  {
    FlushFills(k);
    hide Filled, Room, New, SenderOk, ReceiverOk;
    assert Filled(k).snd.buf[..|k.snd.buf|][i] == k.snd.buf[i];
    assert Buffered(k.cfg, k.snd.buf[i]);
  }

  lemma DueNow(k: Kcb, seg: Segment)
    ensures seg.xmit == 0 || Expired(k.clock.current, seg) ==> Due(k.cfg, k.clock.current, seg)
  {
    hide Expired;
  }

  lemma GoesIn(out: seq<seq<Segment>>, seg: Segment) returns (g: seq<Segment>)
    requires Goes(out, seg)
    ensures g in out && seg in g
  {
    g :| g in out && seg in g;
  }

  lemma SentFields(k: Kcb, seg: Segment, seg': Segment)
    ensures SentAgain(k, seg, seg') ==> seg'.sn == seg.sn && seg'.cmd == seg.cmd
  {
  }

  /** A datagram of a flush that carries the next missing segment moves the receiver on. */
  lemma Arrives(n: Net, g: seq<Segment>, seg: Segment)
    requires NetOk(n) && Drained(n.b.rcv, n.b.cfg.rcvWnd) && ConfigOk(n.a.cfg) && ConfigOk(n.b.cfg)
    requires KcbOk(n.b) && KcbOk(n.a) && n.a.clock.updated && g in Flush(n.a).1
    requires seg in g && seg.cmd == CMD_PUSH && seg.sn == n.b.rcv.nxt && |n.b.rcv.queue| < n.b.cfg.rcvWnd
    requires LinkOk(n.a.snd, n.b.rcv, n.fromA, n.fromB, n.ab, n.a.cfg.stream)
    ensures Input(n.b, EncodeAll(g)).0.rcv.nxt > n.b.rcv.nxt
  {
    hide *;
    WindowOpen(n.b);
    var n' := Emitted(n, Flush(n.a));
    FlushedNet(n, g);
    FlushStepKeeps(n, n.a.clock);
    SameClock(n.a);
    DatagramOk(n', g);
    var j := IndexOf(g, seg);
    var k', w := Input(n.b, EncodeAll(g)).0, OnWireAll(g);
    LinkBounds(n'.a.snd, n.b.rcv, n'.fromA, n.fromB, n.ab, n.a.cfg.stream);
    forall i | 0 <= i < |g| ensures DataSegment(n'.a.snd.nxt, w[i], n.ab) && w[i].wnd <= 65535 {
      OnWireData(n.b.cfg.conv, g, i, n'.a.snd.nxt, n.ab);
    }
    OnWireGood(g, j);
    PushSmall();
    InputDatagram(n.b, g);
    ArrivalHeld(n.b, NoAck, w, j, n'.a.snd.nxt, n.ab);
    DeliverReceiver(n.b, g, n'.a.snd.nxt, n.ab);
    InputDrains(n.b, EncodeAll(g));
    CfgSame(n.b, EncodeAll(g));
    InputKeeps(n.b, EncodeAll(g));
    OkReceiver(k');
    MovedOn(n.b.rcv, k'.rcv, n.b.cfg.rcvWnd, n'.a.snd.nxt, n.ab);
  }

  lemma FlushedNet(n: Net, g: seq<Segment>)
    requires g in Flush(n.a).1
    ensures var n' := Emitted(n, Flush(n.a));
            && n'.b == n.b && n'.fromB == n.fromB && n'.ab == n.ab && g in n'.fromA && n'.a == Flush(n.a).0
            && n'.a.cfg == n.a.cfg
  {
    hide Flush;
  }

  lemma SameClock(k: Kcb)
    ensures k.(clock := k.clock) == k
  {
  }

  lemma DatagramOk(n: Net, g: seq<Segment>)
    requires NetOk(n) && g in n.fromA
    ensures |g| > 0 && n.a.snd.nxt <= |n.ab.frags|
    ensures forall i | 0 <= i < |g| :: Sendable(n.b.cfg.conv, g[i]) && DataSegment(n.a.snd.nxt, g[i], n.ab)
    ensures LinkOk(n.a.snd, n.b.rcv, n.fromA, n.fromB, n.ab, n.a.cfg.stream)
  {
    hide KcbOk, SenderLink, ReceiverLink, AcksInFlight, AcksPending, NoLoss, HistoryOk, DataSegment;
  }

  lemma IndexOf(g: seq<Segment>, seg: Segment) returns (j: nat)
    requires seg in g
    ensures j < |g| && g[j] == seg
  {
    j :| 0 <= j < |g| && g[j] == seg;
  }

  lemma PushSmall()
    ensures CMD_PUSH < 256
  {
  }

  lemma WindowOpen(k: Kcb)
    requires ConfigOk(k.cfg)
    ensures k.rcv.nxt < k.rcv.nxt + k.cfg.rcvWnd && 0 < k.cfg.mss
  {
  }

  lemma CfgSame(k: Kcb, b: seq<byte>)
    requires 0 < k.cfg.mss
    ensures Input(k, b).0.cfg == k.cfg
  {
  }

  /** A receiver that holds its next segment, and is not full, does not stay there. */
  lemma MovedOn(r: Receiver, r': Receiver, rcvWnd: u32, nxt: int, h: History)
    requires ReceiverLink(nxt, r, h) && ReceiverLink(nxt, r', h) && HeldGrows(r, r')
    requires |r.queue| < rcvWnd && ReceiverOk(r', rcvWnd) && Drained(r', rcvWnd) && Held(r', r.nxt)
    ensures r'.nxt > r.nxt
  {
    NextIsFirst(r', rcvWnd);
    hide BufferMatches, QueueMatches, ReceiverOk, Drained;
    assert r'.nxt == r.nxt ==> |r'.queue| == |r.queue|;
  }
}

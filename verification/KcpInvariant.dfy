/** What every KCP operation keeps, whatever the peer or the network sends, including when
    sequence numbers wrap around. */
module KcpInvariant {
  import opened Common
  import opened KcpTypes
  import opened KcpWire
  import opened KcpSpec
  import opened KcpOutput

  /** The distance from base up to x, modulo 2^32. */
  function Off(base: u32, x: u32): u32 { Wrap(x - base) }

  const HALF := 0x8000_0000

  /** Sequence numbers strictly increase from base on and stay within span of it. */
  ghost predicate Ordered(base: u32, span: int, buf: seq<Segment>) {
    && (forall i | 0 <= i < |buf| :: Off(base, buf[i].sn) < span)
    && (forall i, j | 0 <= i < j < |buf| :: Off(base, buf[i].sn) < Off(base, buf[j].sn))
  }

  ghost predicate CountsOk(s: Sender) {
    s.nQueue == |s.queue| && s.nBuf == |s.buf|
  }

  /** The sender between the two halves of processing an acknowledgement. */
  ghost predicate SenderLoose(s: Sender) {
    && CountsOk(s)
    && Off(s.una, s.nxt) <= 65535
    && Ordered(s.una, Off(s.una, s.nxt), s.buf)
  }

  ghost predicate SenderOk(s: Sender) {
    && SenderLoose(s)
    && s.una == if |s.buf| > 0 then s.buf[0].sn else s.nxt
  }

  ghost predicate ReceiverOk(r: Receiver, rcvWnd: u32) {
    && r.nQueue == |r.queue| && r.nBuf == |r.buf|
    && Ordered(r.nxt, rcvWnd, r.buf)
  }

  ghost predicate ConfigOk(cfg: Config) {
    0 < cfg.mss && cfg.mss + OVERHEAD == cfg.mtu < HALF && WND_RCV <= cfg.rcvWnd < HALF
  }

  ghost predicate DataOk(cfg: Config, s: Sender) {
    && (forall i | 0 <= i < |s.queue| :: |s.queue[i].data| <= cfg.mss)
    && (forall i | 0 <= i < |s.buf| :: Buffered(cfg, s.buf[i]))
  }

  ghost predicate KcbOk(k: Kcb) {
    && ConfigOk(k.cfg) && SenderOk(k.snd) && ReceiverOk(k.rcv, k.cfg.rcvWnd)
    && DataOk(k.cfg, k.snd)
    && k.flow.rmtWnd <= 65535
  }

  // ----- modular order -----

  /** Within half the number space of a base, signed differences agree with true order. */
  lemma TimeDiffIsOrder(base: u32, a: u32, b: u32)
    requires Off(base, a) < HALF && Off(base, b) < HALF
    ensures TimeDiff(a, b) == Off(base, a) - Off(base, b)
  {
    WrapCases(a - base);
    WrapCases(b - base);
    WrapCases(a - b);
  }

  lemma WrapCases(x: int)
    ensures 0 <= x < U32 ==> Wrap(x) == x
    ensures -U32 <= x < 0 ==> Wrap(x) == x + U32
    ensures U32 <= x < 2 * U32 ==> Wrap(x) == x - U32
  {
  }

  /** Moving the base up to base' shortens every distance that reaches it. */
  lemma Rebase(base: u32, base': u32, x: u32)
    requires Off(base, base') <= Off(base, x)
    ensures Off(base', x) == Off(base, x) - Off(base, base')
  {
    WrapCases(base' - base);
    WrapCases(x - base);
    WrapCases(x - base');
  }

  lemma OffNext(base: u32, n: u32)
    ensures Off(base, base) == 0
    ensures n < U32 - 1 ==> Off(base, Wrap(base + n)) == n && Off(base, Wrap(base + n + 1)) == n + 1
  {
    WrapCases(base + n);
    WrapCases(base + n + 1);
    WrapCases(Wrap(base + n) - base);
    WrapCases(Wrap(base + n + 1) - base);
  }

  lemma OffZero(base: u32, x: u32)
    ensures Off(base, x) == 0 <==> x == base
    ensures Wrap(base + Off(base, x)) == x
  {
    WrapCases(x - base);
    WrapCases(base + Off(base, x));
  }

  lemma OrderedRebase(base: u32, base': u32, span: u32, buf: seq<Segment>)
    requires Ordered(base, span, buf) && Off(base, base') <= span
    requires |buf| > 0 ==> Off(base, base') <= Off(base, buf[0].sn)
    ensures Ordered(base', span - Off(base, base'), buf)
  {
    hide Off;
    forall i | 0 <= i < |buf|
      ensures Off(base', buf[i].sn) == Off(base, buf[i].sn) - Off(base, base')
    {
      if i > 0 { assert Off(base, buf[0].sn) < Off(base, buf[i].sn); }
      Rebase(base, base', buf[i].sn);
    }
  }

  lemma OrderedSub(base: u32, span: int, buf: seq<Segment>, p: nat, q: nat)
    requires Ordered(base, span, buf) && p <= q <= |buf|
    ensures Ordered(base, span, buf[..p] + buf[q..])
  {
    hide Off;
    var r := buf[..p] + buf[q..];
    forall i | 0 <= i < |r|
      ensures r[i] == buf[if i < p then i else i + q - p]
    {
    }
  }

  // ----- sender -----

  lemma {:induction false} ParseUnaKeeps(cfg: Config, s: Sender, una: u32)
    requires SenderLoose(s) && DataOk(cfg, s)
    ensures SenderLoose(ParseUna(s, una)) && DataOk(cfg, ParseUna(s, una))
    ensures ParseUna(s, una).nxt == s.nxt && ParseUna(s, una).una == s.una && ParseUna(s, una).queue == s.queue
    decreases |s.buf|
  {
    hide TimeDiff, Off, Ordered, Buffered;
    if |s.buf| > 0 && TimeDiff(una, s.buf[0].sn) > 0 {
      OrderedSub(s.una, Off(s.una, s.nxt), s.buf, 0, 1);
      assert s.buf[..0] + s.buf[1..] == s.buf[1..];
      ParseUnaKeeps(cfg, s.(buf := s.buf[1..], nBuf := s.nBuf - 1), una);
    }
  }

  lemma ShrinkKeeps(s: Sender)
    requires SenderLoose(s)
    ensures SenderOk(ShrinkBuf(s))
  {
    hide Ordered;
    var una' := ShrinkBuf(s).una;
    var span := Off(s.una, s.nxt);
    assert Off(s.una, una') <= span && (|s.buf| > 0 ==> Off(s.una, una') <= Off(s.una, s.buf[0].sn))
      by { ShrinkBounds(s); }
    OrderedRebase(s.una, una', span, s.buf);
    Rebase(s.una, una', s.nxt);
  }

  lemma ShrinkBounds(s: Sender)
    requires SenderLoose(s)
    ensures Off(s.una, ShrinkBuf(s).una) <= Off(s.una, s.nxt)
    ensures |s.buf| > 0 ==> ShrinkBuf(s).una == s.buf[0].sn
  {
    hide Off;
  }

  lemma ParseAckKeeps(cfg: Config, s: Sender, sn: u32)
    requires SenderLoose(s) && DataOk(cfg, s)
    ensures SenderLoose(ParseAck(s, sn)) && DataOk(cfg, ParseAck(s, sn))
  {
    hide TimeDiff, Off, Ordered, Buffered;
    var p := FindSn(s.buf, sn, 0);
    if InFlight(s, sn) && p < |s.buf| {
      OrderedSub(s.una, Off(s.una, s.nxt), s.buf, p, p + 1);
    }
  }

  /** Fast acknowledgement counts change nothing else of a segment. */
  lemma {:induction false} MarkKeeps(buf: seq<Segment>, sn: u32, ts: u32, i: nat)
    requires i <= |buf|
    ensures forall j | 0 <= j < |buf| ::
      var m := MarkFast(buf, sn, ts, i)[j]; m.sn == buf[j].sn && m.frg == buf[j].frg && m.data == buf[j].data
                                            && m.conv == buf[j].conv && m.cmd == buf[j].cmd
    decreases |buf| - i
  {
    hide TimeDiff;
    if i < |buf| && !(TimeDiff(sn, buf[i].sn) < 0) {
      MarkKeeps(buf[i := Mark(buf[i], sn, ts)], sn, ts, i + 1);
    }
  }

  lemma FastAckKeeps(cfg: Config, s: Sender, sn: u32, ts: u32)
    requires SenderOk(s) && DataOk(cfg, s)
    ensures SenderOk(ParseFastAck(s, sn, ts)) && DataOk(cfg, ParseFastAck(s, sn, ts))
  {
    hide TimeDiff, Off, InFlight;
    MarkKeeps(s.buf, sn, ts, 0);
    assert |MarkFast(s.buf, sn, ts, 0)| == |s.buf|;
  }

  lemma {:induction false} FragmentsShort(data: seq<byte>, mss: nat, stream: bool, i: nat, count: nat)
    requires 0 < mss && i <= count <= WND_RCV
    ensures forall j | 0 <= j < count - i :: |Fragments(data, mss, stream, i, count)[j].data| <= mss
    decreases count - i
  {
    if i < count {
      var size := if |data| > mss then mss else |data|;
      FragmentsShort(data[size..], mss, stream, i + 1, count);
    }
  }

  lemma SendKeeps(cfg: Config, s: Sender, data: seq<byte>)
    requires ConfigOk(cfg) && SenderOk(s) && DataOk(cfg, s)
    ensures SenderOk(Send(cfg, s, data).0) && DataOk(cfg, Send(cfg, s, data).0)
    ensures Send(cfg, s, data).0.buf == s.buf && Send(cfg, s, data).0.una == s.una && Send(cfg, s, data).0.nxt == s.nxt
  {
    hide Off, Ordered, Buffered, FragmentCount;
    var rest := data[Extension(cfg, s, data)..];
    var count := FragmentCount(|rest|, cfg.mss);
    if count < WND_RCV { FragmentsShort(rest, cfg.mss, cfg.stream, 0, count); }
  }

  // ----- receiver -----

  lemma {:induction false} MoveReadyKeeps(r: Receiver, rcvWnd: u32)
    requires ReceiverOk(r, rcvWnd)
    ensures ReceiverOk(MoveReady(r, rcvWnd), rcvWnd)
    decreases |r.buf|
  {
    hide Off, Ordered;
    if |r.buf| > 0 && r.buf[0].sn == r.nxt && r.nQueue < rcvWnd {
      MoveOneKeeps(r.nxt, rcvWnd, r.buf);
      MoveReadyKeeps(r.(buf := r.buf[1..], nBuf := r.nBuf - 1, queue := r.queue + [r.buf[0]], nQueue := r.nQueue + 1,
                        nxt := Wrap(r.nxt + 1)), rcvWnd);
    }
  }

  lemma MoveOneKeeps(nxt: u32, rcvWnd: u32, buf: seq<Segment>)
    requires Ordered(nxt, rcvWnd, buf) && |buf| > 0 && buf[0].sn == nxt
    ensures Ordered(Wrap(nxt + 1), rcvWnd, buf[1..])
  {
    OffNext(nxt, 0);
    var nxt' := Wrap(nxt + 1);
    hide Off;
    forall i | 1 <= i < |buf|
      ensures Off(nxt', buf[i].sn) == Off(nxt, buf[i].sn) - 1
    {
      assert Off(nxt, buf[0].sn) < Off(nxt, buf[i].sn);
      Rebase(nxt, nxt', buf[i].sn);
    }
  }

  /** The insertion search finds the place where sn belongs, or finds sn itself. */
  lemma {:induction false} InsertPositionRight(nxt: u32, rcvWnd: u32, buf: seq<Segment>, sn: u32, i: nat)
    requires Ordered(nxt, rcvWnd, buf) && rcvWnd < HALF && Off(nxt, sn) < rcvWnd && i <= |buf|
    requires forall j | i <= j < |buf| :: Off(nxt, sn) < Off(nxt, buf[j].sn)
    ensures var p := InsertPosition(buf, sn, i);
            if p < 0 then exists j :: 0 <= j < |buf| && buf[j].sn == sn
            else (forall j | 0 <= j < p :: Off(nxt, buf[j].sn) < Off(nxt, sn))
                 && (forall j | p <= j < |buf| :: Off(nxt, sn) < Off(nxt, buf[j].sn))
  {
    if i > 0 && buf[i - 1].sn != sn {
      TimeDiffIsOrder(nxt, sn, buf[i - 1].sn);
      SameOff(nxt, sn, buf[i - 1].sn);
      hide Off, TimeDiff;
      if !(TimeDiff(sn, buf[i - 1].sn) > 0) {
        InsertPositionRight(nxt, rcvWnd, buf, sn, i - 1);
      }
    }
  }

  lemma SameOff(base: u32, a: u32, b: u32)
    ensures Off(base, a) == Off(base, b) ==> a == b
  {
    OffZero(base, a);
    OffZero(base, b);
  }

  lemma InWindow(nxt: u32, rcvWnd: u32, sn: u32)
    requires rcvWnd < HALF
    ensures TimeDiff(sn, Wrap(nxt + rcvWnd)) < 0 && TimeDiff(sn, nxt) >= 0 <==> Off(nxt, sn) < rcvWnd
  {
    WrapCases(nxt + rcvWnd);
    WrapCases(sn - nxt);
    WrapCases(sn - Wrap(nxt + rcvWnd));
  }

  lemma InsertKeeps(nxt: u32, rcvWnd: u32, buf: seq<Segment>, seg: Segment, p: nat)
    requires Ordered(nxt, rcvWnd, buf) && Off(nxt, seg.sn) < rcvWnd && p <= |buf|
    requires forall j | 0 <= j < p :: Off(nxt, buf[j].sn) < Off(nxt, seg.sn)
    requires forall j | p <= j < |buf| :: Off(nxt, seg.sn) < Off(nxt, buf[j].sn)
    ensures Ordered(nxt, rcvWnd, buf[..p] + [seg] + buf[p..])
  {
    hide Off;
    var r := buf[..p] + [seg] + buf[p..];
    forall i | 0 <= i < |r|
      ensures r[i] == if i < p then buf[i] else if i == p then seg else buf[i - 1]
    {
    }
  }

  lemma ParseDataKeeps(r: Receiver, rcvWnd: u32, seg: Segment)
    requires ReceiverOk(r, rcvWnd) && rcvWnd < HALF
    ensures ReceiverOk(ParseData(r, rcvWnd, seg), rcvWnd)
  {
    InWindow(r.nxt, rcvWnd, seg.sn);
    if Off(r.nxt, seg.sn) < rcvWnd {
      InsertPositionRight(r.nxt, rcvWnd, r.buf, seg.sn, |r.buf|);
      hide Off, Ordered, TimeDiff;
      var p := InsertPosition(r.buf, seg.sn, |r.buf|);
      if p >= 0 {
        InsertKeeps(r.nxt, rcvWnd, r.buf, seg, p);
        MoveReadyKeeps(r.(buf := r.buf[..p] + [seg] + r.buf[p..], nBuf := r.nBuf + 1), rcvWnd);
      } else {
        MoveReadyKeeps(r, rcvWnd);
      }
    }
  }

  lemma RecvKeeps(k: Kcb, len: int)
    requires KcbOk(k)
    ensures KcbOk(Recv(k, len).0)
  {
    hide SenderOk, DataOk, Ordered, PeekSize;
    var n := MessageLength(k.rcv.queue);
    MoveReadyKeeps(k.rcv, k.cfg.rcvWnd);
    if |k.rcv.queue| > 0 {
      MoveReadyKeeps(k.rcv.(queue := k.rcv.queue[n..], nQueue := k.rcv.nQueue - n), k.cfg.rcvWnd);
    }
  }

  // ----- input -----

  lemma InputSegmentKeeps(k: Kcb, seg: Segment)
    requires KcbOk(k) && seg.wnd <= 65535
    ensures KcbOk(InputSegment(k, seg))
  {
    hide SenderOk, SenderLoose, DataOk, ReceiverOk, TimeDiff, ParseUna, ParseAck, ParseData, UpdateAck;
    var s1 := ParseUna(k.snd, seg.una);
    OkIsLoose(k.snd);
    ParseUnaKeeps(k.cfg, k.snd, seg.una);
    ShrinkKeeps(s1);
    ShrinkData(k.cfg, s1);
    var s2 := ShrinkBuf(s1);
    OkIsLoose(s2);
    if seg.cmd == CMD_ACK {
      ParseAckKeeps(k.cfg, s2, seg.sn);
      ShrinkKeeps(ParseAck(s2, seg.sn));
      ShrinkData(k.cfg, ParseAck(s2, seg.sn));
    } else if seg.cmd == CMD_PUSH {
      var r := k.rcv.(acks := k.rcv.acks + [Ack(seg.sn, seg.ts)]);
      assert ReceiverOk(r, k.cfg.rcvWnd) by { AcksIrrelevant(k.rcv, r.acks, k.cfg.rcvWnd); }
      ParseDataKeeps(r, k.cfg.rcvWnd, seg);
    }
  }

  lemma OkIsLoose(s: Sender)
    requires SenderOk(s)
    ensures SenderLoose(s)
  {
  }

  lemma ShrinkData(cfg: Config, s: Sender)
    requires DataOk(cfg, s)
    ensures DataOk(cfg, ShrinkBuf(s))
  {
  }

  lemma AcksIrrelevant(r: Receiver, acks: seq<Ack>, rcvWnd: u32)
    requires ReceiverOk(r, rcvWnd)
    ensures ReceiverOk(r.(acks := acks), rcvWnd)
  {
  }

  lemma {:induction false} InputLoopKeeps(k: Kcb, latest: Latest, b: seq<byte>)
    requires KcbOk(k)
    ensures KcbOk(InputLoop(k, latest, b).k)
    decreases |b|
  {
    hide KcbOk, InputSegment, Newer;
    if |b| >= OVERHEAD {
      var len := DataLength(b);
      if Read32(b, 0) == k.cfg.conv && !(|b| - OVERHEAD < len || len >= 0x8000_0000) {
        var seg := ReadHeader(b, b[OVERHEAD..OVERHEAD + len]);
        if KnownCommand(seg.cmd) {
          WindowIs16(b, seg.data);
          InputSegmentKeeps(k, seg);
          InputLoopKeeps(InputSegment(k, seg), if seg.cmd == CMD_ACK then Newer(latest, seg.sn, seg.ts) else latest,
                         b[OVERHEAD + len..]);
        }
      }
    }
  }

  lemma WindowIs16(b: seq<byte>, data: seq<byte>)
    requires OVERHEAD <= |b|
    ensures ReadHeader(b, data).wnd <= 65535
  {
  }

  /** Whatever bytes arrive, ikcp_input keeps the block in order. */
  lemma InputKeeps(k: Kcb, b: seq<byte>)
    requires KcbOk(k)
    ensures KcbOk(Input(k, b).0)
  {
    hide SenderOk, DataOk, ReceiverOk, TimeDiff, Grow, ParseFastAck, InputLoop;
    if |b| >= OVERHEAD {
      InputLoopKeeps(k, NoAck, b);
      var p := InputLoop(k, NoAck, b);
      if p.code == 0 && p.latest != NoAck {
        FastAckKeeps(k.cfg, p.k.snd, p.latest.sn, p.latest.ts);
      }
    }
  }

  // ----- flush -----

  /** Filling the window keeps the order and never has more than the window in flight. */
  lemma {:induction false} FillWindowKeeps(k: Kcb, cwnd: u32)
    requires KcbOk(k) && cwnd <= 65535
    ensures KcbOk(FillWindow(k, cwnd))
    ensures FillWindow(k, cwnd).snd.una == k.snd.una && FillWindow(k, cwnd).cfg == k.cfg
    decreases |k.snd.queue|
  {
    hide Ordered, Off, TimeDiff, Stamp, ReceiverOk;
    if TimeDiff(k.snd.nxt, Wrap(k.snd.una + cwnd)) < 0 && |k.snd.queue| > 0 {
      var s := k.snd;
      var seg := Stamp(k, s.queue[0]);
      var s' := s.(queue := s.queue[1..], nQueue := s.nQueue - 1, buf := s.buf + [seg], nBuf := s.nBuf + 1,
                   nxt := Wrap(s.nxt + 1));
      assert seg.sn == s.nxt && seg.conv == k.cfg.conv && seg.cmd == CMD_PUSH && seg.data == s.queue[0].data
        by { StampFields(k, s.queue[0]); }
      WindowRoom(s.una, s.nxt, cwnd);
      AppendKeeps(s.una, s.nxt, s.buf, seg);
      OffZeroAt(s.una, s.nxt);
      assert SenderOk(s');
      FillWindowKeeps(k.(snd := s'), cwnd);
    }
  }

  lemma StampFields(k: Kcb, seg: Segment)
    ensures var s := Stamp(k, seg); s.sn == k.snd.nxt && s.conv == k.cfg.conv && s.cmd == CMD_PUSH
                                    && s.data == seg.data && s.frg == seg.frg && s.una == k.rcv.nxt
  {
  }

  lemma OffZeroAt(base: u32, x: u32)
    ensures Off(base, x) == 0 <==> x == base
  {
    OffZero(base, x);
  }

  lemma WindowRoom(una: u32, nxt: u32, cwnd: u32)
    requires Off(una, nxt) <= 65535 && cwnd <= 65535
    requires TimeDiff(nxt, Wrap(una + cwnd)) < 0
    ensures Off(una, nxt) < cwnd
    ensures Off(una, Wrap(nxt + 1)) == Off(una, nxt) + 1
  {
    OffNext(una, cwnd);
    TimeDiffIsOrder(una, nxt, Wrap(una + cwnd));
    OffZero(una, nxt);
    OffNext(una, Off(una, nxt));
    WrapCases(nxt + 1);
    WrapCases(una + Off(una, nxt) + 1);
    WrapCases(una + Off(una, nxt));
  }

  lemma AppendKeeps(una: u32, nxt: u32, buf: seq<Segment>, seg: Segment)
    requires Ordered(una, Off(una, nxt), buf) && seg.sn == nxt && Off(una, Wrap(nxt + 1)) == Off(una, nxt) + 1
    ensures Ordered(una, Off(una, Wrap(nxt + 1)), buf + [seg])
  {
    hide Off;
  }

  lemma PassedFields(k: Kcb, seg: Segment)
    ensures var s := Passed(k, seg);
            && s.sn == seg.sn && s.conv == seg.conv && s.cmd == seg.cmd && s.frg == seg.frg && s.data == seg.data
    ensures NeedSend(k, seg) != Keep ==> Passed(k, seg).una == k.rcv.nxt
  {
  }

  lemma PassedKeepsSender(k: Kcb, s: Sender, buf: seq<Segment>)
    requires SenderOk(s) && DataOk(k.cfg, s) && |buf| == |s.buf|
    requires forall j | 0 <= j < |buf| :: buf[j] == Passed(k, s.buf[j])
    ensures SenderOk(s.(buf := buf)) && DataOk(k.cfg, s.(buf := buf))
  {
    hide Passed, Off;
    forall j | 0 <= j < |buf|
      ensures buf[j].sn == s.buf[j].sn && buf[j].conv == s.buf[j].conv && buf[j].cmd == s.buf[j].cmd
        && buf[j].data == s.buf[j].data
    {
      PassedFields(k, s.buf[j]);
    }
  }

  /** What is left of the block once acknowledgements and probes are out. */
  function AfterProbes(k: Kcb): Kcb {
    var flow := Probe(k.flow, k.clock.current);
    k.(rcv := k.rcv.(acks := []), flow := flow.(askSend := false, askTell := false))
  }

  lemma AfterProbesOk(k: Kcb)
    requires KcbOk(k)
    ensures KcbOk(AfterProbes(k)) && SendWindow(AfterProbes(k)) <= 65535
  {
    hide SenderOk, DataOk, TimeDiff;
    AcksIrrelevant(k.rcv, [], k.cfg.rcvWnd);
  }

  lemma FlushKeeps(k: Kcb)
    requires KcbOk(k)
    ensures KcbOk(Flush(k).0)
  {
    hide SenderOk, DataOk, ReceiverOk, FillWindow, FlushData, FlushAcks, FlushProbes, Adjust, SendWindow;
    if k.clock.updated {
      var a := FlushAcks(Packer([], []), Template(k), k.rcv.acks, k.cfg.mtu);
      var p := FlushProbes(a.p, a.seg, Probe(k.flow, k.clock.current), k.cfg.mtu);
      var k1 := AfterProbes(k);
      AfterProbesOk(k);
      var k2 := FillWindow(k1, SendWindow(k1));
      FillWindowKeeps(k1, SendWindow(k1));
      var d0 := DataFlush(k2.snd.buf, p, k2.clock.xmit, k2.clock.dead, false, 0);
      FlushDataBuffer(k2, d0, 0);
      PassedKeepsSender(k2, k2.snd, FlushData(k2, d0, 0).buf);
    }
  }

  lemma UpdateKeeps(k: Kcb, now: u32)
    requires KcbOk(k)
    ensures KcbOk(Update(k, now).0)
  {
    hide Flush, SenderOk, DataOk, ReceiverOk, TimeDiff;
    forall c: Clock ensures KcbOk(Flush(k.(clock := c)).0) {
      FlushKeeps(k.(clock := c));
    }
  }

  // ----- what the calls leave alone -----

  lemma SendFrame(cfg: Config, s: Sender, data: seq<byte>)
    requires 0 < cfg.mss
    ensures Send(cfg, s, data).0.nxt == s.nxt && Send(cfg, s, data).0.buf == s.buf && Send(cfg, s, data).0.una == s.una
  {
  }

  lemma NotUpdated(k: Kcb)
    requires !k.clock.updated
    ensures Flush(k) == (k, [])
  {
  }

  lemma UpdateIs(k: Kcb, now: u32)
    ensures exists c: Clock :: Update(k, now) == Flush(k.(clock := c)) || Update(k, now) == (k.(clock := c), [])
  {
    hide Flush, TimeDiff;
  }

  lemma ClockIrrelevant(k: Kcb)
    requires KcbOk(k)
    ensures forall c: Clock :: KcbOk(k.(clock := c))
  {
    hide SenderOk, ReceiverOk, DataOk;
  }

  // ----- runs -----

  /** The settings of a new block: mtu 1400, windows of 32 and 128, a flush every 100 milliseconds. */
  function DefaultConfig(conv: u32): Config {
    Config(conv, 1400, 1376, 32, 128, 100, 100, 0, 0, 5, false, false, 20)
  }

  /** A new block with given settings. */
  function Create(cfg: Config): Kcb {
    Kcb(cfg, Sender(0, 0, [], [], 0, 0), Receiver(0, [], [], 0, 0, []), Flow(WND_RCV, false, false, 0, 0),
        Congestion(0, 0, THRESH_MIN), Clock(0, INTERVAL, false, 0, 0, RTO_DEF, 0, false))
  }

  datatype Op = DoSend(data: seq<byte>) | DoRecv(len: int) | DoInput(bytes: seq<byte>) | DoUpdate(now: u32) | DoFlush

  function Apply(k: Kcb, op: Op): (r: Kcb)
    requires 0 < k.cfg.mss
    ensures r.cfg == k.cfg
  {
    match op
    case DoSend(data) => k.(snd := Send(k.cfg, k.snd, data).0)
    case DoRecv(len) => Recv(k, len).0
    case DoInput(bytes) => Input(k, bytes).0
    case DoUpdate(now) => Update(k, now).0
    case DoFlush => Flush(k).0
  }

  lemma ApplyKeeps(k: Kcb, op: Op)
    requires KcbOk(k)
    ensures KcbOk(Apply(k, op))
  {
    hide SenderOk, DataOk, ReceiverOk, Send, Recv, Input, Update, Flush;
    match op
    case DoSend(data) => SendKeeps(k.cfg, k.snd, data);
    case DoRecv(len) => RecvKeeps(k, len);
    case DoInput(bytes) => InputKeeps(k, bytes);
    case DoUpdate(now) => UpdateKeeps(k, now);
    case DoFlush => FlushKeeps(k);
  }

  /** The block after a sequence of calls with any arguments. */
  function Run(k: Kcb, ops: seq<Op>): (r: Kcb)
    requires 0 < k.cfg.mss
    ensures r.cfg == k.cfg
    decreases |ops|
  {
    if |ops| == 0 then k else Run(Apply(k, ops[0]), ops[1..])
  }

  lemma {:induction false} RunKeeps(k: Kcb, ops: seq<Op>)
    requires KcbOk(k)
    ensures KcbOk(Run(k, ops))
    decreases |ops|
  {
    hide KcbOk, Apply;
    if |ops| > 0 {
      OkConfig(k);
      ApplyKeeps(k, ops[0]);
      RunKeeps(Apply(k, ops[0]), ops[1..]);
    }
  }

  lemma OkConfig(k: Kcb)
    requires KcbOk(k)
    ensures ConfigOk(k.cfg)
  {
  }

  /** Every control block that calls can produce from a new one is in order. */
  lemma EveryRunOk(cfg: Config, ops: seq<Op>)
    requires ConfigOk(cfg)
    ensures KcbOk(Run(Create(cfg), ops))
  {
    RunKeeps(Create(cfg), ops);
  }

  /** On queued segments of a reachable block, signed differences are true differences of position. */
  lemma QueuedDifferences(k: Kcb, i: nat, j: nat)
    requires KcbOk(k)
    ensures i < |k.snd.buf| && j < |k.snd.buf| ==>
      (TimeDiff(k.snd.buf[i].sn, k.snd.buf[j].sn) < 0 <==> i < j)
    ensures i < |k.rcv.buf| && j < |k.rcv.buf| ==>
      (TimeDiff(k.rcv.buf[i].sn, k.rcv.buf[j].sn) < 0 <==> i < j)
    ensures i < |k.snd.buf| ==> InFlight(k.snd, k.snd.buf[i].sn)
  {
    if i < |k.snd.buf| {
      TimeDiffIsOrder(k.snd.una, k.snd.buf[i].sn, k.snd.una);
      TimeDiffIsOrder(k.snd.una, k.snd.buf[i].sn, k.snd.nxt);
      OffZero(k.snd.una, k.snd.una);
      if j < |k.snd.buf| { TimeDiffIsOrder(k.snd.una, k.snd.buf[i].sn, k.snd.buf[j].sn); }
    }
    if i < |k.rcv.buf| && j < |k.rcv.buf| { TimeDiffIsOrder(k.rcv.nxt, k.rcv.buf[i].sn, k.rcv.buf[j].sn); }
  }

  // ----- datagrams -----

  /** The packer once acknowledgements and probes are in it. */
  function Control(k: Kcb): Packer {
    var a := FlushAcks(Packer([], []), Template(k), k.rcv.acks, k.cfg.mtu);
    FlushProbes(a.p, a.seg, Probe(k.flow, k.clock.current), k.cfg.mtu)
  }

  function ControlSegments(k: Kcb): seq<Segment> {
    AckSegments(Template(k), k.rcv.acks) + ProbeSegments(Template(k), k.rcv.acks, Probe(k.flow, k.clock.current))
  }

  lemma ControlOk(k: Kcb)
    requires ConfigOk(k.cfg)
    ensures PackerOk(Control(k), k.cfg.mtu, k.cfg.conv)
    ensures Contents(Control(k)) == ControlSegments(k)
  {
    hide FlushAcks, FlushProbes, PackerOk, Contents, AckSegments, Probe;
    var mtu, conv := k.cfg.mtu, k.cfg.conv;
    var p0 := Packer([], []);
    EmptyPacker(mtu, conv);
    FlushAcksOk(p0, Template(k), k.rcv.acks, mtu, conv);
    var a := FlushAcks(p0, Template(k), k.rcv.acks, mtu);
    AckSegmentsSendable(Template(k), k.rcv.acks, conv);
    FlushProbesOk(a.p, a.seg, Probe(k.flow, k.clock.current), mtu, conv);
  }

  lemma EmptyPacker(mtu: u32, conv: u32)
    ensures PackerOk(Packer([], []), mtu, conv) && Contents(Packer([], [])) == []
  {
  }

  lemma AckSegmentsSendable(tmpl: Segment, acks: seq<Ack>, conv: u32)
    requires Sendable(conv, tmpl) && tmpl.data == []
    ensures forall i | 0 <= i < |acks| ::
              Sendable(conv, AckSegments(tmpl, acks)[i]) && AckSegments(tmpl, acks)[i].data == []
  {
  }

  /** The block whose send buffer a flush walks. */
  function Filled(k: Kcb): Kcb {
    FillWindow(AfterProbes(k), SendWindow(AfterProbes(k)))
  }

  lemma FilledOk(k: Kcb)
    requires KcbOk(k)
    ensures KcbOk(Filled(k)) && Filled(k).cfg == k.cfg
  {
    AfterProbesOk(k);
    FillWindowKeeps(AfterProbes(k), SendWindow(AfterProbes(k)));
  }

  function DataStart(k: Kcb, p: Packer): DataFlush {
    DataFlush(k.snd.buf, p, k.clock.xmit, k.clock.dead, false, 0)
  }

  lemma FlushUnfolds(k: Kcb)
    requires k.clock.updated
    ensures Flush(k).1 == Emit(FlushData(Filled(k), DataStart(Filled(k), Control(k)), 0).p)
    ensures Flush(k).0.snd == Filled(k).snd.(buf := FlushData(Filled(k), DataStart(Filled(k), Control(k)), 0).buf)
    ensures Flush(k).0.rcv == Filled(k).rcv
  {
    hide FillWindow, FlushData, FlushAcks, FlushProbes, Probe, SendWindow, Adjust;
  }

  /** Every datagram a flush sends fits the mtu, and its segments are acknowledgements, probes
      and the due part of the send buffer, in that order and complete. */
  lemma FlushSends(k: Kcb)
    requires KcbOk(k) && k.clock.updated
    ensures Fits(Flush(k).1, k.cfg.mtu, k.cfg.conv)
    ensures Flatten(Flush(k).1) == ControlSegments(k) + DueSegments(Filled(k), Filled(k).snd.buf, 0)
  {
    hide Filled, Control, ControlSegments, Flush, FlushData, PackerOk, Fits, SenderOk, ReceiverOk;
    FlushUnfolds(k);
    ControlOk(k);
    FilledOk(k);
    FlushDataOk(Filled(k), DataStart(Filled(k), Control(k)), 0);
    EmitOk(FlushData(Filled(k), DataStart(Filled(k), Control(k)), 0).p, k.cfg.mtu, k.cfg.conv);
  }

  /** The peer's ikcp_input of any datagram a flush sends returns 0 after handling exactly the
      segments in it; nothing is skipped and nothing is left over. */
  lemma FlushIsUnderstood(k: Kcb, peer: Kcb, latest: Latest, g: seq<Segment>)
    requires KcbOk(k) && k.clock.updated && g in Flush(k).1 && peer.cfg.conv == k.cfg.conv
    ensures OVERHEAD <= |EncodeAll(g)| <= k.cfg.mtu
    ensures InputLoop(peer, latest, EncodeAll(g)) == InputSegments(peer, latest, OnWireAll(g))
  {
    hide Flush, KcbOk;
    OkConfig(k);
    FlushSends(k);
    assert |g| > 0 && EncodeAll(g) == Encode(g[0]) + EncodeAll(g[1..]);
    InputEncoded(peer, latest, g);
  }
}

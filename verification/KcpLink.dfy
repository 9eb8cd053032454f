/** How each operation of an endpoint acts on the two directions of a connection. */
module KcpLink {
  import opened Common
  import opened KcpTypes
  import opened KcpWire
  import opened KcpSpec
  import opened KcpOutput
  import opened KcpInvariant
  import opened KcpNetwork

  // ----- small facts without wrap-around -----

  lemma NoWrap(a: u32, b: u32)
    requires a < HALF && b < HALF
    ensures TimeDiff(a, b) == a - b && Wrap(a + 1) == a + 1
    ensures b <= a ==> Off(b, a) == a - b
    ensures a < b ==> Off(b, a) == a - b + U32
  {
  }

  /** Everything the receiver had it still has. */
  ghost predicate HeldGrows(r: Receiver, r': Receiver) {
    r.nxt <= r'.nxt && forall sn: int :: Held(r, sn) ==> Held(r', sn)
  }

  lemma HeldGrowsStep(r: Receiver, r': Receiver, r'': Receiver)
    requires HeldGrows(r, r') && HeldGrows(r', r'')
    ensures HeldGrows(r, r'')
  {
  }

  // ----- sending -----

  /** The fragments below a bound are the same in both histories. */
  ghost predicate AgreeBelow(h: History, h': History, nxt: int) {
    nxt <= |h.frags| && nxt <= |h'.frags| && forall i | 0 <= i < nxt :: h.frags[i] == h'.frags[i]
  }

  lemma SendLink(cfg: Config, s: Sender, r: Receiver, net: set<seq<Segment>>, acks: set<seq<Segment>>, h: History,
                 data: seq<byte>)
    requires ConfigOk(cfg) && LinkOk(s, r, net, acks, h, cfg.stream)
    requires |AfterSend(h, cfg, s, data).frags| < HALF
    ensures LinkOk(Send(cfg, s, data).0, r, net, acks, AfterSend(h, cfg, s, data), cfg.stream)
  {
    SendHistory(cfg, s, data, h);
    hide CountsDown, Messages, Concat, Fragments, FragmentCount, Extend, Extension, ConfigOk, HistoryOk, Held, InBuf;
    var h', s' := AfterSend(h, cfg, s, data), Send(cfg, s, data).0;
    assert h'.frags == h.frags[..s.nxt] + s'.queue;
    assert s'.nxt == s.nxt && s'.buf == s.buf && h'.taken == h.taken by { SendFrame(cfg, s, data); }
    assert AgreeBelow(h, h', s.nxt);
    assert h'.frags[s.nxt..] == s'.queue;
  }

  // ----- acknowledgements arriving at the sender -----

  /** The buffer has a segment with this number and these contents. */
  ghost predicate ComesFrom(seg: Segment, buf: seq<Segment>) {
    exists j :: 0 <= j < |buf| && buf[j].sn == seg.sn && Same(seg, buf[j])
  }

  /** Buffered segments only leave when the receiver holds them. */
  ghost predicate SenderStep(s: Sender, s': Sender, r: Receiver) {
    && s'.nxt == s.nxt && s'.queue == s.queue
    && (forall i | 0 <= i < |s'.buf| :: ComesFrom(s'.buf[i], s.buf))
    && (forall sn | 0 <= sn < s.nxt && InBuf(s.buf, sn) :: InBuf(s'.buf, sn) || Held(r, sn))
  }

  lemma SenderStepRefl(s: Sender, r: Receiver)
    ensures SenderStep(s, s, r)
  {
    hide Held, InBuf;
    forall i | 0 <= i < |s.buf|
      ensures ComesFrom(s.buf[i], s.buf)
    {
      assert s.buf[i].sn == s.buf[i].sn && Same(s.buf[i], s.buf[i]);
    }
  }

  lemma SenderStepTrans(s: Sender, s': Sender, s'': Sender, r: Receiver)
    requires SenderStep(s, s', r) && SenderStep(s', s'', r)
    ensures SenderStep(s, s'', r)
  {
    hide Held, InBuf;
    forall i | 0 <= i < |s''.buf|
      ensures ComesFrom(s''.buf[i], s.buf)
    {
      assert ComesFrom(s''.buf[i], s'.buf);
      var k :| 0 <= k < |s'.buf| && s'.buf[k].sn == s''.buf[i].sn && Same(s''.buf[i], s'.buf[k]);
      assert ComesFrom(s'.buf[k], s.buf);
      var j :| 0 <= j < |s.buf| && s.buf[j].sn == s'.buf[k].sn && Same(s'.buf[k], s.buf[j]);
      assert Same(s''.buf[i], s.buf[j]);
    }
  }

  lemma SenderStepLink(s: Sender, s': Sender, r: Receiver, h: History)
    requires SenderLink(s, h) && NoLoss(s, r) && SenderStep(s, s', r)
    ensures SenderLink(s', h) && NoLoss(s', r)
  {
    hide Held, InBuf;
  }

  lemma BufferBelow(s: Sender, h: History)
    requires SenderLink(s, h)
    ensures forall i | 0 <= i < |s.buf| :: s.buf[i].sn < HALF
  {
  }

  lemma {:induction false} ParseUnaStep(s: Sender, una: u32, r: Receiver)
    requires una <= r.nxt < HALF && forall i | 0 <= i < |s.buf| :: s.buf[i].sn < HALF
    ensures SenderStep(s, ParseUna(s, una), r)
    decreases |s.buf|
  {
    hide TimeDiff, SenderStep;
    if |s.buf| > 0 && TimeDiff(una, s.buf[0].sn) > 0 {
      NoWrap(una, s.buf[0].sn);
      var s' := s.(buf := s.buf[1..], nBuf := s.nBuf - 1);
      DropStep(s, s', 0, r);
      ParseUnaStep(s', una, r);
      SenderStepTrans(s, s', ParseUna(s', una), r);
    } else {
      SenderStepRefl(s, r);
    }
  }

  /** Removing one segment that the receiver holds. */
  lemma DropStep(s: Sender, s': Sender, p: nat, r: Receiver)
    requires p < |s.buf| && Held(r, s.buf[p].sn)
    requires s'.nxt == s.nxt && s'.queue == s.queue && s'.buf == s.buf[..p] + s.buf[p + 1..]
    ensures SenderStep(s, s', r)
  {
    hide Held;
    forall i | 0 <= i < |s'.buf|
      ensures ComesFrom(s'.buf[i], s.buf)
    {
      var j := if i < p then i else i + 1;
      assert s'.buf[i] == s.buf[j];
    }
    forall sn | 0 <= sn < s.nxt && InBuf(s.buf, sn)
      ensures InBuf(s'.buf, sn) || Held(r, sn)
    {
      var j :| 0 <= j < |s.buf| && s.buf[j].sn == sn;
      if j != p { assert s'.buf[if j < p then j else j - 1] == s.buf[j]; }
    }
  }

  lemma ShrinkStep(s: Sender, r: Receiver)
    ensures SenderStep(s, ShrinkBuf(s), r)
  {
  }

  lemma ParseAckStep(s: Sender, sn: u32, r: Receiver)
    requires Held(r, sn)
    ensures SenderStep(s, ParseAck(s, sn), r)
  {
    hide TimeDiff, SenderStep, InFlight;
    var p := FindSn(s.buf, sn, 0);
    SenderStepRefl(s, r);
    if p < |s.buf| && InFlight(s, sn) {
      DropStep(s, ParseAck(s, sn), p, r);
    }
  }

  lemma FastAckStep(s: Sender, sn: u32, ts: u32, r: Receiver)
    ensures SenderStep(s, ParseFastAck(s, sn, ts), r)
  {
    MarkKeeps(s.buf, sn, ts, 0);
    hide TimeDiff, InFlight, Held;
    var s' := ParseFastAck(s, sn, ts);
    assert |s'.buf| == |s.buf|;
    forall m | 0 <= m < s.nxt && InBuf(s.buf, m)
      ensures InBuf(s'.buf, m)
    {
      var j :| 0 <= j < |s.buf| && s.buf[j].sn == m;
      assert s'.buf[j].sn == m;
    }
  }

  lemma InputSegmentSender(k: Kcb, seg: Segment, r: Receiver, h: History)
    requires SenderLink(k.snd, h) && NoLoss(k.snd, r) && AckSegment(r, seg) && r.nxt <= k.snd.nxt
    ensures SenderLink(InputSegment(k, seg).snd, h) && NoLoss(InputSegment(k, seg).snd, r)
    ensures InputSegment(k, seg).snd.nxt == k.snd.nxt
  {
    hide TimeDiff, SenderLink, NoLoss, Held, SenderStep, ParseUna, ShrinkBuf, ParseAck, ParseData, UpdateAck, MoveReady;
    var s0 := k.snd;
    BufferBelow(s0, h);
    NxtBelow(s0, h);
    var s1 := ParseUna(s0, seg.una);
    ParseUnaStep(s0, seg.una, r);
    var s2 := ShrinkBuf(s1);
    ShrinkStep(s1, r);
    SenderStepTrans(s0, s1, s2, r);
    SenderStepNxt(s0, s2, r);
    SenderStepLink(s0, s2, r, h);
    if seg.cmd == CMD_ACK {
      var s3 := ParseAck(s2, seg.sn);
      ParseAckStep(s2, seg.sn, r);
      ShrinkStep(s3, r);
      SenderStepTrans(s2, s3, ShrinkBuf(s3), r);
      SenderStepNxt(s2, ShrinkBuf(s3), r);
      SenderStepLink(s2, ShrinkBuf(s3), r, h);
    }
  }

  lemma NxtBelow(s: Sender, h: History)
    requires SenderLink(s, h)
    ensures s.nxt < HALF
  {
  }

  lemma SenderStepNxt(s: Sender, s': Sender, r: Receiver)
    requires SenderStep(s, s', r)
    ensures s'.nxt == s.nxt && s'.queue == s.queue
  {
  }

  // ----- data arriving at the receiver -----

  lemma {:induction false} MoveReadyLink(r: Receiver, rcvWnd: u32, nxt: int, h: History)
    requires ReceiverOk(r, rcvWnd) && ReceiverLink(nxt, r, h) && nxt < HALF
    ensures ReceiverLink(nxt, MoveReady(r, rcvWnd), h) && HeldGrows(r, MoveReady(r, rcvWnd))
    ensures MoveReady(r, rcvWnd).acks == r.acks
    decreases |r.buf|
  {
    hide ReceiverOk, ReceiverLink, HeldGrows, Off;
    if |r.buf| > 0 && r.buf[0].sn == r.nxt && r.nQueue < rcvWnd {
      var r' := r.(buf := r.buf[1..], nBuf := r.nBuf - 1, queue := r.queue + [r.buf[0]], nQueue := r.nQueue + 1,
                   nxt := Wrap(r.nxt + 1));
      MoveOneLink(r, rcvWnd, nxt, h, r');
      MoveReadyOne(r, rcvWnd, r');
      MoveReadyLink(r', rcvWnd, nxt, h);
      HeldGrowsStep(r, r', MoveReady(r', rcvWnd));
    } else {
      HeldGrowsRefl(r);
    }
  }

  lemma HeldGrowsRefl(r: Receiver)
    ensures HeldGrows(r, r)
  {
  }

  lemma MoveReadyOne(r: Receiver, rcvWnd: u32, r': Receiver)
    requires ReceiverOk(r, rcvWnd) && |r.buf| > 0 && r.buf[0].sn == r.nxt
    requires r' == r.(buf := r.buf[1..], nBuf := r.nBuf - 1, queue := r.queue + [r.buf[0]], nQueue := r.nQueue + 1,
                      nxt := Wrap(r.nxt + 1))
    ensures ReceiverOk(r', rcvWnd)
  {
    hide Off, Ordered;
    MoveOneKeeps(r.nxt, rcvWnd, r.buf);
  }

  lemma MoveOneLink(r: Receiver, rcvWnd: u32, nxt: int, h: History, r': Receiver)
    requires ReceiverOk(r, rcvWnd) && ReceiverLink(nxt, r, h) && nxt < HALF
    requires |r.buf| > 0 && r.buf[0].sn == r.nxt
    requires r' == r.(buf := r.buf[1..], nBuf := r.nBuf - 1, queue := r.queue + [r.buf[0]], nQueue := r.nQueue + 1,
                      nxt := Wrap(r.nxt + 1))
    ensures ReceiverLink(nxt, r', h) && HeldGrows(r, r')
  {
    assert r.buf[0].sn < nxt;
    NoWrap(r.nxt, 0);
    forall i | 0 <= i < |r'.buf|
      ensures r'.buf[i] == r.buf[i + 1] && r'.nxt <= r'.buf[i].sn
    {
      assert Off(r.nxt, r.buf[0].sn) < Off(r.nxt, r.buf[i + 1].sn);
    }
    hide Off;
    forall i | 0 <= i < |r'.queue|
      ensures Same(r'.queue[i], h.frags[h.taken + i])
    {
    }
    forall sn: int | Held(r, sn)
      ensures Held(r', sn)
    {
      if sn >= r'.nxt {
        var j :| 0 <= j < |r.buf| && r.buf[j].sn == sn;
        assert r'.buf[j - 1].sn == sn;
      }
    }
  }

  lemma InsertLink(r: Receiver, nxt: int, h: History, seg: Segment, p: nat)
    requires ReceiverLink(nxt, r, h) && p <= |r.buf|
    requires r.nxt <= seg.sn < nxt && Same(seg, h.frags[seg.sn])
    ensures var r' := r.(buf := r.buf[..p] + [seg] + r.buf[p..], nBuf := r.nBuf + 1);
            ReceiverLink(nxt, r', h) && HeldGrows(r, r') && Held(r', seg.sn)
  {
    var buf := r.buf[..p] + [seg] + r.buf[p..];
    var r' := r.(buf := buf, nBuf := r.nBuf + 1);
    forall i | 0 <= i < |buf|
      ensures r.nxt <= buf[i].sn < nxt && Same(buf[i], h.frags[buf[i].sn])
    {
      if i < p {
        assert buf[i] == r.buf[i];
      } else if i > p {
        assert buf[i] == r.buf[i - 1];
      }
    }
    InsertHolds(r, r', seg, p);
  }

  lemma InsertHolds(r: Receiver, r': Receiver, seg: Segment, p: nat)
    requires p <= |r.buf| && r'.nxt == r.nxt && r'.buf == r.buf[..p] + [seg] + r.buf[p..]
    ensures HeldGrows(r, r') && Held(r', seg.sn)
  {
    assert r'.buf[p].sn == seg.sn;
    forall sn: int | Held(r, sn)
      ensures Held(r', sn)
    {
      if sn >= r.nxt {
        var j :| 0 <= j < |r.buf| && r.buf[j].sn == sn;
        assert r'.buf[if j < p then j else j + 1].sn == sn;
      }
    }
  }

  lemma ParseDataLink(r: Receiver, rcvWnd: u32, nxt: int, h: History, seg: Segment)
    requires ReceiverOk(r, rcvWnd) && ReceiverLink(nxt, r, h) && nxt < HALF && rcvWnd < HALF
    requires r.nxt <= seg.sn < nxt && Same(seg, h.frags[seg.sn])
    ensures var r' := ParseData(r, rcvWnd, seg);
            && ReceiverLink(nxt, r', h) && HeldGrows(r, r') && r'.acks == r.acks
            && (TimeDiff(seg.sn, Wrap(r.nxt + rcvWnd)) < 0 ==> Held(r', seg.sn))
  {
    hide MoveReady, TimeDiff, HeldGrows, Wrap, Same, ReceiverLink, Ordered, Off;
    InWindow(r.nxt, rcvWnd, seg.sn);
    NoWrap(seg.sn, r.nxt);
    HeldGrowsRefl(r);
    if TimeDiff(seg.sn, Wrap(r.nxt + rcvWnd)) < 0 {
      InsertPositionRight(r.nxt, rcvWnd, r.buf, seg.sn, |r.buf|);
      hide ReceiverOk;
      var p := InsertPosition(r.buf, seg.sn, |r.buf|);
      if p < 0 {
        MoveReadyLink(r, rcvWnd, nxt, h);
        HeldStays(r, MoveReady(r, rcvWnd), seg.sn);
      } else {
        var r1 := r.(buf := r.buf[..p] + [seg] + r.buf[p..], nBuf := r.nBuf + 1);
        InsertLink(r, nxt, h, seg, p);
        InsertOk(r, rcvWnd, seg, p, r1);
        MoveReadyLink(r1, rcvWnd, nxt, h);
        HeldGrowsStep(r, r1, MoveReady(r1, rcvWnd));
        HeldStays(r1, MoveReady(r1, rcvWnd), seg.sn);
      }
    }
  }

  lemma HeldStays(r: Receiver, r': Receiver, sn: int)
    requires HeldGrows(r, r') && Held(r, sn)
    ensures Held(r', sn)
  {
  }

  lemma InsertOk(r: Receiver, rcvWnd: u32, seg: Segment, p: nat, r1: Receiver)
    requires ReceiverOk(r, rcvWnd) && Off(r.nxt, seg.sn) < rcvWnd && p <= |r.buf|
    requires forall j | 0 <= j < p :: Off(r.nxt, r.buf[j].sn) < Off(r.nxt, seg.sn)
    requires forall j | p <= j < |r.buf| :: Off(r.nxt, seg.sn) < Off(r.nxt, r.buf[j].sn)
    requires r1 == r.(buf := r.buf[..p] + [seg] + r.buf[p..], nBuf := r.nBuf + 1)
    ensures ReceiverOk(r1, rcvWnd)
  {
    hide Off, Ordered;
    InsertKeeps(r.nxt, rcvWnd, r.buf, seg, p);
  }

  lemma InputSegmentReceiver(k: Kcb, seg: Segment, nxt: int, h: History)
    requires ReceiverOk(k.rcv, k.cfg.rcvWnd) && k.cfg.rcvWnd < HALF
    requires ReceiverLink(nxt, k.rcv, h) && nxt < HALF && AcksPending(k.rcv) && DataSegment(nxt, seg, h)
    ensures var r' := InputSegment(k, seg).rcv;
            && ReceiverLink(nxt, r', h) && AcksPending(r') && HeldGrows(k.rcv, r')
  {
    hide ParseUna, ShrinkBuf, ParseAck, ParseData, UpdateAck, ReceiverLink, ReceiverOk, AcksPending, HeldGrows,
      TimeDiff;
    HeldGrowsRefl(k.rcv);
    if seg.cmd == CMD_PUSH && TimeDiff(seg.sn, Wrap(k.rcv.nxt + k.cfg.rcvWnd)) < 0 {
      var r := k.rcv.(acks := k.rcv.acks + [Ack(seg.sn, seg.ts)]);
      AcksIrrelevant(k.rcv, r.acks, k.cfg.rcvWnd);
      AcksIrrelevantLink(k.rcv, r, nxt, h);
      NxtWithin(nxt, k.rcv, h);
      NoWrap(seg.sn, k.rcv.nxt);
      var r' := if TimeDiff(seg.sn, k.rcv.nxt) >= 0 then ParseData(r, k.cfg.rcvWnd, seg) else r;
      if TimeDiff(seg.sn, k.rcv.nxt) >= 0 {
        ParseDataLink(r, k.cfg.rcvWnd, nxt, h, seg);
      } else {
        HeldGrowsRefl(r);
      }
      HeldGrowsAcks(k.rcv, r, r');
      AcksPendingGrow(k.rcv, r', seg.sn, seg.ts);
    }
  }

  lemma NxtWithin(nxt: int, r: Receiver, h: History)
    requires ReceiverLink(nxt, r, h)
    ensures r.nxt <= nxt && forall sn: int :: sn < r.nxt ==> Held(r, sn)
  {
  }

  lemma AcksIrrelevantLink(r: Receiver, r': Receiver, nxt: int, h: History)
    requires ReceiverLink(nxt, r, h) && r' == r.(acks := r'.acks)
    ensures ReceiverLink(nxt, r', h) && HeldGrows(r, r') && HeldGrows(r', r)
  {
  }

  lemma HeldGrowsAcks(r: Receiver, r': Receiver, r'': Receiver)
    requires HeldGrows(r', r'') && r' == r.(acks := r'.acks)
    ensures HeldGrows(r, r'')
  {
  }

  lemma AcksPendingGrow(r: Receiver, r': Receiver, sn: u32, ts: u32)
    requires AcksPending(r) && HeldGrows(r, r') && r'.acks == r.acks + [Ack(sn, ts)] && Held(r', sn)
    ensures AcksPending(r')
  {
    hide Held;
    forall i | 0 <= i < |r'.acks|
      ensures Held(r', r'.acks[i].sn)
    {
      if i < |r.acks| { assert r'.acks[i] == r.acks[i]; }
    }
  }

  // ----- a whole datagram -----

  lemma {:induction false} InputSegmentsSender(k: Kcb, latest: Latest, segs: seq<Segment>, r: Receiver, h: History)
    requires SenderLink(k.snd, h) && NoLoss(k.snd, r) && r.nxt <= k.snd.nxt
    requires forall i | 0 <= i < |segs| :: AckSegment(r, segs[i])
    ensures var k' := InputSegments(k, latest, segs).k;
            SenderLink(k'.snd, h) && NoLoss(k'.snd, r) && k'.snd.nxt == k.snd.nxt
    decreases |segs|
  {
    hide SenderLink, NoLoss, AckSegment, InputSegment, Newer;
    if |segs| > 0 {
      InputSegmentSender(k, segs[0], r, h);
      InputSegmentsSender(InputSegment(k, segs[0]),
        if segs[0].cmd == CMD_ACK then Newer(latest, segs[0].sn, segs[0].ts) else latest, segs[1..], r, h);
    }
  }

  lemma {:induction false} InputSegmentsReceiver(k: Kcb, latest: Latest, segs: seq<Segment>, nxt: int, h: History)
    requires KcbOk(k) && nxt <= |h.frags| < HALF
    requires ReceiverLink(nxt, k.rcv, h) && AcksPending(k.rcv)
    requires forall i | 0 <= i < |segs| :: DataSegment(nxt, segs[i], h) && segs[i].wnd <= 65535
    ensures var r' := InputSegments(k, latest, segs).k.rcv;
            ReceiverLink(nxt, r', h) && AcksPending(r') && HeldGrows(k.rcv, r')
    decreases |segs|
  {
    hide KcbOk, ReceiverLink, AcksPending, HeldGrows, InputSegment, Newer, DataSegment;
    HeldGrowsRefl(k.rcv);
    if |segs| > 0 {
      OkReceiver(k);
      var k1 := InputSegment(k, segs[0]);
      var latest1 := if segs[0].cmd == CMD_ACK then Newer(latest, segs[0].sn, segs[0].ts) else latest;
      InputSegmentReceiver(k, segs[0], nxt, h);
      InputSegmentKeeps(k, segs[0]);
      InputSegmentsReceiver(k1, latest1, segs[1..], nxt, h);
      HeldGrowsStep(k.rcv, k1.rcv, InputSegments(k1, latest1, segs[1..]).k.rcv);
    }
  }

  lemma OkReceiver(k: Kcb)
    requires KcbOk(k)
    ensures ReceiverOk(k.rcv, k.cfg.rcvWnd) && k.cfg.rcvWnd < HALF && ConfigOk(k.cfg)
  {
  }

  /** The result of ikcp_input on an encoded datagram, in terms of its segments. */
  lemma InputDatagram(k: Kcb, g: seq<Segment>)
    requires 0 < k.cfg.mss && |g| > 0 && forall i | 0 <= i < |g| :: Sendable(k.cfg.conv, g[i])
    ensures var p := InputSegments(k, NoAck, OnWireAll(g)).k;
            var k' := Input(k, EncodeAll(g)).0;
            && k'.rcv == p.rcv
            && (k'.snd == p.snd || exists sn, ts :: k'.snd == ParseFastAck(p.snd, sn, ts))
  {
    hide InputLoop, InputSegments, ParseFastAck, Grow, TimeDiff, Encode;
    assert EncodeAll(g) == Encode(g[0]) + EncodeAll(g[1..]);
    InputEncoded(k, NoAck, g);
  }

  lemma OnWireGood(g: seq<Segment>, i: nat)
    requires i < |g|
    ensures OnWireAll(g)[i].sn == g[i].sn && OnWireAll(g)[i].una == g[i].una && OnWireAll(g)[i].data == g[i].data
    ensures g[i].cmd < 256 ==> OnWireAll(g)[i].cmd == g[i].cmd
    ensures g[i].frg < 256 ==> OnWireAll(g)[i].frg == g[i].frg
    ensures OnWireAll(g)[i].wnd <= 65535
  {
  }

  /** Delivering a datagram of the peer leaves the outgoing direction in order. */
  lemma DeliverSender(k: Kcb, g: seq<Segment>, r: Receiver, h: History)
    requires KcbOk(k) && SenderLink(k.snd, h) && NoLoss(k.snd, r) && r.nxt <= k.snd.nxt
    requires |g| > 0 && forall i | 0 <= i < |g| :: Sendable(k.cfg.conv, g[i]) && AckSegment(r, g[i])
    ensures var s' := Input(k, EncodeAll(g)).0.snd;
            SenderLink(s', h) && NoLoss(s', r) && s'.nxt == k.snd.nxt
  {
    hide KcbOk, SenderLink, NoLoss, Held, InputSegments, Input, ParseFastAck, SenderStep;
    OkReceiver(k);
    InputDatagram(k, g);
    forall i | 0 <= i < |g|
      ensures AckSegment(r, OnWireAll(g)[i])
    {
      OnWireGood(g, i);
    }
    InputSegmentsSender(k, NoAck, OnWireAll(g), r, h);
    var p := InputSegments(k, NoAck, OnWireAll(g)).k;
    var s' := Input(k, EncodeAll(g)).0.snd;
    if s' != p.snd {
      var sn: u32, ts: u32 :| s' == ParseFastAck(p.snd, sn, ts);
      FastAckStep(p.snd, sn, ts, r);
      SenderStepNxt(p.snd, s', r);
      SenderStepLink(p.snd, s', r, h);
    }
  }

  /** Delivering a datagram of the peer leaves the incoming direction in order. */
  lemma DeliverReceiver(k: Kcb, g: seq<Segment>, nxt: int, h: History)
    requires KcbOk(k) && nxt <= |h.frags| < HALF && CountsDown(h.frags)
    requires ReceiverLink(nxt, k.rcv, h) && AcksPending(k.rcv)
    requires |g| > 0 && forall i | 0 <= i < |g| :: Sendable(k.cfg.conv, g[i]) && DataSegment(nxt, g[i], h)
    ensures var r' := Input(k, EncodeAll(g)).0.rcv;
            ReceiverLink(nxt, r', h) && AcksPending(r') && HeldGrows(k.rcv, r')
  {
    hide KcbOk, ReceiverLink, AcksPending, HeldGrows, InputSegments, Input, ParseFastAck, DataSegment, CountsDown;
    OkReceiver(k);
    InputDatagram(k, g);
    forall i | 0 <= i < |g|
      ensures DataSegment(nxt, OnWireAll(g)[i], h) && OnWireAll(g)[i].wnd <= 65535
    {
      OnWireData(k.cfg.conv, g, i, nxt, h);
    }
    InputSegmentsReceiver(k, NoAck, OnWireAll(g), nxt, h);
  }

  lemma OnWireData(conv: u32, g: seq<Segment>, i: nat, nxt: int, h: History)
    requires i < |g| && Sendable(conv, g[i]) && nxt <= |h.frags| && DataSegment(nxt, g[i], h) && CountsDown(h.frags)
    ensures DataSegment(nxt, OnWireAll(g)[i], h) && OnWireAll(g)[i].wnd <= 65535
  {
    OnWireGood(g, i);
    if g[i].cmd == CMD_PUSH { assert CountsAt(h.frags, g[i].sn); }
  }

  // ----- flushing -----

  lemma {:induction false} FillWindowLink(k: Kcb, cwnd: u32, r: Receiver, h: History)
    requires SenderLink(k.snd, h) && NoLoss(k.snd, r)
    ensures SenderLink(FillWindow(k, cwnd).snd, h) && NoLoss(FillWindow(k, cwnd).snd, r)
    ensures k.snd.nxt <= FillWindow(k, cwnd).snd.nxt && FillWindow(k, cwnd).rcv == k.rcv
    decreases |k.snd.queue|
  {
    hide TimeDiff, SenderLink, NoLoss, Stamp;
    if TimeDiff(k.snd.nxt, Wrap(k.snd.una + cwnd)) < 0 && |k.snd.queue| > 0 {
      var s := k.snd;
      var s' := s.(queue := s.queue[1..], nQueue := s.nQueue - 1, buf := s.buf + [Stamp(k, s.queue[0])],
                   nBuf := s.nBuf + 1, nxt := Wrap(s.nxt + 1));
      StampFields(k, s.queue[0]);
      StampLink(s, s', Stamp(k, s.queue[0]), r, h);
      FillWindowLink(k.(snd := s'), cwnd, r, h);
    }
  }

  lemma StampLink(s: Sender, s': Sender, seg: Segment, r: Receiver, h: History)
    requires SenderLink(s, h) && NoLoss(s, r) && |s.queue| > 0
    requires seg.sn == s.nxt && Same(seg, s.queue[0])
    requires s' == s.(queue := s.queue[1..], nQueue := s.nQueue - 1, buf := s.buf + [seg], nBuf := s.nBuf + 1,
                      nxt := Wrap(s.nxt + 1))
    ensures SenderLink(s', h) && NoLoss(s', r) && s'.nxt == s.nxt + 1
  {
    hide Held;
    NoWrap(s.nxt, 0);
    assert h.frags[s.nxt..][1..] == h.frags[s.nxt + 1..];
    assert h.frags[s.nxt] == h.frags[s.nxt..][0];
    forall sn | 0 <= sn < s'.nxt
      ensures Held(r, sn) || InBuf(s'.buf, sn)
    {
      if sn == s.nxt {
        assert s'.buf[|s.buf|].sn == sn;
      } else if !Held(r, sn) {
        assert InBuf(s.buf, sn);
        var j :| 0 <= j < |s.buf| && s.buf[j].sn == sn;
        assert s'.buf[j].sn == sn;
      }
    }
  }

  /** What a flush may send, seen from both directions. */
  ghost predicate GoodOutput(seg: Segment, nxt: int, h: History, r: Receiver)
    requires nxt <= |h.frags|
  {
    DataSegment(nxt, seg, h) && AckSegment(r, seg)
  }

  lemma {:induction false} DueGood(k: Kcb, buf: seq<Segment>, i: nat, h: History)
    requires i <= |buf| && BufferMatches(buf, h.frags, k.snd.nxt)
    requires forall j | 0 <= j < |buf| :: buf[j].cmd == CMD_PUSH
    ensures forall m | 0 <= m < |DueSegments(k, buf, i)| :: GoodOutput(DueSegments(k, buf, i)[m], k.snd.nxt, h, k.rcv)
    decreases |buf| - i
  {
    hide Passed, NeedSend, Held;
    if i < |buf| {
      DueGood(k, buf, i + 1, h);
      PassedFields(k, buf[i]);
    }
  }

  lemma ControlGood(k: Kcb, nxt: int, h: History)
    requires AcksPending(k.rcv) && nxt <= |h.frags|
    ensures forall m | 0 <= m < |ControlSegments(k)| :: GoodOutput(ControlSegments(k)[m], nxt, h, k.rcv)
  {
    hide Held, Probe;
    var acks := AckSegments(Template(k), k.rcv.acks);
    forall m | 0 <= m < |acks|
      ensures GoodOutput(acks[m], nxt, h, k.rcv) && acks[m].una == k.rcv.nxt
    {
      assert Held(k.rcv, k.rcv.acks[m].sn);
    }
    var probes := ProbeSegments(Template(k), k.rcv.acks, Probe(k.flow, k.clock.current));
    forall m | 0 <= m < |probes|
      ensures GoodOutput(probes[m], nxt, h, k.rcv)
    {
    }
  }

  lemma PassedLink(k: Kcb, s: Sender, s': Sender, r: Receiver, h: History)
    requires SenderLink(s, h) && NoLoss(s, r) && s' == s.(buf := s'.buf) && |s'.buf| == |s.buf|
    requires forall j | 0 <= j < |s.buf| :: s'.buf[j] == Passed(k, s.buf[j])
    ensures SenderLink(s', h) && NoLoss(s', r)
  {
    hide Passed, Held;
    forall j | 0 <= j < |s.buf|
      ensures s'.buf[j].sn == s.buf[j].sn && Same(s'.buf[j], s.buf[j])
    {
      PassedFields(k, s.buf[j]);
    }
    forall sn | 0 <= sn < s'.nxt
      ensures Held(r, sn) || InBuf(s'.buf, sn)
    {
      if !Held(r, sn) {
        assert InBuf(s.buf, sn);
        var j :| 0 <= j < |s.buf| && s.buf[j].sn == sn;
        assert s'.buf[j].sn == sn;
      }
    }
  }

  /** A flush keeps the outgoing direction in order. */
  lemma FlushSender(k: Kcb, r: Receiver, h: History)
    requires KcbOk(k) && k.clock.updated && SenderLink(k.snd, h) && NoLoss(k.snd, r)
    ensures SenderLink(Flush(k).0.snd, h) && NoLoss(Flush(k).0.snd, r)
    ensures k.snd.nxt <= Flush(k).0.snd.nxt
  {
    hide KcbOk, SenderLink, NoLoss, Flush, FlushData, FillWindow, Control;
    FlushUnfolds(k);
    FillWindowLink(AfterProbes(k), SendWindow(AfterProbes(k)), r, h);
    var k2 := Filled(k);
    FlushDataBuffer(k2, DataStart(k2, Control(k)), 0);
    PassedLink(k2, k2.snd, Flush(k).0.snd, r, h);
  }

  /** Everything a flush sends is accepted data or names data this endpoint holds. */
  lemma FlushOutput(k: Kcb, h: History)
    requires KcbOk(k) && k.clock.updated && SenderLink(k.snd, h) && AcksPending(k.rcv)
    ensures Flush(k).0.snd.nxt <= |h.frags|
    ensures forall g, i | g in Flush(k).1 && 0 <= i < |g| ::
      Sendable(k.cfg.conv, g[i]) && GoodOutput(g[i], Flush(k).0.snd.nxt, h, k.rcv)
    ensures forall g | g in Flush(k).1 :: |g| > 0
    ensures Flush(k).0.rcv == k.rcv.(acks := [])
  {
    hide KcbOk, SenderLink, NoLoss, Flush, FlushData, FillWindow, Control, ControlSegments, DueSegments, GoodOutput,
      Held, BufferMatches, AcksPending;
    FlushUnfolds(k);
    FlushSends(k);
    FilledLink(k, h);
    var k2 := Filled(k);
    DueGood(k2, k2.snd.buf, 0, h);
    ControlGood(k, k2.snd.nxt, h);
    var out := Flush(k).1;
    var due := DueSegments(k2, k2.snd.buf, 0);
    forall g, i | g in out && 0 <= i < |g|
      ensures Sendable(k.cfg.conv, g[i]) && GoodOutput(g[i], k2.snd.nxt, h, k.rcv)
    {
      FlattenMember(out, g, i);
      var all := ControlSegments(k) + due;
      var m :| 0 <= m < |all| && all[m] == g[i];
      if m < |ControlSegments(k)| {
        assert g[i] == ControlSegments(k)[m];
      } else {
        assert g[i] == due[m - |ControlSegments(k)|];
        GoodOutputAcks(g[i], k2.snd.nxt, h, k.rcv, k2.rcv);
      }
    }
  }

  lemma GoodOutputAcks(seg: Segment, nxt: int, h: History, r: Receiver, r': Receiver)
    requires nxt <= |h.frags| && r' == r.(acks := []) && GoodOutput(seg, nxt, h, r')
    ensures GoodOutput(seg, nxt, h, r)
  {
  }

  lemma FilledLink(k: Kcb, h: History)
    requires KcbOk(k) && SenderLink(k.snd, h)
    ensures Filled(k).snd.nxt <= |h.frags|
    ensures BufferMatches(Filled(k).snd.buf, h.frags, Filled(k).snd.nxt)
    ensures forall j | 0 <= j < |Filled(k).snd.buf| :: Filled(k).snd.buf[j].cmd == CMD_PUSH
    ensures Filled(k).rcv == k.rcv.(acks := [])
  {
    hide SenderOk, ReceiverOk, FillWindow;
    FilledOk(k);
    FillWindowLinkOnly(AfterProbes(k), SendWindow(AfterProbes(k)), h);
  }

  lemma {:induction false} FillWindowLinkOnly(k: Kcb, cwnd: u32, h: History)
    requires SenderLink(k.snd, h)
    ensures SenderLink(FillWindow(k, cwnd).snd, h) && FillWindow(k, cwnd).rcv == k.rcv
    decreases |k.snd.queue|
  {
    var everything := Receiver(k.snd.nxt, [], [], 0, 0, []);
    FillWindowLink(k, cwnd, everything, h);
  }

  lemma {:induction false} FlattenMember(groups: seq<seq<Segment>>, g: seq<Segment>, i: nat)
    requires g in groups && i < |g|
    ensures exists m :: 0 <= m < |Flatten(groups)| && Flatten(groups)[m] == g[i]
    decreases |groups|
  {
    if groups[0] == g {
      assert Flatten(groups)[i] == g[i];
    } else {
      FlattenMember(groups[1..], g, i);
      var m :| 0 <= m < |Flatten(groups[1..])| && Flatten(groups[1..])[m] == g[i];
      assert Flatten(groups)[|groups[0]| + m] == g[i];
    }
  }

  // ----- reading -----

  /** The history after ikcp_recv; peeking and failing leave it alone. */
  function AfterRecv(h: History, k: Kcb, len: int): History {
    var res := Recv(k, len).1;
    if res.code < 0 || len < 0 then h
    else h.(taken := h.taken + MessageLength(k.rcv.queue), delivered := h.delivered + res.data,
      got := h.got + [res.data])
  }

  /** A queue that holds all of its first message has the same first message as the fragments it stands for. */
  lemma {:induction false} FirstMessage(q: seq<Segment>, frags: seq<Segment>)
    requires 0 < |q| <= |frags| && CountsDown(frags) && q[0].frg + 1 <= |q|
    requires forall i | 0 <= i < |q| :: Same(q[i], frags[i])
    ensures MessageLength(q) == MessageLength(frags) == frags[0].frg + 1
    ensures Concat(q[..MessageLength(q)]) == Concat(frags[..MessageLength(q)])
    decreases |q|
  {
    hide CountsDown;
    MessageLengthIs(frags);
    assert Same(q[0], frags[0]);
    if q[0].frg > 0 {
      CountsDownTail(frags, 1);
      assert CountsAt(frags, 0) by { CountsHere(frags, 0); }
      forall i | 0 <= i < |q| - 1
        ensures Same(q[1..][i], frags[1..][i])
      {
        assert Same(q[i + 1], frags[i + 1]);
      }
      FirstMessage(q[1..], frags[1..]);
      var n := MessageLength(q);
      assert q[..n][1..] == q[1..][..n - 1] && frags[..n][1..] == frags[1..][..n - 1];
    } else {
      assert q[..1] == [q[0]] && frags[..1] == [frags[0]];
      assert Concat([q[0]]) == q[0].data + Concat([]) && Concat([frags[0]]) == frags[0].data + Concat([]);
    }
  }

  lemma CountsHere(frags: seq<Segment>, i: nat)
    requires CountsDown(frags) && i < |frags|
    ensures CountsAt(frags, i)
  {
  }

  /** The unread fragments, and the queue as their beginning. */
  lemma UnreadQueue(nxt: int, r: Receiver, h: History)
    requires ReceiverLink(nxt, r, h) && nxt <= |h.frags| && CountsDown(h.frags) && |r.queue| > 0
    ensures var unread := h.frags[h.taken..];
            && |r.queue| <= |unread| && CountsDown(unread) && Same(r.queue[0], unread[0])
            && (forall i | 0 <= i < |r.queue| :: Same(r.queue[i], unread[i]))
            && r.queue[0].frg < WND_RCV - 1
  {
    CountsDownTail(h.frags, h.taken);
    CountsHere(h.frags, h.taken);
    hide CountsDown;
    forall i | 0 <= i < |r.queue|
      ensures Same(r.queue[i], h.frags[h.taken..][i])
    {
      assert h.frags[h.taken..][i] == h.frags[h.taken + i];
    }
  }

  /** A full receive queue always holds a complete message, so the reader can drain it. */
  lemma FullQueueReadable(k: Kcb, nxt: int, h: History)
    requires KcbOk(k) && ReceiverLink(nxt, k.rcv, h) && nxt <= |h.frags| && CountsDown(h.frags)
    requires k.rcv.nQueue >= k.cfg.rcvWnd
    ensures PeekSize(k.rcv) >= 0
    ensures Recv(k, PeekSize(k.rcv)).1.code == PeekSize(k.rcv)
  {
    hide MoveReady, Concat, SenderOk, DataOk, CountsDown;
    UnreadQueue(nxt, k.rcv, h);
  }

  /** What a successful read delivers is the next message of the history. */
  lemma RecvHistory(k: Kcb, len: int, nxt: int, h: History, stream: bool)
    requires KcbOk(k) && ReceiverLink(nxt, k.rcv, h) && nxt <= |h.frags| && HistoryOk(h, stream)
    ensures HistoryOk(AfterRecv(h, k, len), stream)
    ensures Recv(k, len).1.code >= 0 ==> h.taken + MessageLength(k.rcv.queue) <= |h.frags|
  {
    hide MoveReady, Concat, SenderOk, DataOk, CountsDown, Messages, MessageLength;
    if Recv(k, len).1.code >= 0 {
      var q, unread := k.rcv.queue, h.frags[h.taken..];
      UnreadQueue(nxt, k.rcv, h);
      assert k.rcv.nQueue == |q|;
      FirstMessage(q, unread);
      MessageLengthIs(unread);
      var n := MessageLength(q);
      var before, part := h.frags[..h.taken], unread[..n];
      assert h.frags[..h.taken + n] == before + part;
      CountsDownTake(unread, n);
      CountsDownAppend(before, part);
      ConcatAppend(before, part);
      MessagesAppend(before, part);
      MessageLengthIs(part);
      OneMessage(part);
    }
  }

  lemma DropLink(r: Receiver, nxt: int, h: History, n: nat, h': History)
    requires ReceiverLink(nxt, r, h) && n <= |r.queue|
    requires h'.frags == h.frags && h'.taken == h.taken + n
    ensures ReceiverLink(nxt, r.(queue := r.queue[n..], nQueue := r.nQueue - n), h')
    ensures HeldGrows(r, r.(queue := r.queue[n..], nQueue := r.nQueue - n))
  {
    forall i | 0 <= i < |r.queue| - n
      ensures Same(r.queue[n..][i], h.frags[h.taken + n + i])
    {
      assert Same(r.queue[n + i], h.frags[h.taken + (n + i)]);
    }
  }

  /** Reading keeps the incoming direction in order. */
  lemma RecvReceiver(k: Kcb, len: int, nxt: int, h: History)
    requires KcbOk(k) && ReceiverLink(nxt, k.rcv, h) && nxt < HALF && AcksPending(k.rcv)
    ensures var r' := Recv(k, len).0.rcv;
            ReceiverLink(nxt, r', AfterRecv(h, k, len)) && AcksPending(r') && HeldGrows(k.rcv, r')
    ensures AfterRecv(h, k, len).frags == h.frags && Recv(k, len).0.snd == k.snd
  {
    hide MoveReady, Concat, SenderOk, DataOk, ReceiverLink, AcksPending, HeldGrows, PeekSize, Ordered;
    HeldGrowsRefl(k.rcv);
    if Recv(k, len).1.code >= 0 {
      var n := if len < 0 then 0 else MessageLength(k.rcv.queue);
      var r1 := k.rcv.(queue := k.rcv.queue[n..], nQueue := k.rcv.nQueue - n);
      var h' := AfterRecv(h, k, len);
      assert k.rcv.queue[0..] == k.rcv.queue;
      PeekCode(k, len);
      DropLink(k.rcv, nxt, h, n, h');
      MoveReadyLink(r1, k.cfg.rcvWnd, nxt, h');
      HeldGrowsStep(k.rcv, r1, MoveReady(r1, k.cfg.rcvWnd));
      AcksFollow(k.rcv, MoveReady(r1, k.cfg.rcvWnd));
    } else {
      PeekCode(k, len);
    }
  }

  lemma PeekCode(k: Kcb, len: int)
    ensures Recv(k, len).1.code >= 0 <==> |k.rcv.queue| > 0 && 0 <= PeekSize(k.rcv) <= (if len < 0 then -len else len)
  {
    hide MoveReady, PeekSize, Concat, MessageLength;
  }

  lemma AcksFollow(r: Receiver, r': Receiver)
    requires AcksPending(r) && HeldGrows(r, r') && r'.acks == r.acks
    ensures AcksPending(r')
  {
    hide Held;
  }
}

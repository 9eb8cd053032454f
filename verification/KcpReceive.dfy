/** What becomes of data that arrives: stored under its number, acknowledged, and handed on in order. */
module KcpReceive {
  import opened Common
  import opened KcpTypes
  import opened KcpWire
  import opened KcpSpec
  import opened KcpInvariant

  /** The next segment in order is not kept waiting in rcv_buf while rcv_queue has room. */
  predicate Drained(r: Receiver, rcvWnd: u32) {
    && r.nQueue == |r.queue|
    && (|r.buf| > 0 && r.buf[0].sn == r.nxt ==> |r.queue| >= rcvWnd)
  }

  /** The queue has only gained segments, numbered in order from rcv_nxt on, and rcv_nxt counts them. */
  ghost predicate Advanced(r: Receiver, r': Receiver) {
    && |r.queue| <= |r'.queue| && r'.nxt == Wrap(r.nxt + |r'.queue| - |r.queue|)
    && forall i | |r.queue| <= i < |r'.queue| :: r'.queue[i].sn == Wrap(r.nxt + i - |r.queue|)
  }

  /** Segments only move from the front of the buffer to the end of the queue. */
  ghost predicate Moved(r: Receiver, r': Receiver) {
    Advanced(r, r') && r'.queue + r'.buf == r.queue + r.buf && r'.acks == r.acks
  }

  lemma {:induction false} MoveReadyDrains(r: Receiver, rcvWnd: u32)
    requires r.nQueue == |r.queue|
    ensures Drained(MoveReady(r, rcvWnd), rcvWnd) && Moved(r, MoveReady(r, rcvWnd))
    decreases |r.buf|
  {
    if |r.buf| > 0 && r.buf[0].sn == r.nxt && r.nQueue < rcvWnd {
      var r' := r.(buf := r.buf[1..], nBuf := r.nBuf - 1, queue := r.queue + [r.buf[0]], nQueue := r.nQueue + 1,
                   nxt := Wrap(r.nxt + 1));
      MoveReadyDrains(r', rcvWnd);
      hide MoveReady;
      OneMoved(r, r', MoveReady(r', rcvWnd));
    } else {
      WrapSum(r.nxt, 0, 0);
    }
  }

  lemma OneMoved(r: Receiver, r1: Receiver, r2: Receiver)
    requires |r.buf| > 0 && r.buf[0].sn == r.nxt && Moved(r1, r2)
    requires r1.buf == r.buf[1..] && r1.queue == r.queue + [r.buf[0]] && r1.nxt == Wrap(r.nxt + 1) && r1.acks == r.acks
    ensures Moved(r, r2)
  {
    assert r1.queue + r1.buf == r.queue + r.buf;
    WrapSum(r.nxt, 1, |r2.queue| - |r1.queue|);
    WrapSum(r.nxt, 0, 0);
    hide Wrap;
    forall i | |r.queue| <= i < |r2.queue| ensures r2.queue[i].sn == Wrap(r.nxt + i - |r.queue|) {
      if i == |r.queue| {
        assert (r2.queue + r2.buf)[i] == (r1.queue + r1.buf)[i] == r.buf[0];
      } else {
        WrapSum(r.nxt, 1, i - |r1.queue|);
      }
    }
  }

  lemma WrapSum(a: u32, b: int, c: int)
    ensures Wrap(Wrap(a + b) + c) == Wrap(a + b + c) && Wrap(a) == a
  {
  }

  /** What data segment seg makes of receiver r: inside the window it is acknowledged and arranged among
      the buffered segments. Below the window it is only acknowledged, above it is dropped. */
  ghost predicate Stored(r: Receiver, rcvWnd: u32, seg: Segment, r': Receiver) {
    if Off(r.nxt, seg.sn) < rcvWnd then
      r'.acks == r.acks + [Ack(seg.sn, seg.ts)] && Drained(r', rcvWnd) && Arranged(r, seg, r')
    else r' == r.(acks := if Off(r.nxt, seg.sn) >= HALF + rcvWnd then r.acks + [Ack(seg.sn, seg.ts)] else r.acks)
  }

  ghost predicate Buffers(r: Receiver, sn: u32) { exists j :: 0 <= j < |r.buf| && r.buf[j].sn == sn }

  /** The segment is put where its number belongs, unless it is there already; then the front of the
      buffer moves on in order. */
  ghost predicate Arranged(r: Receiver, seg: Segment, r': Receiver) {
    && Advanced(r, r')
    && (if Buffers(r, seg.sn) then r'.queue + r'.buf == r.queue + r.buf else exists p :: Inserted(r, seg, r', p))
  }

  /** seg comes after the segments nearer to rcv_nxt and before those further away. */
  ghost predicate Inserted(r: Receiver, seg: Segment, r': Receiver, p: int) {
    && 0 <= p <= |r.buf|
    && r'.queue + r'.buf == r.queue + r.buf[..p] + [seg] + r.buf[p..]
    && (forall j | 0 <= j < p :: Off(r.nxt, r.buf[j].sn) < Off(r.nxt, seg.sn))
    && (forall j | p <= j < |r.buf| :: Off(r.nxt, seg.sn) < Off(r.nxt, r.buf[j].sn))
  }

  /** The two comparisons of ikcp_input, as distances. */
  lemma WindowTests(nxt: u32, rcvWnd: u32, sn: u32)
    requires rcvWnd < HALF
    ensures TimeDiff(sn, Wrap(nxt + rcvWnd)) < 0 <==> Off(nxt, sn) < rcvWnd || Off(nxt, sn) >= HALF + rcvWnd
    ensures TimeDiff(sn, nxt) >= 0 <==> Off(nxt, sn) < HALF
  {
    WrapCases(nxt + rcvWnd);
    WrapCases(sn - nxt);
    WrapCases(sn - Wrap(nxt + rcvWnd));
  }

  lemma ParseDataStores(r: Receiver, rcvWnd: u32, seg: Segment)
    requires ReceiverOk(r, rcvWnd) && rcvWnd < HALF && Off(r.nxt, seg.sn) < rcvWnd
    ensures Drained(ParseData(r, rcvWnd, seg), rcvWnd) && Arranged(r, seg, ParseData(r, rcvWnd, seg))
    ensures ParseData(r, rcvWnd, seg).acks == r.acks
  {
    WindowTests(r.nxt, rcvWnd, seg.sn);
    InsertPositionRight(r.nxt, rcvWnd, r.buf, seg.sn, |r.buf|);
    hide Off, TimeDiff, MoveReady, Wrap, Ordered, Advanced;
    var p := InsertPosition(r.buf, seg.sn, |r.buf|);
    if p < 0 {
      MoveReadyDrains(r, rcvWnd);
    } else {
      var r1 := r.(buf := r.buf[..p] + [seg] + r.buf[p..], nBuf := r.nBuf + 1);
      MoveReadyDrains(r1, rcvWnd);
      hide InsertPosition, Drained;
      InsertedAt(r, seg, r1, MoveReady(r1, rcvWnd), p);
    }
  }

  lemma InsertedAt(r: Receiver, seg: Segment, r1: Receiver, r2: Receiver, p: nat)
    requires p <= |r.buf| && r1 == r.(buf := r.buf[..p] + [seg] + r.buf[p..], nBuf := r.nBuf + 1) && Moved(r1, r2)
    requires forall j | 0 <= j < p :: Off(r.nxt, r.buf[j].sn) < Off(r.nxt, seg.sn)
    requires forall j | p <= j < |r.buf| :: Off(r.nxt, seg.sn) < Off(r.nxt, r.buf[j].sn)
    ensures Inserted(r, seg, r2, p) && Advanced(r, r2)
    ensures !Buffers(r, seg.sn)
  {
    hide Off;
    assert r1.queue + r1.buf == r.queue + r.buf[..p] + [seg] + r.buf[p..];
  }

  lemma PushDataStores(r: Receiver, rcvWnd: u32, seg: Segment)
    requires ReceiverOk(r, rcvWnd) && rcvWnd < HALF
    ensures Stored(r, rcvWnd, seg, PushData(r, rcvWnd, seg))
  {
    WindowTests(r.nxt, rcvWnd, seg.sn);
    var r1 := r.(acks := r.acks + [Ack(seg.sn, seg.ts)]);
    AcksIrrelevant(r, r1.acks, rcvWnd);
    hide TimeDiff, ParseData, ReceiverOk, Arranged, Drained, Off;
    if Off(r.nxt, seg.sn) < rcvWnd {
      ParseDataStores(r1, rcvWnd, seg);
      ArrangedAcks(r, seg, r1, ParseData(r1, rcvWnd, seg));
    }
  }

  lemma ArrangedAcks(r: Receiver, seg: Segment, r1: Receiver, r2: Receiver)
    requires r1 == r.(acks := r1.acks) && Arranged(r1, seg, r2)
    ensures Arranged(r, seg, r2)
  {
    hide Off;
    if !Buffers(r, seg.sn) {
      assert !Buffers(r1, seg.sn);
      var p :| Inserted(r1, seg, r2, p);
      assert Inserted(r, seg, r2, p);
    }
  }

  /** ikcp_input does to the receiver what a data segment calls for. */
  lemma PushStores(k: Kcb, seg: Segment)
    requires KcbOk(k) && seg.cmd == CMD_PUSH
    ensures Stored(k.rcv, k.cfg.rcvWnd, seg, InputSegment(k, seg).rcv)
  {
    hide SenderOk, DataOk, PushData, ParseUna, ShrinkBuf, ReceiverOk, Stored;
    PushDataStores(k.rcv, k.cfg.rcvWnd, seg);
  }

  /** After that, the receiver has the segment: its number is behind rcv_nxt or in the buffer. */
  lemma StoredIsHeld(r: Receiver, rcvWnd: u32, seg: Segment, r': Receiver)
    requires ReceiverOk(r, rcvWnd) && rcvWnd < HALF && Off(r.nxt, seg.sn) < rcvWnd && Stored(r, rcvWnd, seg, r')
    ensures Off(r.nxt, seg.sn) < |r'.queue| - |r.queue| || Buffers(r', seg.sn)
  {
    hide Off, Ordered;
    var all, n := r'.queue + r'.buf, |r.queue|;
    var q: nat;
    if Buffers(r, seg.sn) {
      var j :| 0 <= j < |r.buf| && r.buf[j].sn == seg.sn;
      q := j;
      assert (r.queue + r.buf)[n + j] == r.buf[j];
    } else {
      var p :| Inserted(r, seg, r', p);
      q := p;
      assert (r.queue + r.buf[..p] + [seg] + r.buf[p..])[n + p] == seg;
    }
    assert all[n + q].sn == seg.sn;
    if n + q < |r'.queue| {
      assert r'.queue[n + q].sn == Wrap(r.nxt + q);
      OffOf(r.nxt, q);
    } else {
      assert r'.buf[n + q - |r'.queue|].sn == seg.sn;
    }
  }

  lemma OffOf(nxt: u32, n: nat)
    ensures Off(nxt, Wrap(nxt + n)) <= n
  {
    assert Off(nxt, Wrap(nxt + n)) == n % U32;
  }

  // ----- every call -----

  lemma InputSegmentDrains(k: Kcb, seg: Segment)
    requires Drained(k.rcv, k.cfg.rcvWnd)
    ensures Drained(InputSegment(k, seg).rcv, k.cfg.rcvWnd)
  {
    hide ParseUna, ParseAck, UpdateAck, TimeDiff, InsertPosition, MoveReady, Drained, ShrinkBuf;
    if seg.cmd == CMD_PUSH { PushDataDrains(k.rcv, k.cfg.rcvWnd, seg); }
    hide PushData;
  }

  lemma PushDataDrains(r: Receiver, rcvWnd: u32, seg: Segment)
    requires Drained(r, rcvWnd)
    ensures Drained(PushData(r, rcvWnd, seg), rcvWnd)
  {
    hide MoveReady, TimeDiff, InsertPosition, Moved;
    var r1 := r.(acks := r.acks + [Ack(seg.sn, seg.ts)]);
    var p := InsertPosition(r1.buf, seg.sn, |r1.buf|);
    MoveReadyDrains(r1, rcvWnd);
    if p >= 0 { MoveReadyDrains(r1.(buf := r1.buf[..p] + [seg] + r1.buf[p..], nBuf := r1.nBuf + 1), rcvWnd); }
  }

  lemma {:induction false} InputLoopDrains(k: Kcb, latest: Latest, b: seq<byte>)
    requires Drained(k.rcv, k.cfg.rcvWnd)
    ensures Drained(InputLoop(k, latest, b).k.rcv, k.cfg.rcvWnd)
    decreases |b|
  {
    hide Drained, InputSegment, Newer;
    if |b| >= OVERHEAD {
      var len := DataLength(b);
      if Read32(b, 0) == k.cfg.conv && !(|b| - OVERHEAD < len || len >= 0x8000_0000) {
        var seg := ReadHeader(b, b[OVERHEAD..OVERHEAD + len]);
        if KnownCommand(seg.cmd) {
          InputSegmentDrains(k, seg);
          InputLoopDrains(InputSegment(k, seg), if seg.cmd == CMD_ACK then Newer(latest, seg.sn, seg.ts) else latest,
                          b[OVERHEAD + len..]);
        }
      }
    }
  }

  lemma InputDrains(k: Kcb, b: seq<byte>)
    requires 0 < k.cfg.mss && Drained(k.rcv, k.cfg.rcvWnd)
    ensures Drained(Input(k, b).0.rcv, k.cfg.rcvWnd)
  {
    hide InputLoop, ParseFastAck, Grow, TimeDiff, Drained;
    if |b| >= OVERHEAD { InputLoopDrains(k, NoAck, b); }
  }

  lemma RecvDrains(k: Kcb, len: int)
    requires Drained(k.rcv, k.cfg.rcvWnd)
    ensures Drained(Recv(k, len).0.rcv, k.cfg.rcvWnd) && Recv(k, len).0.cfg == k.cfg
  {
    hide MoveReady, PeekSize, Concat, Moved;
    var n := MessageLength(k.rcv.queue);
    MoveReadyDrains(k.rcv, k.cfg.rcvWnd);
    MoveReadyDrains(k.rcv.(queue := k.rcv.queue[n..], nQueue := k.rcv.nQueue - n), k.cfg.rcvWnd);
  }

  lemma FlushReceiver(k: Kcb)
    ensures Flush(k).0.rcv == if k.clock.updated then k.rcv.(acks := []) else k.rcv
  {
    hide FillWindow, FlushData, FlushAcks, FlushProbes, Probe, SendWindow, Adjust;
    if k.clock.updated { FillWindowReceiver(AfterProbes(k), SendWindow(AfterProbes(k))); }
  }

  lemma {:induction false} FillWindowReceiver(k: Kcb, cwnd: u32)
    ensures FillWindow(k, cwnd).rcv == k.rcv
    decreases |k.snd.queue|
  {
    hide TimeDiff, Stamp;
    if TimeDiff(k.snd.nxt, Wrap(k.snd.una + cwnd)) < 0 && |k.snd.queue| > 0 {
      FillWindowReceiver(k.(snd := k.snd.(queue := k.snd.queue[1..], nQueue := k.snd.nQueue - 1,
                                          buf := k.snd.buf + [Stamp(k, k.snd.queue[0])], nBuf := k.snd.nBuf + 1,
                                          nxt := Wrap(k.snd.nxt + 1))), cwnd);
    }
  }

  lemma ApplyDrains(k: Kcb, op: Op)
    requires 0 < k.cfg.mss && Drained(k.rcv, k.cfg.rcvWnd)
    ensures Drained(Apply(k, op).rcv, k.cfg.rcvWnd)
  {
    hide Send, Recv, Input, Flush;
    match op
    case DoSend(data) =>
    case DoRecv(len) => RecvDrains(k, len);
    case DoInput(bytes) => InputDrains(k, bytes);
    case DoFlush => FlushReceiver(k);
    case DoUpdate(now) =>
      UpdateIs(k, now);
      var c: Clock :| Update(k, now) == Flush(k.(clock := c)) || Update(k, now) == (k.(clock := c), []);
      FlushReceiver(k.(clock := c));
  }

  lemma {:induction false} RunDrains(k: Kcb, ops: seq<Op>)
    requires 0 < k.cfg.mss && Drained(k.rcv, k.cfg.rcvWnd)
    ensures Drained(Run(k, ops).rcv, k.cfg.rcvWnd)
    decreases |ops|
  {
    hide Drained, Apply;
    if |ops| > 0 {
      ApplyDrains(k, ops[0]);
      RunDrains(Apply(k, ops[0]), ops[1..]);
    }
  }

  /** In every run, whatever arrives: no segment in rcv_buf is the next in order, unless rcv_queue is full. */
  lemma EveryRunDrained(cfg: Config, ops: seq<Op>)
    requires ConfigOk(cfg)
    ensures var r := Run(Create(cfg), ops).rcv;
            forall j | 0 <= j < |r.buf| && r.buf[j].sn == r.nxt :: |r.queue| >= cfg.rcvWnd
  {
    EveryRunOk(cfg, ops);
    RunDrains(Create(cfg), ops);
    hide Run;
    NextIsFirst(Run(Create(cfg), ops).rcv, cfg.rcvWnd);
  }

  lemma NextIsFirst(r: Receiver, rcvWnd: u32)
    requires ReceiverOk(r, rcvWnd) && Drained(r, rcvWnd)
    ensures forall j | 0 <= j < |r.buf| && r.buf[j].sn == r.nxt :: |r.queue| >= rcvWnd
  {
    forall j | 0 <= j < |r.buf| && r.buf[j].sn == r.nxt ensures j == 0 {
      OffZero(r.nxt, r.nxt);
      assert Off(r.nxt, r.buf[j].sn) == 0;
    }
  }
}

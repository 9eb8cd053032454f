/** The KCP control block as the object ikcp.c updates in place. Every method is proved equal to
    the function of KcpSpec that the theorems about runs and connections are stated with. */
module KcpBlock {
  import opened Common
  import opened KcpTypes
  import opened KcpWire
  import opened KcpSpec
  import opened KcpOutput
  import opened KcpInvariant

  /** The bytes of a flush's datagrams. */
  function Datagrams(groups: seq<seq<Segment>>): (r: seq<seq<byte>>)
    ensures |r| == |groups|
  {
    seq(|groups|, i requires 0 <= i < |groups| => EncodeAll(groups[i]))
  }

  lemma ConcatPush(q: seq<Segment>, n: nat)
    requires n < |q|
    ensures Concat(q[..n + 1]) == Concat(q[..n]) + q[n].data
    decreases |q|
  {
    if n > 0 {
      ConcatPush(q[1..], n - 1);
      assert q[..n + 1][1..] == q[1..][..n] && q[..n][1..] == q[1..][..n - 1];
    } else {
      assert q[..1][1..] == [];
    }
  }

  lemma EmitDatagrams(p: Packer)
    ensures Datagrams(Emit(p)) == Datagrams(p.out) + if EncodeAll(p.cur) == [] then [] else [EncodeAll(p.cur)]
  {
    if |p.cur| > 0 { assert |EncodeAll(p.cur)| > 0; }
  }

  /** What becomes of a segment depends on little of the block. */
  lemma PassedAlike(k: Kcb, k': Kcb, seg: Segment)
    requires k'.cfg == k.cfg && k'.rcv == k.rcv && k'.clock == k.clock.(xmit := k'.clock.xmit, dead := k'.clock.dead)
    ensures NeedSend(k, seg) == NeedSend(k', seg) && Passed(k, seg) == Passed(k', seg)
  {
  }

  lemma BufferedFits(k: Kcb)
    requires KcbOk(k)
    ensures forall j | 0 <= j < |k.snd.buf| :: OVERHEAD + |k.snd.buf[j].data| <= k.cfg.mtu
    ensures 0 <= k.rcv.nQueue && OVERHEAD <= k.cfg.mtu
  {
    forall j | 0 <= j < |k.snd.buf| ensures |k.snd.buf[j].data| <= k.cfg.mss { assert Buffered(k.cfg, k.snd.buf[j]); }
  }

  lemma DatagramsFit(k: Kcb)
    requires KcbOk(k)
    ensures forall i | 0 <= i < |Flush(k).1| :: 0 < |Datagrams(Flush(k).1)[i]| <= k.cfg.mtu
  {
    if k.clock.updated {
      FlushSends(k);
      hide Flush, KcbOk;
      forall i | 0 <= i < |Flush(k).1|
        ensures 0 < |Datagrams(Flush(k).1)[i]| <= k.cfg.mtu
      {
        var g := Flush(k).1[i];
        assert g in Flush(k).1;
        assert EncodeAll(g) == Encode(g[0]) + EncodeAll(g[1..]);
      }
    }
  }

  /** A flush, in terms of the block it walks. */
  lemma FlushIs(k: Kcb, cwnd: u32)
    requires k.clock.updated && cwnd == SendWindow(AfterProbes(k))
    ensures var k2 := Filled(k);
            var d := FlushData(k2, DataStart(k2, Control(k)), 0);
            Flush(k) == (k2.(snd := k2.snd.(buf := d.buf), clock := k2.clock.(xmit := d.xmit, dead := d.dead),
                             cc := Adjust(k2.cfg, k2.cc, Wrap(k2.snd.nxt - k2.snd.una), cwnd, d.change > 0, d.lost)),
                         Emit(d.p))
  {
    hide FillWindow, FlushData, FlushAcks, FlushProbes, Probe, SendWindow, Adjust, Wrap;
  }

  lemma EncodeIsHeader(seg: Segment)
    ensures Encode(seg) == Header(seg) + seg.data
  {
  }

  /** The size ikcp_peeksize gives is that of the fragments of the first message. */
  lemma PeekIsMessage(r: Receiver)
    ensures PeekSize(r) >= 0 ==> PeekSize(r) == |Concat(r.queue[..MessageLength(r.queue)])|
  {
    if |r.queue| > 0 && r.queue[0].frg == 0 {
      assert r.queue[..1] == [r.queue[0]];
      assert Concat([r.queue[0]]) == r.queue[0].data + Concat([]);
    }
  }

  function WithoutMessage(r: Receiver): Receiver {
    r.(queue := r.queue[MessageLength(r.queue)..], nQueue := r.nQueue - MessageLength(r.queue))
  }

  /** What count segments of at most mss bytes can hold. */
  function Capacity(count: int, mss: int): int { count * mss }

  lemma CapacityStep(count: int, mss: int)
    ensures Capacity(count - 1, mss) == Capacity(count, mss) - mss && Capacity(0, mss) == 0
    ensures 0 < count && 0 <= mss ==> 0 <= Capacity(count - 1, mss)
  {
  }

  lemma Enough(len: nat, mss: nat)
    requires 0 < mss
    ensures len <= Capacity(FragmentCount(len, mss), mss)
  {
    if len > mss {
      var q := (len + mss - 1) / mss;
      assert len + mss - 1 == q * mss + (len + mss - 1) % mss;
    }
  }

  lemma SenderReplaced(k: Kcb, s: Sender)
    requires KcbOk(k) && SenderOk(s) && DataOk(k.cfg, s)
    ensures KcbOk(k.(snd := s))
  {
  }

  class Kcp {
    const cfg: Config
    const buffer: array<byte>

    var snd: Sender
    var rcv: Receiver
    var flow: Flow
    var cc: Congestion
    var clock: Clock
    /** What the output callback has been given so far. */
    var out: seq<seq<byte>>

    /** The value of the block. */
    ghost function Value(): Kcb
      reads this
    {
      Kcb(cfg, snd, rcv, flow, cc, clock)
    }

    ghost predicate Valid()
      reads this
    {
      buffer.Length == (cfg.mtu + OVERHEAD) * 3 && KcbOk(Value())
    }

    /** ikcp_create, with the settings it installs. */
    constructor (conv: u32)
      ensures Valid() && Value() == Create(DefaultConfig(conv)) && out == [] && fresh(buffer)
    {
      cfg := Config(conv, MTU_DEF, MTU_DEF - OVERHEAD, WND_SND, WND_RCV, INTERVAL, RTO_MIN, 0, 0, FASTACK_LIMIT, false,
        false, DEADLINK);
      buffer := new byte[(MTU_DEF + OVERHEAD) * 3];
      snd := Sender(0, 0, [], [], 0, 0);
      rcv := Receiver(0, [], [], 0, 0, []);
      flow := Flow(WND_RCV, false, false, 0, 0);
      cc := Congestion(0, 0, THRESH_MIN);
      clock := Clock(0, INTERVAL, false, 0, 0, RTO_DEF, 0, false);
      out := [];
    }

    /** A new block with other settings. */
    constructor Configured(cfg: Config)
      requires ConfigOk(cfg)
      ensures Valid() && Value() == Create(cfg) && out == [] && fresh(buffer)
    {
      this.cfg := cfg;
      buffer := new byte[(cfg.mtu + OVERHEAD) * 3];
      snd := Sender(0, 0, [], [], 0, 0);
      rcv := Receiver(0, [], [], 0, 0, []);
      flow := Flow(WND_RCV, false, false, 0, 0);
      cc := Congestion(0, 0, THRESH_MIN);
      clock := Clock(0, INTERVAL, false, 0, 0, RTO_DEF, 0, false);
      out := [];
    }

    // ----- receiving -----

    method PeekSize() returns (length: int)
      ensures length == KcpSpec.PeekSize(rcv)
    {
      var queue := rcv.queue;
      if |queue| == 0 { return -1; }
      if queue[0].frg == 0 { return |queue[0].data|; }
      if rcv.nQueue < queue[0].frg + 1 { return -1; }
      length := 0;
      var p := 0;
      while p < |queue|
        invariant p <= |queue| && length == |Concat(queue[..p])|
        invariant MessageLength(queue) == p + MessageLength(queue[p..])
      {
        length := length + |queue[p].data|;
        ConcatPush(queue, p);
        assert queue[p..][1..] == queue[p + 1..];
        p := p + 1;
        if queue[p - 1].frg == 0 { break; }
      }
    }

    /** Moves what is next in order from the buffer to the queue. */
    method MoveReady()
      modifies this`rcv
      ensures rcv == KcpSpec.MoveReady(old(rcv), cfg.rcvWnd)
    {
      while |rcv.buf| > 0
        invariant KcpSpec.MoveReady(rcv, cfg.rcvWnd) == KcpSpec.MoveReady(old(rcv), cfg.rcvWnd)
        decreases |rcv.buf|
      {
        var seg := rcv.buf[0];
        if seg.sn == rcv.nxt && rcv.nQueue < cfg.rcvWnd {
          rcv := rcv.(buf := rcv.buf[1..], nBuf := rcv.nBuf - 1);
          rcv := rcv.(queue := rcv.queue + [seg], nQueue := rcv.nQueue + 1);
          rcv := rcv.(nxt := Wrap(rcv.nxt + 1));
        } else {
          break;
        }
      }
    }

    /** ikcp_recv: the next whole message; a negative len only looks at it. */
    method Recv(len: int) returns (code: int, data: seq<byte>)
      requires Valid()
      modifies this`rcv, this`flow
      ensures (Value(), Received(code, data)) == KcpSpec.Recv(old(Value()), len)
      ensures Valid()
    {
      hide KcbOk, KcpSpec.MoveReady, KcpSpec.PeekSize, Concat, MessageLength;
      RecvKeeps(Value(), len);
      PeekIsMessage(rcv);
      if |rcv.queue| == 0 { return -1, []; }
      var size := PeekSize();
      if size < 0 { return -2, []; }
      if size > (if len < 0 then -len else len) { return -3, []; }
      var recover := rcv.nQueue >= cfg.rcvWnd;
      data := MergeFragments(len < 0);
      assert |data| == size;
      code := |data|;
      MoveReady();
      if rcv.nQueue < cfg.rcvWnd && recover { flow := flow.(askTell := true); }
    }

    /** Joins the fragments of the first message, removing them unless peeking. */
    method MergeFragments(ispeek: bool) returns (data: seq<byte>)
      modifies this`rcv
      ensures data == Concat(old(rcv.queue)[..MessageLength(old(rcv.queue))])
      ensures rcv == if ispeek then old(rcv) else WithoutMessage(old(rcv))
    {
      data := [];
      var p := 0;
      ghost var q := rcv.queue;
      ghost var t := 0;
      while p < |rcv.queue|
        invariant t <= |q| && data == Concat(q[..t])
        invariant MessageLength(q) == t + MessageLength(q[t..])
        invariant if ispeek then rcv == old(rcv) && p == t
                  else rcv == old(rcv).(queue := q[t..], nQueue := old(rcv.nQueue) - t) && p == 0
        decreases |q| - t
      {
        var seg := rcv.queue[p];
        data := data + seg.data;
        ConcatPush(q, t);
        assert q[t..][1..] == q[t + 1..];
        t := t + 1;
        if ispeek {
          p := p + 1;
        } else {
          rcv := rcv.(queue := rcv.queue[1..], nQueue := rcv.nQueue - 1);
        }
        if seg.frg == 0 { break; }
      }
    }

    /** ikcp_parse_data: inserts a new segment in order, from the back, and moves on what it completes. */
    method ParseData(seg: Segment)
      modifies this`rcv
      ensures rcv == KcpSpec.ParseData(old(rcv), cfg.rcvWnd, seg)
    {
      hide TimeDiff, KcpSpec.MoveReady;
      if TimeDiff(seg.sn, Wrap(rcv.nxt + cfg.rcvWnd)) >= 0 || TimeDiff(seg.sn, rcv.nxt) < 0 { return; }
      var buf := rcv.buf;
      var p: nat := |buf|;
      var repeat := false;
      while p > 0
        invariant p <= |buf| && !repeat
        invariant InsertPosition(buf, seg.sn, p) == InsertPosition(buf, seg.sn, |buf|)
      {
        if buf[p - 1].sn == seg.sn { repeat := true; break; }
        if TimeDiff(seg.sn, buf[p - 1].sn) > 0 { break; }
        p := p - 1;
      }
      if !repeat { rcv := rcv.(buf := buf[..p] + [seg] + buf[p..], nBuf := rcv.nBuf + 1); }
      MoveReady();
    }

    // ----- sending -----

    /** ikcp_send: splits data into fragments at the end of the send queue. */
    method Send(data: seq<byte>) returns (sent: int)
      requires Valid()
      modifies this`snd
      ensures (snd, sent) == KcpSpec.Send(cfg, old(snd), data)
      ensures Valid()
    {
      hide KcbOk, SenderOk, DataOk, Fragments;
      ValidSender();
      SendKeeps(cfg, snd, data);
      SenderReplaced(Value(), KcpSpec.Send(cfg, snd, data).0);
      var rest;
      rest, sent := ExtendLast(data);
      if cfg.stream && |rest| <= 0 { return; }
      var count := if |rest| <= cfg.mss then 1 else (|rest| + cfg.mss - 1) / cfg.mss;
      if count >= WND_RCV {
        if cfg.stream && sent > 0 { return; }
        return -2;
      }
      AppendFragments(rest, count);
      sent := sent + |rest|;
    }

    lemma ValidSender()
      requires Valid()
      ensures ConfigOk(cfg) && SenderOk(snd) && DataOk(cfg, snd)
    {
    }

    /** In stream mode, data first fills up the last queued segment. */
    method ExtendLast(data: seq<byte>) returns (rest: seq<byte>, sent: nat)
      modifies this`snd
      ensures sent == Extension(cfg, old(snd), data) && rest == data[sent..] && snd == Extend(cfg, old(snd), data)
    {
      rest, sent := data, 0;
      if cfg.stream && |snd.queue| > 0 {
        var last := snd.queue[|snd.queue| - 1];
        if |last.data| < cfg.mss {
          var capacity := cfg.mss - |last.data|;
          var extend := if |data| < capacity then |data| else capacity;
          var seg := Fresh(0, last.data + data[..extend]);
          snd := snd.(queue := snd.queue[..|snd.queue| - 1] + [seg]);
          rest := data[extend..];
          sent := extend;
        }
      }
    }

    /** The fragment loop of ikcp_send; it uses up all of data. */
    method AppendFragments(data: seq<byte>, count: nat)
      requires 0 < cfg.mss && count == FragmentCount(|data|, cfg.mss) < WND_RCV
      modifies this`snd
      ensures snd == old(snd).(queue := old(snd.queue) + Fragments(data, cfg.mss, cfg.stream, 0, count),
                               nQueue := old(snd.nQueue) + count)
    {
      Enough(|data|, cfg.mss);
      hide FragmentCount, Capacity;
      var rest := data;
      var i: nat := 0;
      while i < count
        invariant i <= count && |rest| <= Capacity(count - i, cfg.mss)
        invariant snd.queue + Fragments(rest, cfg.mss, cfg.stream, i, count)
               == old(snd.queue) + Fragments(data, cfg.mss, cfg.stream, 0, count)
        invariant snd == old(snd).(queue := snd.queue, nQueue := old(snd.nQueue) + i)
      {
        var size := if |rest| > cfg.mss then cfg.mss else |rest|;
        var seg := Fresh(if cfg.stream then 0 else count - i - 1, rest[..size]);
        ghost var more := Fragments(rest[size..], cfg.mss, cfg.stream, i + 1, count);
        assert Fragments(rest, cfg.mss, cfg.stream, i, count) == [seg] + more;
        assert snd.queue + ([seg] + more) == (snd.queue + [seg]) + more;
        CapacityStep(count - i, cfg.mss);
        snd := snd.(queue := snd.queue + [seg], nQueue := snd.nQueue + 1);
        rest := rest[size..];
        i := i + 1;
      }
      CapacityStep(0, cfg.mss);
      assert rest == [];
    }

    /** ikcp_parse_una: every buffered segment before una has arrived. */
    method ParseUna(una: u32)
      modifies this`snd
      ensures snd == KcpSpec.ParseUna(old(snd), una)
    {
      hide TimeDiff;
      while |snd.buf| > 0
        invariant KcpSpec.ParseUna(snd, una) == KcpSpec.ParseUna(old(snd), una)
        decreases |snd.buf|
      {
        if TimeDiff(una, snd.buf[0].sn) > 0 {
          snd := snd.(buf := snd.buf[1..], nBuf := snd.nBuf - 1);
        } else {
          break;
        }
      }
    }

    method ShrinkBuf()
      modifies this`snd
      ensures snd == KcpSpec.ShrinkBuf(old(snd))
    {
      if |snd.buf| > 0 { snd := snd.(una := snd.buf[0].sn); } else { snd := snd.(una := snd.nxt); }
    }

    /** ikcp_parse_ack: removes the acknowledged segment. */
    method ParseAck(sn: u32)
      modifies this`snd
      ensures snd == KcpSpec.ParseAck(old(snd), sn)
    {
      hide TimeDiff;
      if TimeDiff(sn, snd.una) < 0 || TimeDiff(sn, snd.nxt) >= 0 { return; }
      var buf := snd.buf;
      var p := 0;
      while p < |buf|
        invariant p <= |buf| && snd == old(snd)
        invariant FindSn(buf, sn, p) == FindSn(buf, sn, 0)
      {
        if sn == buf[p].sn {
          snd := snd.(buf := buf[..p] + buf[p + 1..], nBuf := snd.nBuf - 1);
          return;
        }
        if TimeDiff(sn, buf[p].sn) < 0 { break; }
        p := p + 1;
      }
    }

    /** ikcp_parse_fastack: counts the acknowledgement against every earlier segment. */
    method ParseFastAck(sn: u32, ts: u32)
      modifies this`snd
      ensures snd == KcpSpec.ParseFastAck(old(snd), sn, ts)
    {
      hide TimeDiff;
      if TimeDiff(sn, snd.una) < 0 || TimeDiff(sn, snd.nxt) >= 0 { return; }
      var p := 0;
      while p < |snd.buf|
        invariant p <= |snd.buf| && snd == old(snd).(buf := snd.buf)
        invariant MarkFast(snd.buf, sn, ts, p) == MarkFast(old(snd.buf), sn, ts, 0)
      {
        var seg := snd.buf[p];
        assert snd.buf[p := seg] == snd.buf;
        if TimeDiff(sn, seg.sn) < 0 {
          break;
        } else if sn != seg.sn {
          if TimeDiff(ts, seg.ts) >= 0 { snd := snd.(buf := snd.buf[p := seg.(fastack := Wrap(seg.fastack + 1))]); }
        }
        p := p + 1;
      }
    }

    // ----- input -----

    method UpdateAck(rtt: nat)
      modifies this`clock
      ensures clock == KcpSpec.UpdateAck(cfg, old(clock), rtt)
    {
      if clock.srtt == 0 {
        clock := clock.(srtt := rtt, rttval := rtt / 2);
      } else {
        var delta := rtt - clock.srtt;
        if delta < 0 { delta := -delta; }
        clock := clock.(rttval := (3 * clock.rttval + delta) / 4);
        clock := clock.(srtt := (7 * clock.srtt + rtt) / 8);
        if clock.srtt < 1 { clock := clock.(srtt := 1); }
      }
      var rto := clock.srtt + Max(cfg.interval, 4 * clock.rttval);
      clock := clock.(rto := Wrap(Min(Max(cfg.minRto, rto), RTO_MAX)));
    }

    /** One segment of an input. */
    method InputSegment(seg: Segment)
      modifies this`snd, this`rcv, this`flow, this`clock
      ensures Value() == KcpSpec.InputSegment(old(Value()), seg)
    {
      hide TimeDiff, KcpSpec.ParseUna, KcpSpec.ShrinkBuf, KcpSpec.ParseAck, KcpSpec.ParseData, KcpSpec.UpdateAck;
      flow := flow.(rmtWnd := seg.wnd);
      ParseUna(seg.una);
      ShrinkBuf();
      if seg.cmd == CMD_ACK {
        if TimeDiff(clock.current, seg.ts) >= 0 { UpdateAck(TimeDiff(clock.current, seg.ts)); }
        ParseAck(seg.sn);
        ShrinkBuf();
      } else if seg.cmd == CMD_PUSH {
        if TimeDiff(seg.sn, Wrap(rcv.nxt + cfg.rcvWnd)) < 0 {
          rcv := rcv.(acks := rcv.acks + [Ack(seg.sn, seg.ts)]);
          if TimeDiff(seg.sn, rcv.nxt) >= 0 { ParseData(seg); }
        }
      } else if seg.cmd == CMD_WASK {
        flow := flow.(askTell := true);
      }
    }

    /** The congestion window after new data has been acknowledged. */
    method GrowWindow()
      requires 0 < cfg.mss
      modifies this`cc
      ensures cc == Grow(cfg, old(cc), flow.rmtWnd)
    {
      hide Div, Wrap;
      if cc.cwnd < flow.rmtWnd {
        var mss: int := cfg.mss;
        if cc.cwnd < cc.ssthresh {
          cc := cc.(cwnd := Wrap(cc.cwnd + 1), incr := Wrap(cc.incr + mss));
        } else {
          if cc.incr < mss { cc := cc.(incr := mss); }
          cc := cc.(incr := Wrap(cc.incr + Div(Wrap(mss * mss), cc.incr) + mss / 16));
          if Wrap((cc.cwnd + 1) * mss) <= cc.incr { cc := cc.(cwnd := Div(Wrap(cc.incr + mss - 1), mss)); }
        }
        if cc.cwnd > flow.rmtWnd { cc := cc.(cwnd := flow.rmtWnd, incr := Wrap(flow.rmtWnd * mss)); }
      }
    }

    /** ikcp_input: every segment of a datagram, whatever bytes it holds. */
    method Input(bytes: seq<byte>) returns (code: int)
      requires Valid()
      modifies this`snd, this`rcv, this`flow, this`cc, this`clock
      ensures (Value(), code) == KcpSpec.Input(old(Value()), bytes)
      ensures Valid()
    {
      hide KcbOk, Grow, KcpSpec.ParseFastAck, KcpSpec.InputLoop, TimeDiff;
      OkConfig(Value());
      InputKeeps(Value(), bytes);
      var prevUna := snd.una;
      if |bytes| < OVERHEAD { return -1; }
      var latest;
      code, latest := InputLoop(bytes);
      if code != 0 { return; }
      if latest != NoAck { ParseFastAck(latest.sn, latest.ts); }
      if TimeDiff(snd.una, prevUna) > 0 { GrowWindow(); }
    }

    /** The segment loop of ikcp_input. */
    method InputLoop(bytes: seq<byte>) returns (code: int, latest: Latest)
      modifies this`snd, this`rcv, this`flow, this`clock
      ensures Parsed(Value(), latest, code) == KcpSpec.InputLoop(old(Value()), NoAck, bytes)
    {
      hide KcpSpec.InputSegment, ReadHeader, Newer, Read32, DataLength;
      var rest := bytes;
      latest := NoAck;
      while |rest| >= OVERHEAD
        invariant KcpSpec.InputLoop(Value(), latest, rest) == KcpSpec.InputLoop(old(Value()), NoAck, bytes)
        decreases |rest|
      {
        var len := DataLength(rest);
        if Read32(rest, 0) != cfg.conv { return -1, latest; }
        if |rest| - OVERHEAD < len || len >= 0x8000_0000 { return -2, latest; }
        var seg := ReadHeader(rest, rest[OVERHEAD..OVERHEAD + len]);
        if !KnownCommand(seg.cmd) { return -3, latest; }
        InputSegment(seg);
        if seg.cmd == CMD_ACK { latest := Newer(latest, seg.sn, seg.ts); }
        rest := rest[OVERHEAD + len..];
      }
      code := 0;
    }

    // ----- flush -----

    /** The output buffer holds the datagram being filled, and the finished ones are out. */
    ghost predicate Filling(ptr: nat, p: Packer, before: seq<seq<byte>>)
      reads this`out, buffer
    {
      && buffer.Length == (cfg.mtu + OVERHEAD) * 3 && ptr <= cfg.mtu
      && buffer[..ptr] == EncodeAll(p.cur)
      && out == before + Datagrams(p.out)
    }

    lemma FillingStarts()
      requires buffer.Length == (cfg.mtu + OVERHEAD) * 3
      ensures Filling(0, Packer([], []), out)
    {
    }

    lemma FillingEnds(ptr: nat, p: Packer, before: seq<seq<byte>>)
      requires Filling(ptr, p, before)
      ensures ptr <= buffer.Length
      ensures before + Datagrams(Emit(p)) == if ptr == 0 then out else out + [buffer[..ptr]]
    {
      EmitDatagrams(p);
    }

    method Encode8(ptr: nat, v: u32) returns (next: nat)
      requires ptr < buffer.Length
      modifies buffer
      ensures next == ptr + 1 && buffer[..next] == old(buffer[..ptr]) + [v % 256]
    {
      buffer[ptr] := v % 256;
      next := ptr + 1;
    }

    method Encode16(ptr: nat, v: u32) returns (next: nat)
      requires ptr + 2 <= buffer.Length
      modifies buffer
      ensures next == ptr + 2 && buffer[..next] == old(buffer[..ptr]) + Le16(v)
    {
      buffer[ptr], buffer[ptr + 1] := v % 256, v / 256 % 256;
      next := ptr + 2;
    }

    method Encode32(ptr: nat, v: u32) returns (next: nat)
      requires ptr + 4 <= buffer.Length
      modifies buffer
      ensures next == ptr + 4 && buffer[..next] == old(buffer[..ptr]) + Le32(v)
    {
      buffer[ptr], buffer[ptr + 1] := v % 256, v / 256 % 256;
      buffer[ptr + 2], buffer[ptr + 3] := v / 65536 % 256, v / 16777216 % 256;
      next := ptr + 4;
    }

    /** ikcp_encode_seg: the header of a segment. */
    method EncodeSeg(ptr: nat, seg: Segment) returns (next: nat)
      requires ptr + OVERHEAD <= buffer.Length && |seg.data| < U32
      modifies buffer
      ensures next == ptr + OVERHEAD && buffer[..next] == old(buffer[..ptr]) + Header(seg)
    {
      hide Le16, Le32;
      next := Encode32(ptr, seg.conv);
      next := Encode8(next, seg.cmd);
      next := Encode8(next, seg.frg);
      next := Encode16(next, seg.wnd);
      next := Encode32(next, seg.ts);
      next := Encode32(next, seg.sn);
      next := Encode32(next, seg.una);
      next := Encode32(next, |seg.data|);
    }

    /** Copies data to the buffer. */
    method CopyData(ptr: nat, data: seq<byte>) returns (next: nat)
      requires ptr + |data| <= buffer.Length
      modifies buffer
      ensures next == ptr + |data| && buffer[..next] == old(buffer[..ptr]) + data
    {
      var i: nat := 0;
      while i < |data|
        invariant i <= |data| && buffer[..ptr + i] == old(buffer[..ptr]) + data[..i]
      {
        buffer[ptr + i] := data[i];
        i := i + 1;
      }
      next := ptr + |data|;
    }

    /** ikcp_output: hands the buffer to the output callback, unless it is empty. */
    method Output(size: nat)
      requires size <= buffer.Length
      modifies this`out
      ensures out == if size == 0 then old(out) else old(out) + [buffer[..size]]
    {
      if size > 0 { out := out + [buffer[..size]]; }
    }

    /** Appends a segment to the datagram, sending the datagram first when the segment does not fit. */
    method PutSegment(ptr: nat, seg: Segment, ghost p: Packer, ghost before: seq<seq<byte>>) returns (next: nat)
      requires Filling(ptr, p, before) && OVERHEAD + |seg.data| <= cfg.mtu
      modifies this`out, buffer
      ensures Filling(next, Put(p, seg, cfg.mtu), before)
    {
      hide Encode, Header;
      EncodeAllPush(p.cur, seg);
      EncodeAllPush([], seg);
      EmitDatagrams(p);
      next := ptr;
      if ptr + OVERHEAD + |seg.data| > cfg.mtu {
        Output(ptr);
        next := 0;
      }
      EncodeIsHeader(seg);
      ghost var full := buffer[..next];
      assert [] + [seg] == [seg];
      assert full + Encode(seg) == EncodeAll(Put(p, seg, cfg.mtu).cur);
      next := EncodeSeg(next, seg);
      next := CopyData(next, seg.data);
      assert buffer[..next] == full + Encode(seg);
    }

    /** The acknowledgement loop of ikcp_flush. */
    method FlushAcks(seg0: Segment, ghost before: seq<seq<byte>>) returns (ptr: nat, seg: Segment, ghost p: Packer)
      requires Filling(0, Packer([], []), before) && seg0.data == [] && OVERHEAD <= cfg.mtu
      modifies this`out, buffer
      ensures Filling(ptr, p, before) && seg.data == []
      ensures AckFlush(p, seg) == KcpSpec.FlushAcks(Packer([], []), seg0, rcv.acks, cfg.mtu)
    {
      hide Filling, Put;
      var acks := rcv.acks;
      ptr, seg, p := 0, seg0, Packer([], []);
      var i: nat := 0;
      while i < |acks|
        invariant i <= |acks| && Filling(ptr, p, before) && seg.data == []
        invariant KcpSpec.FlushAcks(p, seg, acks[i..], cfg.mtu)
               == KcpSpec.FlushAcks(Packer([], []), seg0, acks, cfg.mtu)
      {
        seg := seg.(sn := acks[i].sn, ts := acks[i].ts);
        assert acks[i..][1..] == acks[i + 1..];
        ptr := PutSegment(ptr, seg, p, before);
        p := Put(p, seg, cfg.mtu);
        i := i + 1;
      }
    }

    /** Window probing while the remote window is zero. */
    method Probe()
      modifies this`flow
      ensures flow == KcpSpec.Probe(old(flow), clock.current)
    {
      hide TimeDiff;
      if flow.rmtWnd == 0 {
        if flow.probeWait == 0 {
          flow := flow.(probeWait := PROBE_INIT, tsProbe := Wrap(clock.current + PROBE_INIT));
        } else if TimeDiff(clock.current, flow.tsProbe) >= 0 {
          if flow.probeWait < PROBE_INIT { flow := flow.(probeWait := PROBE_INIT); }
          flow := flow.(probeWait := Wrap(flow.probeWait + flow.probeWait / 2));
          if flow.probeWait > PROBE_LIMIT { flow := flow.(probeWait := PROBE_LIMIT); }
          flow := flow.(tsProbe := Wrap(clock.current + flow.probeWait), askSend := true);
        }
      } else {
        flow := flow.(tsProbe := 0, probeWait := 0);
      }
    }

    method FlushProbes(ptr: nat, seg: Segment, ghost p: Packer, ghost before: seq<seq<byte>>)
      returns (next: nat)
      requires Filling(ptr, p, before) && seg.data == [] && OVERHEAD <= cfg.mtu
      modifies this`out, buffer
      ensures Filling(next, KcpSpec.FlushProbes(p, seg, flow, cfg.mtu), before)
    {
      hide Filling, Put;
      next := ptr;
      ghost var p' := p;
      if flow.askSend {
        next := PutSegment(next, seg.(cmd := CMD_WASK), p', before);
        p' := Put(p', seg.(cmd := CMD_WASK), cfg.mtu);
      }
      if flow.askTell { next := PutSegment(next, seg.(cmd := CMD_WINS), p', before); }
    }

    /** Moves queued segments into the send buffer while the window allows. */
    method FillWindow(cwnd: u32, wnd: u32)
      requires wnd == UnusedWindow(Value())
      modifies this`snd
      ensures Value() == KcpSpec.FillWindow(old(Value()), cwnd)
    {
      hide TimeDiff;
      while TimeDiff(snd.nxt, Wrap(snd.una + cwnd)) < 0
        invariant KcpSpec.FillWindow(Value(), cwnd) == KcpSpec.FillWindow(old(Value()), cwnd)
        decreases |snd.queue|
      {
        if |snd.queue| == 0 { break; }
        var seg := snd.queue[0];
        seg := seg.(conv := cfg.conv, cmd := CMD_PUSH, wnd := wnd, ts := clock.current, sn := snd.nxt,
                    una := rcv.nxt, resendts := clock.current, rto := clock.rto, fastack := 0, xmit := 0);
        snd := snd.(queue := snd.queue[1..], nQueue := snd.nQueue - 1, buf := snd.buf + [seg], nBuf := snd.nBuf + 1,
                    nxt := Wrap(snd.nxt + 1));
      }
    }

    /** Decides whether a buffered segment is sent now, and what becomes of it. */
    method Retransmit(seg0: Segment, wnd: u32, resent: u32, rtomin: u32) returns (seg: Segment, need: Need)
      requires wnd == UnusedWindow(Value()) && resent == Resent(cfg)
      requires rtomin == if cfg.nodelay == 0 then clock.rto / 8 else 0
      ensures need == NeedSend(Value(), seg0) && seg == Passed(Value(), seg0)
    {
      hide TimeDiff, Wrap, UnusedWindow;
      var now := clock.current;
      seg, need := seg0, Keep;
      if seg.xmit == 0 {
        need := First;
        seg := seg.(xmit := Wrap(seg.xmit + 1), rto := clock.rto);
        seg := seg.(resendts := Wrap(now + seg.rto + rtomin));
      } else if TimeDiff(now, seg.resendts) >= 0 {
        need := Timeout;
        seg := seg.(xmit := Wrap(seg.xmit + 1));
        if cfg.nodelay == 0 {
          seg := seg.(rto := Wrap(seg.rto + Max(seg.rto, clock.rto)));
        } else {
          var step := Signed(if cfg.nodelay < 2 then seg.rto else clock.rto);
          seg := seg.(rto := Wrap(seg.rto + Half(step)));
        }
        seg := seg.(resendts := Wrap(now + seg.rto));
      } else if seg.fastack >= resent {
        if Signed(seg.xmit) <= cfg.fastLimit || cfg.fastLimit <= 0 {
          need := Fast;
          seg := seg.(xmit := Wrap(seg.xmit + 1), fastack := 0, resendts := Wrap(now + seg.rto));
        }
      }
      if need != Keep { seg := seg.(ts := now, wnd := wnd, una := rcv.nxt); }
    }

    /** The block k, but for what the sending loop changes. */
    ghost predicate Sending(k: Kcb)
      reads this
    {
      Value() == k.(snd := k.snd.(buf := snd.buf), clock := k.clock.(xmit := clock.xmit, dead := clock.dead))
    }

    /** One turn of the sending loop. */
    method FlushSegment(i: nat, ptr: nat, wnd: u32, lost0: bool, change0: nat,
                        ghost k: Kcb, ghost p: Packer, ghost before: seq<seq<byte>>)
      returns (next: nat, lost: bool, change: nat, ghost p': Packer)
      requires i < |snd.buf| && Filling(ptr, p, before) && Sending(k) && wnd == UnusedWindow(k)
      requires OVERHEAD + |snd.buf[i].data| <= cfg.mtu
      modifies this`snd, this`clock, this`out, buffer
      ensures Filling(next, p', before) && Sending(k)
      ensures DataFlush(snd.buf, p', clock.xmit, clock.dead, lost, change)
           == FlushStep(k, DataFlush(old(snd.buf), p, old(clock.xmit), old(clock.dead), lost0, change0), i)
    {
      hide Filling, NeedSend, Passed, Put;
      PassedAlike(k, Value(), snd.buf[i]);
      next, lost, change, p' := ptr, lost0, change0, p;
      var seg, need := Retransmit(snd.buf[i], wnd, Resent(cfg), if cfg.nodelay == 0 then clock.rto / 8 else 0);
      PassedFields(k, snd.buf[i]);
      if need == Timeout { clock := clock.(xmit := Wrap(clock.xmit + 1)); lost := true; }
      if need == Fast { change := change + 1; }
      if need != Keep {
        snd := snd.(buf := snd.buf[i := seg]);
        next := PutSegment(next, seg, p', before);
        p' := Put(p', seg, cfg.mtu);
        if seg.xmit >= cfg.deadLink { clock := clock.(dead := true); }
      }
    }

    /** The sending loop of ikcp_flush. */
    method FlushData(ptr: nat, wnd: u32, ghost p: Packer, ghost before: seq<seq<byte>>)
      returns (next: nat, lost: bool, change: nat, ghost p': Packer)
      requires Filling(ptr, p, before) && wnd == UnusedWindow(Value())
      requires forall j | 0 <= j < |snd.buf| :: OVERHEAD + |snd.buf[j].data| <= cfg.mtu
      modifies this`snd, this`clock, this`out, buffer
      ensures Filling(next, p', before) && Sending(old(Value()))
      ensures DataFlush(snd.buf, p', clock.xmit, clock.dead, lost, change)
           == KcpSpec.FlushData(old(Value()), DataStart(old(Value()), p), 0)
    {
      hide Filling, FlushStep, UnusedWindow;
      ghost var k := Value();
      next, lost, change, p' := ptr, false, 0, p;
      var i: nat := 0;
      while i < |snd.buf|
        invariant i <= |snd.buf| == |k.snd.buf| && Filling(next, p', before) && Sending(k)
        invariant forall j | i <= j < |snd.buf| :: OVERHEAD + |snd.buf[j].data| <= cfg.mtu
        invariant KcpSpec.FlushData(k, DataFlush(snd.buf, p', clock.xmit, clock.dead, lost, change), i)
               == KcpSpec.FlushData(k, DataStart(k, p), 0)
      {
        FlushStepBuffer(k, DataFlush(snd.buf, p', clock.xmit, clock.dead, lost, change), i);
        next, lost, change, p' := FlushSegment(i, next, wnd, lost, change, k, p', before);
        i := i + 1;
      }
    }

    /** The congestion window after a flush. */
    method AdjustWindow(cwnd: u32, changed: bool, lost: bool)
      modifies this`cc
      ensures cc == Adjust(cfg, old(cc), Wrap(snd.nxt - snd.una), cwnd, changed, lost)
    {
      hide Wrap;
      if changed {
        var inflight := Wrap(snd.nxt - snd.una);
        cc := cc.(ssthresh := inflight / 2);
        if cc.ssthresh < THRESH_MIN { cc := cc.(ssthresh := THRESH_MIN); }
        cc := cc.(cwnd := Wrap(cc.ssthresh + Resent(cfg)));
        cc := cc.(incr := Wrap(cc.cwnd * cfg.mss));
      }
      if lost {
        cc := cc.(ssthresh := cwnd / 2);
        if cc.ssthresh < THRESH_MIN { cc := cc.(ssthresh := THRESH_MIN); }
        cc := cc.(cwnd := 1, incr := Wrap(cfg.mss));
      }
      if cc.cwnd < 1 { cc := cc.(cwnd := 1, incr := Wrap(cfg.mss)); }
    }

    /** ikcp_flush: acknowledgements, probes, then the due data, in datagrams of at most mtu bytes. */
    method Flush()
      requires Valid()
      modifies this, buffer
      ensures Value() == KcpSpec.Flush(old(Value())).0
      ensures out == old(out) + Datagrams(KcpSpec.Flush(old(Value())).1)
      ensures forall i | |old(out)| <= i < |out| :: 0 < |out[i]| <= cfg.mtu
      ensures Valid()
    {
      hide KcbOk, Filling, KcpSpec.FlushAcks, KcpSpec.FlushProbes, KcpSpec.FillWindow, KcpSpec.FlushData, KcpSpec.Probe,
        Adjust, KcpSpec.Flush;
      ghost var k := Value();
      FlushKeeps(k);
      BufferedFits(k);
      DatagramsFit(k);
      if !clock.updated {
        NotUpdated(k);
        return;
      }
      FillingStarts();
      var wnd := if rcv.nQueue < cfg.rcvWnd then cfg.rcvWnd - rcv.nQueue else 0;
      var seg := Segment(cfg.conv, CMD_ACK, 0, wnd, 0, 0, rcv.nxt, [], 0, 0, 0, 0);
      var ptr: nat, lost: bool, change: nat;
      ghost var p: Packer;
      ptr, seg, p := FlushAcks(seg, out);
      rcv := rcv.(acks := []);
      Probe();
      ptr := FlushProbes(ptr, seg, p, old(out));
      flow := flow.(askSend := false, askTell := false);
      assert Value() == AfterProbes(k);
      AfterProbesOk(k);
      var cwnd := Min(cfg.sndWnd, flow.rmtWnd);
      if !cfg.noCwnd { cwnd := Min(cc.cwnd, cwnd); }
      FillWindow(cwnd, wnd);
      FilledOk(k);
      assert Value() == Filled(k);
      BufferedFits(Value());
      ptr, lost, change, p := FlushData(ptr, wnd, Control(k), old(out));
      FillingEnds(ptr, p, old(out));
      Output(ptr);
      AdjustWindow(cwnd, change > 0, lost);
      FlushIs(k, cwnd);
    }

    // ----- time -----

    /** ikcp_update: flushes when the interval is over. */
    method Update(now: u32)
      requires Valid()
      modifies this, buffer
      ensures Value() == KcpSpec.Update(old(Value()), now).0
      ensures out == old(out) + Datagrams(KcpSpec.Update(old(Value()), now).1)
      ensures Valid()
    {
      hide KcbOk, KcpSpec.Flush, TimeDiff;
      UpdateKeeps(Value(), now);
      ClockIrrelevant(Value());
      clock := clock.(current := now);
      if !clock.updated { clock := clock.(updated := true, tsFlush := clock.current); }
      var slap := TimeDiff(clock.current, clock.tsFlush);
      if slap >= 10000 || slap < -10000 {
        clock := clock.(tsFlush := clock.current);
        slap := 0;
      }
      if slap >= 0 {
        clock := clock.(tsFlush := Wrap(clock.tsFlush + cfg.interval));
        if TimeDiff(clock.current, clock.tsFlush) >= 0 {
          clock := clock.(tsFlush := Wrap(clock.current + cfg.interval));
        }
        Flush();
      }
    }

    /** ikcp_check: when ikcp_update has something to do. */
    method Check(now: u32) returns (next: u32)
      ensures next == KcpSpec.Check(Value(), now)
    {
      hide TimeDiff;
      if !clock.updated { return now; }
      var flushAt := clock.tsFlush;
      if TimeDiff(now, flushAt) >= 10000 || TimeDiff(now, flushAt) < -10000 { return now; }
      if TimeDiff(now, flushAt) >= 0 { return now; }
      var buf := snd.buf;
      var tmPacket := 0x7fff_ffff;
      var p: nat := 0;
      while p < |buf|
        invariant p <= |buf| && 0 <= tmPacket
        invariant NearestDeadline(buf, now, p, tmPacket) == NearestDeadline(buf, now, 0, 0x7fff_ffff)
      {
        var diff := TimeDiff(buf[p].resendts, now);
        if diff <= 0 { return now; }
        if diff < tmPacket { tmPacket := diff; }
        p := p + 1;
      }
      var minimal := Min(tmPacket, TimeDiff(flushAt, now));
      if minimal >= cfg.interval { minimal := cfg.interval; }
      next := Wrap(now + minimal);
    }
  }
}

/** What each KCP operation does, as functions on the value of a control block. */
module KcpSpec {
  import opened Common
  import opened KcpTypes
  import opened KcpWire

  // ----- receiving side -----

  function Concat(q: seq<Segment>): seq<byte> {
    if |q| == 0 then [] else q[0].data + Concat(q[1..])
  }

  /** How many segments the first message takes: up to the first fragment number zero. */
  function MessageLength(q: seq<Segment>): (n: nat)
    ensures n <= |q|
    ensures |q| > 0 ==> n > 0
  {
    if |q| == 0 then 0 else if q[0].frg == 0 then 1 else 1 + MessageLength(q[1..])
  }

  /** ikcp_peeksize: the size of the next message, or -1 when there is no complete one. */
  function PeekSize(r: Receiver): int {
    if |r.queue| == 0 then -1
    else if r.queue[0].frg == 0 then |r.queue[0].data|
    else if r.nQueue < r.queue[0].frg + 1 then -1
    else |Concat(r.queue[..MessageLength(r.queue)])|
  }

  /** Moves segments from rcv_buf to rcv_queue while they are next in order and the queue has room. */
  function MoveReady(r: Receiver, rcvWnd: u32): Receiver
    decreases |r.buf|
  {
    if |r.buf| > 0 && r.buf[0].sn == r.nxt && r.nQueue < rcvWnd then
      MoveReady(r.(buf := r.buf[1..], nBuf := r.nBuf - 1, queue := r.queue + [r.buf[0]], nQueue := r.nQueue + 1,
                   nxt := Wrap(r.nxt + 1)), rcvWnd)
    else r
  }

  datatype Received = Received(code: int, data: seq<byte>)

  /** ikcp_recv; a negative len only peeks. */
  function Recv(k: Kcb, len: int): (Kcb, Received) {
    var size := PeekSize(k.rcv);
    if |k.rcv.queue| == 0 then (k, Received(-1, []))
    else if size < 0 then (k, Received(-2, []))
    else if size > (if len < 0 then -len else len) then (k, Received(-3, []))
    else
      var n := MessageLength(k.rcv.queue);
      var taken := if len < 0 then k.rcv else k.rcv.(queue := k.rcv.queue[n..], nQueue := k.rcv.nQueue - n);
      var r := MoveReady(taken, k.cfg.rcvWnd);
      var recover := k.rcv.nQueue >= k.cfg.rcvWnd && r.nQueue < k.cfg.rcvWnd;
      (k.(rcv := r, flow := k.flow.(askTell := k.flow.askTell || recover)), Received(size, Concat(k.rcv.queue[..n])))
  }

  /** Where ikcp_parse_data puts sn, searching down from i: Some position, or none when sn is already there. */
  function InsertPosition(buf: seq<Segment>, sn: u32, i: nat): (p: int)
    requires i <= |buf|
    ensures -1 <= p <= i
  {
    if i == 0 then 0
    else if buf[i - 1].sn == sn then -1
    else if TimeDiff(sn, buf[i - 1].sn) > 0 then i
    else InsertPosition(buf, sn, i - 1)
  }

  function ParseData(r: Receiver, rcvWnd: u32, seg: Segment): Receiver {
    if TimeDiff(seg.sn, Wrap(r.nxt + rcvWnd)) >= 0 || TimeDiff(seg.sn, r.nxt) < 0 then r
    else
      var p := InsertPosition(r.buf, seg.sn, |r.buf|);
      var r' := if p < 0 then r else r.(buf := r.buf[..p] + [seg] + r.buf[p..], nBuf := r.nBuf + 1);
      MoveReady(r', rcvWnd)
  }

  // ----- sending side -----

  function FragmentCount(len: nat, mss: nat): nat
    requires 0 < mss
  {
    if len <= mss then 1 else (len + mss - 1) / mss
  }

  /** The fragments of data from number i on, for count fragments in all. */
  function Fragments(data: seq<byte>, mss: nat, stream: bool, i: nat, count: nat): (q: seq<Segment>)
    requires 0 < mss && i <= count <= WND_RCV
    ensures |q| == count - i
    decreases count - i
  {
    if i == count then []
    else
      var size := if |data| > mss then mss else |data|;
      [Fresh(if stream then 0 else count - i - 1, data[..size])] + Fragments(data[size..], mss, stream, i + 1, count)
  }

  /** Stream mode appends to the last queued segment while it is short. */
  function Extension(cfg: Config, s: Sender, data: seq<byte>): (n: nat)
    ensures n <= |data|
    ensures n > 0 ==> |s.queue| > 0
  {
    if cfg.stream && |s.queue| > 0 && |s.queue[|s.queue| - 1].data| < cfg.mss
    then Min(|data|, cfg.mss - |s.queue[|s.queue| - 1].data|) else 0
  }

  function Extend(cfg: Config, s: Sender, data: seq<byte>): Sender {
    if cfg.stream && |s.queue| > 0 && |s.queue[|s.queue| - 1].data| < cfg.mss then
      var last := |s.queue| - 1;
      s.(queue := s.queue[..last] + [Fresh(0, s.queue[last].data + data[..Extension(cfg, s, data)])])
    else s
  }

  /** ikcp_send: the new sender and the number of bytes taken, or -2 when there would be too many fragments. */
  function Send(cfg: Config, s: Sender, data: seq<byte>): (Sender, int)
    requires 0 < cfg.mss
  {
    var sent := Extension(cfg, s, data);
    var rest := data[sent..];
    var s' := Extend(cfg, s, data);
    var count := FragmentCount(|rest|, cfg.mss);
    if cfg.stream && |rest| == 0 then (s', sent)
    else if count >= WND_RCV then (s', if cfg.stream && sent > 0 then sent else -2)
    else (s'.(queue := s'.queue + Fragments(rest, cfg.mss, cfg.stream, 0, count), nQueue := s'.nQueue + count), |data|)
  }

  /** ikcp_parse_una: every queued segment before una has been received. */
  function ParseUna(s: Sender, una: u32): Sender
    decreases |s.buf|
  {
    if |s.buf| > 0 && TimeDiff(una, s.buf[0].sn) > 0
    then ParseUna(s.(buf := s.buf[1..], nBuf := s.nBuf - 1), una) else s
  }

  function ShrinkBuf(s: Sender): Sender {
    s.(una := if |s.buf| > 0 then s.buf[0].sn else s.nxt)
  }

  /** The index of sn in the buffer from i on, or the buffer's length. */
  function FindSn(buf: seq<Segment>, sn: u32, i: nat): (p: nat)
    requires i <= |buf|
    ensures i <= p <= |buf|
    ensures p < |buf| ==> buf[p].sn == sn
    decreases |buf| - i
  {
    if i == |buf| || buf[i].sn == sn then i
    else if TimeDiff(sn, buf[i].sn) < 0 then |buf|
    else FindSn(buf, sn, i + 1)
  }

  predicate InFlight(s: Sender, sn: u32) {
    TimeDiff(sn, s.una) >= 0 && TimeDiff(sn, s.nxt) < 0
  }

  function ParseAck(s: Sender, sn: u32): Sender {
    var p := FindSn(s.buf, sn, 0);
    if InFlight(s, sn) && p < |s.buf| then s.(buf := s.buf[..p] + s.buf[p + 1..], nBuf := s.nBuf - 1) else s
  }

  function Mark(seg: Segment, sn: u32, ts: u32): Segment {
    if sn != seg.sn && TimeDiff(ts, seg.ts) >= 0 then seg.(fastack := Wrap(seg.fastack + 1)) else seg
  }

  /** Counts an acknowledgement of sn against every earlier segment from i on. */
  function MarkFast(buf: seq<Segment>, sn: u32, ts: u32, i: nat): (r: seq<Segment>)
    requires i <= |buf|
    ensures |r| == |buf|
    decreases |buf| - i
  {
    if i == |buf| || TimeDiff(sn, buf[i].sn) < 0 then buf
    else MarkFast(buf[i := Mark(buf[i], sn, ts)], sn, ts, i + 1)
  }

  function ParseFastAck(s: Sender, sn: u32, ts: u32): Sender {
    if InFlight(s, sn) then s.(buf := MarkFast(s.buf, sn, ts, 0)) else s
  }

  // ----- input -----

  function UpdateAck(cfg: Config, c: Clock, rtt: nat): Clock {
    var srtt := if c.srtt == 0 then rtt else Max((7 * c.srtt + rtt) / 8, 1);
    var rttval := if c.srtt == 0 then rtt / 2
                  else (3 * c.rttval + (if rtt >= c.srtt then rtt - c.srtt else c.srtt - rtt)) / 4;
    c.(srtt := srtt, rttval := rttval,
       rto := Wrap(Min(Max(cfg.minRto, srtt + Max(cfg.interval, 4 * rttval)), RTO_MAX)))
  }

  /** The largest acknowledgement of one input, by time stamp. */
  datatype Latest = NoAck | Latest(sn: u32, ts: u32)

  function Newer(l: Latest, sn: u32, ts: u32): Latest {
    match l
    case NoAck => Latest(sn, ts)
    case Latest(sn0, ts0) => if TimeDiff(sn, sn0) > 0 && TimeDiff(ts, ts0) > 0 then Latest(sn, ts) else l
  }

  function InputAck(k: Kcb, seg: Segment): Kcb {
    var rtt := TimeDiff(k.clock.current, seg.ts);
    k.(clock := if rtt >= 0 then UpdateAck(k.cfg, k.clock, rtt) else k.clock, snd := ShrinkBuf(ParseAck(k.snd, seg.sn)))
  }

  /** Data below the window's end is acknowledged, and kept when it is not old. */
  function PushData(r: Receiver, rcvWnd: u32, seg: Segment): Receiver {
    if TimeDiff(seg.sn, Wrap(r.nxt + rcvWnd)) < 0 then
      var r' := r.(acks := r.acks + [Ack(seg.sn, seg.ts)]);
      if TimeDiff(seg.sn, r.nxt) >= 0 then ParseData(r', rcvWnd, seg) else r'
    else r
  }

  function InputPush(k: Kcb, seg: Segment): Kcb {
    k.(rcv := PushData(k.rcv, k.cfg.rcvWnd, seg))
  }

  /** One segment of an input: its window and una count whatever its command. */
  function InputSegment(k: Kcb, seg: Segment): (r: Kcb)
    ensures r.cfg == k.cfg
  {
    var k' := k.(flow := k.flow.(rmtWnd := seg.wnd), snd := ShrinkBuf(ParseUna(k.snd, seg.una)));
    if seg.cmd == CMD_ACK then InputAck(k', seg)
    else if seg.cmd == CMD_PUSH then InputPush(k', seg)
    else if seg.cmd == CMD_WASK then k'.(flow := k'.flow.(askTell := true))
    else k'
  }

  predicate KnownCommand(cmd: u32) {
    cmd == CMD_PUSH || cmd == CMD_ACK || cmd == CMD_WASK || cmd == CMD_WINS
  }

  datatype Parsed = Parsed(k: Kcb, latest: Latest, code: int)

  /** The loop of ikcp_input: segments until fewer bytes than a header are left, or an error. */
  function InputLoop(k: Kcb, latest: Latest, b: seq<byte>): (r: Parsed)
    ensures r.k.cfg == k.cfg
    decreases |b|
  {
    if |b| < OVERHEAD then Parsed(k, latest, 0)
    else
      var len := DataLength(b);
      if Read32(b, 0) != k.cfg.conv then Parsed(k, latest, -1)
      else if |b| - OVERHEAD < len || len >= 0x8000_0000 then Parsed(k, latest, -2)
      else
        var seg := ReadHeader(b, b[OVERHEAD..OVERHEAD + len]);
        if !KnownCommand(seg.cmd) then Parsed(k, latest, -3)
        else
          InputLoop(InputSegment(k, seg), if seg.cmd == CMD_ACK then Newer(latest, seg.sn, seg.ts) else latest,
                    b[OVERHEAD + len..])
  }

  /** Congestion avoidance, when new data has been acknowledged. */
  function Grow(cfg: Config, cc: Congestion, rmtWnd: u32): Congestion
    requires 0 < cfg.mss
  {
    if cc.cwnd >= rmtWnd then cc
    else
      var mss := cfg.mss;
      var grown :=
        if cc.cwnd < cc.ssthresh then cc.(cwnd := Wrap(cc.cwnd + 1), incr := Wrap(cc.incr + mss))
        else
          var base: u32 := Max(cc.incr, mss);
          var incr := Wrap(base + Div(Wrap(mss * mss), base) + mss / 16);
          cc.(incr := incr,
              cwnd := if Wrap((cc.cwnd + 1) * mss) <= incr then Div(Wrap(incr + mss - 1), mss) else cc.cwnd);
      if grown.cwnd > rmtWnd then grown.(cwnd := rmtWnd, incr := Wrap(rmtWnd * mss)) else grown
  }

  /** ikcp_input. */
  function Input(k: Kcb, b: seq<byte>): (r: (Kcb, int))
    requires 0 < k.cfg.mss
    ensures r.0.cfg == k.cfg
  {
    if |b| < OVERHEAD then (k, -1)
    else
      var p := InputLoop(k, NoAck, b);
      if p.code != 0 then (p.k, p.code)
      else
        var k1 := if p.latest == NoAck then p.k else p.k.(snd := ParseFastAck(p.k.snd, p.latest.sn, p.latest.ts));
        if TimeDiff(k1.snd.una, k.snd.una) > 0 then (k1.(cc := Grow(k.cfg, k1.cc, k1.flow.rmtWnd)), 0) else (k1, 0)
  }

  // ----- flush -----

  /** The datagrams ikcp_flush has sent and the one it is filling, as lists of segments. */
  datatype Packer = Packer(out: seq<seq<Segment>>, cur: seq<Segment>)

  function Emit(p: Packer): seq<seq<Segment>> {
    if |p.cur| == 0 then p.out else p.out + [p.cur]
  }

  /** Appends a segment, sending the buffer first when the segment does not fit. */
  function Put(p: Packer, seg: Segment, mtu: u32): Packer {
    if |EncodeAll(p.cur)| + OVERHEAD + |seg.data| > mtu then Packer(Emit(p), [seg]) else Packer(p.out, p.cur + [seg])
  }

  function UnusedWindow(k: Kcb): u32 {
    if 0 <= k.rcv.nQueue < k.cfg.rcvWnd then k.cfg.rcvWnd - k.rcv.nQueue else 0
  }

  /** The header ikcp_flush fills in for everything but data. */
  function Template(k: Kcb): Segment {
    Segment(k.cfg.conv, CMD_ACK, 0, UnusedWindow(k), 0, 0, k.rcv.nxt, [], 0, 0, 0, 0)
  }

  datatype AckFlush = AckFlush(p: Packer, seg: Segment)

  function FlushAcks(p: Packer, seg: Segment, acks: seq<Ack>, mtu: u32): AckFlush
    decreases |acks|
  {
    if |acks| == 0 then AckFlush(p, seg)
    else
      var seg' := seg.(sn := acks[0].sn, ts := acks[0].ts);
      FlushAcks(Put(p, seg', mtu), seg', acks[1..], mtu)
  }

  /** Window probing: ask when the remote window is zero for long enough. */
  function Probe(f: Flow, current: u32): Flow {
    if f.rmtWnd != 0 then f.(tsProbe := 0, probeWait := 0)
    else if f.probeWait == 0 then f.(probeWait := PROBE_INIT, tsProbe := Wrap(current + PROBE_INIT))
    else if TimeDiff(current, f.tsProbe) >= 0 then
      var w := Max(f.probeWait, PROBE_INIT);
      var wait := Wrap(Min(Wrap(w + w / 2), PROBE_LIMIT));
      f.(probeWait := wait, tsProbe := Wrap(current + wait), askSend := true)
    else f
  }

  function FlushProbes(p: Packer, seg: Segment, f: Flow, mtu: u32): Packer {
    var p' := if f.askSend then Put(p, seg.(cmd := CMD_WASK), mtu) else p;
    if f.askTell then Put(p', seg.(cmd := CMD_WINS), mtu) else p'
  }

  function SendWindow(k: Kcb): u32 {
    var w := Min(k.cfg.sndWnd, k.flow.rmtWnd);
    if k.cfg.noCwnd then w else Min(k.cc.cwnd, w)
  }

  /** Numbers a queued segment for its first transmission. */
  function Stamp(k: Kcb, seg: Segment): Segment {
    Segment(k.cfg.conv, CMD_PUSH, seg.frg, UnusedWindow(k), k.clock.current, k.snd.nxt, k.rcv.nxt, seg.data,
            k.clock.current, k.clock.rto, 0, 0)
  }

  /** Moves queued segments into the send buffer while the window allows. */
  function FillWindow(k: Kcb, cwnd: u32): (r: Kcb)
    ensures r.cfg == k.cfg
    decreases |k.snd.queue|
  {
    if TimeDiff(k.snd.nxt, Wrap(k.snd.una + cwnd)) < 0 && |k.snd.queue| > 0 then
      FillWindow(k.(snd := k.snd.(queue := k.snd.queue[1..], nQueue := k.snd.nQueue - 1,
                                  buf := k.snd.buf + [Stamp(k, k.snd.queue[0])], nBuf := k.snd.nBuf + 1,
                                  nxt := Wrap(k.snd.nxt + 1))), cwnd)
    else k
  }

  datatype Need = Keep | First | Timeout | Fast

  function Resent(cfg: Config): u32 { if cfg.fastResend > 0 then cfg.fastResend else 0xffff_ffff }

  function NeedSend(k: Kcb, seg: Segment): Need {
    if seg.xmit == 0 then First
    else if TimeDiff(k.clock.current, seg.resendts) >= 0 then Timeout
    else if seg.fastack >= Resent(k.cfg) && (Signed(seg.xmit) <= k.cfg.fastLimit || k.cfg.fastLimit <= 0) then Fast
    else Keep
  }

  /** The retransmission state of a segment that is sent again. */
  function Resend(k: Kcb, seg: Segment, need: Need): Segment {
    var now := k.clock.current;
    var xmit := Wrap(seg.xmit + 1);
    match need
    case Keep => seg
    case First =>
      var rtoMin := if k.cfg.nodelay == 0 then k.clock.rto / 8 else 0;
      seg.(xmit := xmit, rto := k.clock.rto, resendts := Wrap(now + k.clock.rto + rtoMin))
    case Timeout =>
      var step := if k.cfg.nodelay == 0 then Max(seg.rto, k.clock.rto)
                  else Half(Signed(if k.cfg.nodelay < 2 then seg.rto else k.clock.rto));
      var rto := Wrap(seg.rto + step);
      seg.(xmit := xmit, rto := rto, resendts := Wrap(now + rto))
    case Fast =>
      seg.(xmit := xmit, fastack := 0, resendts := Wrap(now + seg.rto))
  }

  function Restamp(k: Kcb, seg: Segment): Segment {
    seg.(ts := k.clock.current, wnd := UnusedWindow(k), una := k.rcv.nxt)
  }

  /** A segment after the sending loop has passed it. */
  function Passed(k: Kcb, seg: Segment): Segment {
    var need := NeedSend(k, seg);
    if need == Keep then seg else Restamp(k, Resend(k, seg, need))
  }

  datatype DataFlush = DataFlush(buf: seq<Segment>, p: Packer, xmit: u32, dead: bool, lost: bool, change: nat)

  /** One turn of the sending loop. */
  function FlushStep(k: Kcb, d: DataFlush, i: nat): (r: DataFlush)
    requires i < |d.buf|
    ensures |r.buf| == |d.buf|
  {
    var need := NeedSend(k, d.buf[i]);
    var seg := Passed(k, d.buf[i]);
    if need == Keep then d
    else DataFlush(d.buf[i := seg], Put(d.p, seg, k.cfg.mtu),
                   if need == Timeout then Wrap(d.xmit + 1) else d.xmit,
                   d.dead || seg.xmit >= k.cfg.deadLink,
                   d.lost || need == Timeout,
                   if need == Fast then d.change + 1 else d.change)
  }

  /** The sending loop from segment i of the buffer on. */
  function FlushData(k: Kcb, d: DataFlush, i: nat): DataFlush
    requires i <= |d.buf|
    decreases |d.buf| - i
  {
    if i == |d.buf| then d else FlushData(k, FlushStep(k, d, i), i + 1)
  }

  /** The congestion window after a flush. */
  function Adjust(cfg: Config, cc: Congestion, inFlight: u32, window: u32, changed: bool, lost: bool): Congestion {
    var c1 :=
      if changed then
        var ss: u32 := Max(inFlight / 2, THRESH_MIN);
        var cwnd := Wrap(ss + Resent(cfg));
        Congestion(cwnd, Wrap(cwnd * cfg.mss), ss)
      else cc;
    var c2 := if lost then Congestion(1, Wrap(cfg.mss), Max(window / 2, THRESH_MIN)) else c1;
    if c2.cwnd < 1 then c2.(cwnd := 1, incr := Wrap(cfg.mss)) else c2
  }

  /** ikcp_flush: the new block and the datagrams it sends. */
  function Flush(k: Kcb): (r: (Kcb, seq<seq<Segment>>))
    ensures r.0.cfg == k.cfg
  {
    if !k.clock.updated then (k, [])
    else
      var a := FlushAcks(Packer([], []), Template(k), k.rcv.acks, k.cfg.mtu);
      var flow := Probe(k.flow, k.clock.current);
      var p := FlushProbes(a.p, a.seg, flow, k.cfg.mtu);
      var k1 := k.(rcv := k.rcv.(acks := []), flow := flow.(askSend := false, askTell := false));
      var window := SendWindow(k1);
      var k2 := FillWindow(k1, window);
      var d := FlushData(k2, DataFlush(k2.snd.buf, p, k2.clock.xmit, k2.clock.dead, false, 0), 0);
      var k3 := k2.(snd := k2.snd.(buf := d.buf), clock := k2.clock.(xmit := d.xmit, dead := d.dead),
                    cc := Adjust(k2.cfg, k2.cc, Wrap(k2.snd.nxt - k2.snd.una), window, d.change > 0, d.lost));
      (k3, Emit(d.p))
  }

  /** ikcp_update. */
  function Update(k: Kcb, now: u32): (r: (Kcb, seq<seq<Segment>>))
    ensures r.0.cfg == k.cfg
  {
    var c := k.clock.(current := now, updated := true, tsFlush := if k.clock.updated then k.clock.tsFlush else now);
    var slap := TimeDiff(now, c.tsFlush);
    var late := slap >= 10000 || slap < -10000;
    var base := if late then now else c.tsFlush;
    if late || slap >= 0 then
      var next := Wrap(base + k.cfg.interval);
      var next' := if TimeDiff(now, next) >= 0 then Wrap(now + k.cfg.interval) else next;
      Flush(k.(clock := c.(tsFlush := next')))
    else (k.(clock := c), [])
  }

  /** The nearest retransmission deadline from segment i on, or none when one is due. */
  function NearestDeadline(buf: seq<Segment>, now: u32, i: nat, best: int): int
    requires i <= |buf|
    decreases |buf| - i
  {
    if i == |buf| then best
    else
      var diff := TimeDiff(buf[i].resendts, now);
      if diff <= 0 then -1 else NearestDeadline(buf, now, i + 1, if diff < best then diff else best)
  }

  /** ikcp_check: when to call ikcp_update next. */
  function Check(k: Kcb, now: u32): u32 {
    if !k.clock.updated then now
    else
      var d := TimeDiff(now, k.clock.tsFlush);
      if d >= 10000 || d < -10000 || d >= 0 then now
      else
        var packet := NearestDeadline(k.snd.buf, now, 0, 0x7fff_ffff);
        if packet < 0 then now
        else Wrap(now + Min(Min(packet, TimeDiff(k.clock.tsFlush, now)), k.cfg.interval))
  }
}

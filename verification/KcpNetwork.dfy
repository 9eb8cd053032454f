/** Two KCP endpoints joined by a network that may drop, duplicate, delay and reorder datagrams.
    Every datagram ever sent may be delivered any number of times, at any time, or never. */
module KcpNetwork {
  import opened Common
  import opened KcpTypes
  import opened KcpSpec
  import opened KcpOutput
  import opened KcpInvariant

  /** What has gone into one direction of the connection and what has come out of it.
      frags lists every fragment accepted so far; the first taken of them have been read. */
  datatype History = History(
    frags: seq<Segment>, taken: nat,
    accepted: seq<byte>, delivered: seq<byte>,
    sent: seq<seq<byte>>, got: seq<seq<byte>>)

  predicate Same(seg: Segment, frag: Segment) {
    seg.frg == frag.frg && seg.data == frag.data
  }

  ghost predicate InBuf(buf: seq<Segment>, sn: int) {
    exists i :: 0 <= i < |buf| && buf[i].sn == sn
  }

  /** The receiver has the segment: delivered in order already, or waiting in its buffer. */
  ghost predicate Held(r: Receiver, sn: int) {
    sn < r.nxt || InBuf(r.buf, sn)
  }

  ghost predicate QueueMatches(q: seq<Segment>, frags: seq<Segment>, from: int) {
    0 <= from && from + |q| <= |frags| && forall i | 0 <= i < |q| :: Same(q[i], frags[from + i])
  }

  ghost predicate BufferMatches(buf: seq<Segment>, frags: seq<Segment>, nxt: int) {
    nxt <= |frags| && forall i | 0 <= i < |buf| :: buf[i].sn < nxt && Same(buf[i], frags[buf[i].sn])
  }

  /** Everything accepted and not yet numbered waits in the send queue; everything buffered is what was accepted. */
  ghost predicate SenderLink(s: Sender, h: History) {
    && s.nxt <= |h.frags| < HALF
    && h.frags[s.nxt..] == s.queue
    && BufferMatches(s.buf, h.frags, s.nxt)
  }

  /** The receive queue is the unread run of fragments up to rcv_nxt, the buffer holds later ones. */
  ghost predicate ReceiverLink(nxt: int, r: Receiver, h: History) {
    && h.taken + |r.queue| == r.nxt <= nxt
    && QueueMatches(r.queue, h.frags, h.taken)
    && BufferMatches(r.buf, h.frags, nxt)
    && (forall i | 0 <= i < |r.buf| :: r.nxt <= r.buf[i].sn)
  }

  ghost predicate DataSegment(nxt: int, seg: Segment, h: History)
    requires nxt <= |h.frags|
  {
    seg.cmd == CMD_PUSH ==> seg.sn < nxt && Same(seg, h.frags[seg.sn])
  }

  ghost predicate DataInFlight(nxt: int, net: set<seq<Segment>>, h: History) {
    nxt <= |h.frags| && forall g, i | g in net && 0 <= i < |g| :: DataSegment(nxt, g[i], h)
  }

  ghost predicate AckSegment(r: Receiver, seg: Segment) {
    seg.una <= r.nxt && (seg.cmd == CMD_ACK ==> Held(r, seg.sn))
  }

  /** Every acknowledgement in flight names only data the receiver holds. */
  ghost predicate AcksInFlight(r: Receiver, net: set<seq<Segment>>) {
    forall g, i | g in net && 0 <= i < |g| :: AckSegment(r, g[i])
  }

  ghost predicate AcksPending(r: Receiver) {
    forall i | 0 <= i < |r.acks| :: Held(r, r.acks[i].sn)
  }

  /** No segment is lost: each numbered one is still buffered by its sender or held by its receiver. */
  ghost predicate NoLoss(s: Sender, r: Receiver) {
    forall sn | 0 <= sn < s.nxt :: Held(r, sn) || InBuf(s.buf, sn)
  }

  // ----- messages -----

  ghost predicate CountsAt(frags: seq<Segment>, i: nat)
    requires i < |frags|
  {
    frags[i].frg < WND_RCV - 1 && (frags[i].frg > 0 ==> i + 1 < |frags| && frags[i + 1].frg == frags[i].frg - 1)
  }

  /** Fragment numbers count down to zero inside every message. */
  ghost predicate CountsDown(frags: seq<Segment>) {
    forall i | 0 <= i < |frags| :: CountsAt(frags, i)
  }

  /** The messages that a list of fragments stands for. */
  function Messages(frags: seq<Segment>): seq<seq<byte>>
    decreases |frags|
  {
    if |frags| == 0 then []
    else
      var n := MessageLength(frags);
      [Concat(frags[..n])] + Messages(frags[n..])
  }

  ghost predicate HistoryOk(h: History, stream: bool) {
    && h.taken <= |h.frags|
    && CountsDown(h.frags) && CountsDown(h.frags[..h.taken])
    && h.accepted == Concat(h.frags)
    && h.delivered == Concat(h.frags[..h.taken])
    && h.got == Messages(h.frags[..h.taken])
    && (!stream ==> h.sent == Messages(h.frags))
  }

  /** One direction of the connection, from the sender s to the receiver r. */
  ghost predicate LinkOk(s: Sender, r: Receiver, data: set<seq<Segment>>, acks: set<seq<Segment>>, h: History,
                         stream: bool) {
    && SenderLink(s, h)
    && ReceiverLink(s.nxt, r, h)
    && DataInFlight(s.nxt, data, h)
    && AcksInFlight(r, acks)
    && AcksPending(r)
    && NoLoss(s, r)
    && HistoryOk(h, stream)
  }

  ghost predicate NetSendable(net: set<seq<Segment>>, conv: u32) {
    && (forall g: seq<Segment> | g in net :: |g| > 0)
    && (forall g: seq<Segment>, i | g in net && 0 <= i < |g| :: Sendable(conv, g[i]))
  }

  /** Both endpoints, every datagram ever sent by either, and the histories of both directions. */
  datatype Net = Net(a: Kcb, b: Kcb, fromA: set<seq<Segment>>, fromB: set<seq<Segment>>, ab: History, ba: History)

  ghost predicate NetOk(n: Net) {
    && KcbOk(n.a) && KcbOk(n.b) && n.a.cfg.conv == n.b.cfg.conv
    && NetSendable(n.fromA, n.a.cfg.conv) && NetSendable(n.fromB, n.a.cfg.conv)
    && LinkOk(n.a.snd, n.b.rcv, n.fromA, n.fromB, n.ab, n.a.cfg.stream)
    && LinkOk(n.b.snd, n.a.rcv, n.fromB, n.fromA, n.ba, n.b.cfg.stream)
  }

  function Swap(n: Net): Net { Net(n.b, n.a, n.fromB, n.fromA, n.ba, n.ab) }

  // ----- messages -----

  lemma {:induction false} ConcatAppend(a: seq<Segment>, b: seq<Segment>)
    ensures Concat(a + b) == Concat(a) + Concat(b)
    decreases |a|
  {
    if |a| == 0 {
      assert a + b == b;
    } else {
      ConcatAppend(a[1..], b);
      assert (a + b)[1..] == a[1..] + b;
    }
  }

  lemma CountsDownTail(frags: seq<Segment>, n: nat)
    requires CountsDown(frags) && n <= |frags|
    ensures CountsDown(frags[n..])
  {
    forall i | 0 <= i < |frags| - n
      ensures CountsAt(frags[n..], i)
    {
      assert CountsAt(frags, n + i);
    }
  }

  /** A message is as long as its first fragment number says. */
  lemma {:induction false} MessageLengthIs(frags: seq<Segment>)
    requires CountsDown(frags) && |frags| > 0
    ensures MessageLength(frags) == frags[0].frg + 1 <= |frags|
    ensures frags[MessageLength(frags) - 1].frg == 0
    decreases |frags|
  {
    assert CountsAt(frags, 0);
    if frags[0].frg > 0 {
      CountsDownTail(frags, 1);
      MessageLengthIs(frags[1..]);
    }
  }

  lemma CountsDownTake(frags: seq<Segment>, n: nat)
    requires CountsDown(frags) && 0 < n <= |frags| && frags[n - 1].frg == 0
    ensures CountsDown(frags[..n])
  {
    forall i | 0 <= i < n
      ensures CountsAt(frags[..n], i)
    {
      assert CountsAt(frags, i);
    }
  }

  lemma CountsDownAppend(a: seq<Segment>, b: seq<Segment>)
    requires CountsDown(a) && CountsDown(b)
    ensures CountsDown(a + b)
  {
    forall i | 0 <= i < |a + b|
      ensures CountsAt(a + b, i)
    {
      if i < |a| { assert CountsAt(a, i); } else { assert CountsAt(b, i - |a|); }
    }
  }

  /** Messages never straddle the end of a list that counts down. */
  lemma {:induction false} MessagesAppend(a: seq<Segment>, b: seq<Segment>)
    requires CountsDown(a) && CountsDown(b)
    ensures Messages(a + b) == Messages(a) + Messages(b)
    decreases |a|
  {
    hide CountsDown, MessageLength, Concat;
    if |a| == 0 {
      assert a + b == b;
    } else {
      var n := MessageLength(a);
      MessageLengthIs(a);
      CountsDownAppend(a, b);
      MessageLengthIs(a + b);
      CountsDownTail(a, n);
      MessagesAppend(a[n..], b);
      assert (a + b)[0] == a[0] && (a + b)[..n] == a[..n] && (a + b)[n..] == a[n..] + b;
    }
  }

  /** The fragments of one message count down, and are that message. */
  lemma {:induction false} FragmentsOk(data: seq<byte>, mss: nat, stream: bool, i: nat, count: nat)
    requires 0 < mss && i <= count < WND_RCV && |data| <= (count - i) * mss
    ensures var f := Fragments(data, mss, stream, i, count);
            && CountsDown(f) && Concat(f) == data
            && (|f| > 0 ==> f[0].frg == if stream then 0 else count - i - 1)
    decreases count - i
  {
    StepBound(|data|, count - i, mss);
    if i < count {
      var size := if |data| > mss then mss else |data|;
      FragmentsOk(data[size..], mss, stream, i + 1, count);
      var rest := Fragments(data[size..], mss, stream, i + 1, count);
      var seg := Fresh(if stream then 0 else count - i - 1, data[..size]);
      ConsCounts(seg, rest);
      assert data == data[..size] + data[size..] && ([seg] + rest)[1..] == rest;
    }
  }

  /** Taking one full fragment leaves no more than the remaining fragments hold. */
  lemma StepBound(len: nat, n: nat, mss: nat)
    requires len <= n * mss
    ensures n == 0 ==> len == 0
    ensures n > 0 ==> len - (if len > mss then mss else len) <= (n - 1) * mss
  {
    Mul1(n, mss);
    if n > 1 { DivProduct(n - 1, mss); }
  }

  lemma DivProduct(n: nat, m: nat)
    ensures 0 <= n * m
  {
  }

  lemma ConsCounts(seg: Segment, rest: seq<Segment>)
    requires CountsDown(rest) && seg.frg < WND_RCV - 1
    requires seg.frg > 0 ==> |rest| > 0 && rest[0].frg == seg.frg - 1
    ensures CountsDown([seg] + rest)
  {
    var f := [seg] + rest;
    forall j | 0 <= j < |f|
      ensures CountsAt(f, j)
    {
      if j > 0 { assert CountsAt(rest, j - 1); }
    }
  }

  lemma Mul1(n: int, m: int)
    ensures n * m == (n - 1) * m + m
  {
  }

  lemma FragmentCountCovers(len: nat, mss: nat)
    requires 0 < mss
    ensures len <= FragmentCount(len, mss) * mss && 0 < FragmentCount(len, mss)
  {
    if len > mss {
      DivBounds(len + mss - 1, mss);
      Mul1(FragmentCount(len, mss) + 1, mss);
    }
  }

  lemma OneMessage(f: seq<Segment>)
    requires CountsDown(f) && |f| > 0 && f[0].frg + 1 == |f|
    ensures Messages(f) == [Concat(f)]
  {
    MessageLengthIs(f);
    assert f[..|f|] == f && f[|f|..] == [];
  }

  // ----- sending -----

  /** The history after ikcp_send: the queue's part of the fragments is replaced by the new queue. */
  function AfterSend(h: History, cfg: Config, s: Sender, data: seq<byte>): History
    requires 0 < cfg.mss && s.nxt <= |h.frags|
  {
    var (s', code) := Send(cfg, s, data);
    h.(frags := h.frags[..s.nxt] + s'.queue,
       accepted := h.accepted + if 0 <= code <= |data| then data[..code] else [],
       sent := if code >= 0 then h.sent + [data] else h.sent)
  }

  lemma ExtendOk(cfg: Config, s: Sender, data: seq<byte>, h: History)
    requires SenderLink(s, h) && CountsDown(h.frags) && h.accepted == Concat(h.frags)
    ensures var frags := h.frags[..s.nxt] + Extend(cfg, s, data).queue;
            && CountsDown(frags)
            && Concat(frags) == h.accepted + data[..Extension(cfg, s, data)]
            && (!cfg.stream ==> frags == h.frags)
  {
    var q := s.queue;
    assert h.frags == h.frags[..s.nxt] + q;
    if cfg.stream && |q| > 0 && |q[|q| - 1].data| < cfg.mss {
      var last := |q| - 1;
      var n := Extension(cfg, s, data);
      var seg := Fresh(0, q[last].data + data[..n]);
      var init := h.frags[..s.nxt] + q[..last];
      assert h.frags == init + [q[last]];
      assert h.frags[..s.nxt] + Extend(cfg, s, data).queue == init + [seg];
      ConcatAppend(init, [q[last]]);
      ConcatAppend(init, [seg]);
      assert Concat([seg]) == seg.data + Concat([]) && Concat([q[last]]) == q[last].data + Concat([]);
      LastReplaced(h.frags, init + [seg]);
    }
  }

  lemma LastReplaced(a: seq<Segment>, b: seq<Segment>)
    requires CountsDown(a) && |a| == |b| > 0 && a[..|a| - 1] == b[..|a| - 1] && b[|b| - 1].frg == 0
    ensures CountsDown(b)
  {
    var last := |b| - 1;
    assert CountsAt(a, last);
    forall i | 0 <= i < |b|
      ensures CountsAt(b, i)
    {
      assert CountsAt(a, i);
      if i < last { assert a[i] == a[..last][i] && b[i] == b[..last][i]; }
      if i + 1 < last { assert a[i + 1] == a[..last][i + 1] && b[i + 1] == b[..last][i + 1]; }
    }
  }

  /** Appending the fragments of the rest of a message. */
  lemma AppendMessage(frags: seq<Segment>, rest: seq<byte>, mss: nat, stream: bool, count: nat)
    requires 0 < mss && CountsDown(frags) && count == FragmentCount(|rest|, mss) < WND_RCV
    ensures var f := Fragments(rest, mss, stream, 0, count);
            && CountsDown(frags + f) && Concat(frags + f) == Concat(frags) + rest
            && (!stream ==> Messages(frags + f) == Messages(frags) + [rest])
  {
    hide CountsDown, Messages, Concat, Fragments;
    var f := Fragments(rest, mss, stream, 0, count);
    FragmentCountCovers(|rest|, mss);
    FragmentsOk(rest, mss, stream, 0, count);
    CountsDownAppend(frags, f);
    ConcatAppend(frags, f);
    MessagesAppend(frags, f);
    if !stream { OneMessage(f); }
  }

  lemma SendHistory(cfg: Config, s: Sender, data: seq<byte>, h: History)
    requires ConfigOk(cfg) && SenderLink(s, h) && HistoryOk(h, cfg.stream) && h.taken <= s.nxt
    ensures HistoryOk(AfterSend(h, cfg, s, data), cfg.stream)
  {
    MssPositive(cfg);
    hide CountsDown, Messages, Concat, AfterSend, ConfigOk, BufferMatches;
    var rest := data[Extension(cfg, s, data)..];
    var count := FragmentCount(|rest|, cfg.mss);
    var frags1 := h.frags[..s.nxt] + Extend(cfg, s, data).queue;
    ExtendOk(cfg, s, data, h);
    ExtensionIs(cfg, s, data);
    AfterSendIs(cfg, s, data, h);
    if count < WND_RCV {
      AppendMessage(frags1, rest, cfg.mss, cfg.stream, count);
    }
  }

  /** The three ways ikcp_send can end. */
  lemma AfterSendIs(cfg: Config, s: Sender, data: seq<byte>, h: History)
    requires ConfigOk(cfg) && s.nxt <= |h.frags| && h.taken <= s.nxt
    ensures var n := Extension(cfg, s, data);
            var rest := data[n..];
            var count := FragmentCount(|rest|, cfg.mss);
            var frags1 := h.frags[..s.nxt] + Extend(cfg, s, data).queue;
            var h' := AfterSend(h, cfg, s, data);
            && h'.taken == h.taken && h'.delivered == h.delivered && h'.got == h.got
            && h'.frags[..h.taken] == h.frags[..h.taken]
            && if (cfg.stream && |rest| == 0) || count >= WND_RCV then
                 h'.frags == frags1 && h'.accepted == h.accepted + data[..n] && (!cfg.stream ==> h'.sent == h.sent)
               else
                 && h'.frags == frags1 + Fragments(rest, cfg.mss, cfg.stream, 0, count)
                 && h'.accepted == h.accepted + data[..n] + rest
                 && (!cfg.stream ==> h'.sent == h.sent + [rest])
  {
    hide Fragments, FragmentCount, Extend;
    var n := Extension(cfg, s, data);
    assert data[..n] + data[n..] == data && data[..|data|] == data;
    assert n == 0 ==> data[..n] == [] && data[n..] == data;
    var s1 := Extend(cfg, s, data);
    var count := FragmentCount(|data[n..]|, cfg.mss);
    if count < WND_RCV {
      assert h.frags[..s.nxt] + (s1.queue + Fragments(data[n..], cfg.mss, cfg.stream, 0, count))
          == h.frags[..s.nxt] + s1.queue + Fragments(data[n..], cfg.mss, cfg.stream, 0, count);
    }
  }

  lemma MssPositive(cfg: Config)
    requires ConfigOk(cfg)
    ensures 0 < cfg.mss
  {
  }

  lemma ExtensionIs(cfg: Config, s: Sender, data: seq<byte>)
    ensures !cfg.stream ==> Extension(cfg, s, data) == 0 && Extend(cfg, s, data) == s
    ensures Extend(cfg, s, data).buf == s.buf && Extend(cfg, s, data).nxt == s.nxt
    ensures Extension(cfg, s, data) == 0 ==> data[Extension(cfg, s, data)..] == data
  {
  }
}

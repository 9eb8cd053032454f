/** Runs of a whole connection: reliable, ordered, exactly-once delivery over an unreliable network. */
module KcpRuns {
  import opened Common
  import opened KcpTypes
  import opened KcpWire
  import opened KcpSpec
  import opened KcpInvariant
  import opened KcpNetwork
  import opened KcpLink

  datatype Event = Send(data: seq<byte>) | Recv(len: int) | Tick(now: u32) | FlushNow | Deliver(g: seq<Segment>)

  /** Endpoint a can do this: a connection carries fewer than 2^31 fragments each way, and only
      datagrams that were sent can arrive. */
  predicate Enabled(n: Net, e: Event)
    requires 0 < n.a.cfg.mss
  {
    match e
    case Send(data) => n.a.snd.nxt <= |n.ab.frags| && |AfterSend(n.ab, n.a.cfg, n.a.snd, data).frags| < HALF
    case Deliver(g) => g in n.fromB
    case _ => true
  }

  function Emitted(n: Net, r: (Kcb, seq<seq<Segment>>)): Net {
    n.(a := r.0, fromA := n.fromA + (set g | g in r.1))
  }

  /** One step of endpoint a. */
  function StepA(n: Net, e: Event): (n': Net)
    requires 0 < n.a.cfg.mss && Enabled(n, e)
    ensures n'.a.cfg == n.a.cfg && n'.b == n.b && n'.fromB == n.fromB
  {
    match e
    case Send(data) =>
      n.(a := n.a.(snd := KcpSpec.Send(n.a.cfg, n.a.snd, data).0), ab := AfterSend(n.ab, n.a.cfg, n.a.snd, data))
    case Recv(len) => n.(a := KcpSpec.Recv(n.a, len).0, ba := AfterRecv(n.ba, n.a, len))
    case Tick(now) => Emitted(n, Update(n.a, now))
    case FlushNow => Emitted(n, Flush(n.a))
    case Deliver(g) => n.(a := Input(n.a, EncodeAll(g)).0)
  }

  predicate Configured(n: Net) { 0 < n.a.cfg.mss && 0 < n.b.cfg.mss }

  /** One step of either endpoint; a step that is not enabled does nothing. */
  function Step(n: Net, atA: bool, e: Event): (n': Net)
    requires Configured(n)
    ensures Configured(n') && n'.a.cfg == n.a.cfg && n'.b.cfg == n.b.cfg
  {
    if atA then (if Enabled(n, e) then StepA(n, e) else n)
    else (if Enabled(Swap(n), e) then Swap(StepA(Swap(n), e)) else n)
  }

  function Run(n: Net, steps: seq<(bool, Event)>): (n': Net)
    requires Configured(n)
    ensures Configured(n') && n'.a.cfg == n.a.cfg && n'.b.cfg == n.b.cfg
    decreases |steps|
  {
    if |steps| == 0 then n else Run(Step(n, steps[0].0, steps[0].1), steps[1..])
  }

  function EmptyHistory(): History { History([], 0, [], [], [], []) }

  /** Two new endpoints of one conversation. */
  function Connect(cfgA: Config, cfgB: Config): Net {
    Net(Create(cfgA), Create(cfgB), {}, {}, EmptyHistory(), EmptyHistory())
  }

  // ----- one step -----

  lemma SendStep(n: Net, data: seq<byte>)
    requires NetOk(n) && 0 < n.a.cfg.mss && Enabled(n, Event.Send(data))
    ensures NetOk(StepA(n, Event.Send(data)))
  {
    hide SenderOk, ReceiverOk, DataOk, LinkOk, NetSendable, AfterSend, KcpSpec.Send;
    SendKeeps(n.a.cfg, n.a.snd, data);
    SendLink(n.a.cfg, n.a.snd, n.b.rcv, n.fromA, n.fromB, n.ab, data);
  }

  lemma RecvStep(n: Net, len: int)
    requires NetOk(n) && 0 < n.a.cfg.mss
    ensures NetOk(StepA(n, Event.Recv(len)))
  {
    hide KcbOk, NetSendable, AfterRecv, KcpSpec.Recv;
    RecvKeeps(n.a, len);
    RecvSameCfg(n.a, len);
    LinkBounds(n.b.snd, n.a.rcv, n.fromB, n.fromA, n.ba, n.b.cfg.stream);
    RecvReceiver(n.a, len, n.b.snd.nxt, n.ba);
    RecvHistory(n.a, len, n.b.snd.nxt, n.ba, n.b.cfg.stream);
    RecvLink(n, len);
  }

  lemma RecvSameCfg(k: Kcb, len: int)
    ensures KcpSpec.Recv(k, len).0.cfg == k.cfg
  {
    hide MoveReady;
  }

  lemma LinkBounds(s: Sender, r: Receiver, data: set<seq<Segment>>, acks: set<seq<Segment>>, h: History, stream: bool)
    requires LinkOk(s, r, data, acks, h, stream)
    ensures SenderLink(s, h) && ReceiverLink(s.nxt, r, h) && AcksPending(r) && NoLoss(s, r) && HistoryOk(h, stream)
    ensures r.nxt <= s.nxt <= |h.frags| < HALF && CountsDown(h.frags)
  {
  }

  /** A receiver that only gains data keeps its direction in order. */
  lemma GrowLink(s: Sender, r: Receiver, r': Receiver, data: set<seq<Segment>>, acks: set<seq<Segment>>, h: History,
                 h': History, stream: bool)
    requires LinkOk(s, r, data, acks, h, stream)
    requires ReceiverLink(s.nxt, r', h') && AcksPending(r') && HeldGrows(r, r')
    requires h'.frags == h.frags && HistoryOk(h', stream)
    ensures LinkOk(s, r', data, acks, h', stream)
  {
    hide Held, HistoryOk, ReceiverLink, AcksPending, InBuf;
    forall g: seq<Segment>, i | g in acks && 0 <= i < |g|
      ensures AckSegment(r', g[i])
    {
      assert AckSegment(r, g[i]);
    }
    assert SenderLink(s, h');
    assert DataInFlight(s.nxt, data, h') by {
      forall g: seq<Segment>, i | g in data && 0 <= i < |g|
        ensures DataSegment(s.nxt, g[i], h')
      {
        assert DataSegment(s.nxt, g[i], h);
      }
    }
  }

  lemma RecvLink(n: Net, len: int)
    requires NetOk(n)
    requires ReceiverLink(n.b.snd.nxt, KcpSpec.Recv(n.a, len).0.rcv, AfterRecv(n.ba, n.a, len))
    requires AcksPending(KcpSpec.Recv(n.a, len).0.rcv) && HeldGrows(n.a.rcv, KcpSpec.Recv(n.a, len).0.rcv)
    requires AfterRecv(n.ba, n.a, len).frags == n.ba.frags && HistoryOk(AfterRecv(n.ba, n.a, len), n.b.cfg.stream)
    ensures LinkOk(n.b.snd, KcpSpec.Recv(n.a, len).0.rcv, n.fromB, n.fromA, AfterRecv(n.ba, n.a, len), n.b.cfg.stream)
  {
    hide KcbOk, NetSendable, AfterRecv, KcpSpec.Recv, LinkOk;
    GrowLink(n.b.snd, n.a.rcv, KcpSpec.Recv(n.a, len).0.rcv, n.fromB, n.fromA, n.ba, AfterRecv(n.ba, n.a, len),
      n.b.cfg.stream);
  }

  lemma DeliverStep(n: Net, g: seq<Segment>)
    requires NetOk(n) && 0 < n.a.cfg.mss && g in n.fromB
    ensures NetOk(StepA(n, Deliver(g)))
  {
    hide KcbOk, Input, LinkOk, Held, EncodeAll;
    var k' := Input(n.a, EncodeAll(g)).0;
    InputKeeps(n.a, EncodeAll(g));
    LinkBounds(n.a.snd, n.b.rcv, n.fromA, n.fromB, n.ab, n.a.cfg.stream);
    LinkBounds(n.b.snd, n.a.rcv, n.fromB, n.fromA, n.ba, n.b.cfg.stream);
    DeliveredParts(n.a.snd, n.b.rcv, n.b.snd, n.a.rcv, n.fromA, n.fromB, n.ab, n.ba, n.a.cfg.stream, n.b.cfg.stream, g);
    DeliverSender(n.a, g, n.b.rcv, n.ab);
    DeliverReceiver(n.a, g, n.b.snd.nxt, n.ba);
    SenderMoves(n.a.snd, k'.snd, n.b.rcv, n.fromA, n.fromB, n.ab, n.a.cfg.stream);
    GrowLink(n.b.snd, n.a.rcv, k'.rcv, n.fromB, n.fromA, n.ba, n.ba, n.b.cfg.stream);
  }

  lemma DeliveredParts(s: Sender, r: Receiver, s': Sender, r': Receiver, fromA: set<seq<Segment>>,
                       fromB: set<seq<Segment>>, ab: History, ba: History, strA: bool, strB: bool, g: seq<Segment>)
    requires LinkOk(s, r, fromA, fromB, ab, strA) && LinkOk(s', r', fromB, fromA, ba, strB) && g in fromB
    ensures s'.nxt <= |ba.frags|
    ensures forall i | 0 <= i < |g| :: AckSegment(r, g[i]) && DataSegment(s'.nxt, g[i], ba)
  {
    hide Held, HistoryOk, ReceiverLink, SenderLink;
  }

  /** A sender that keeps its number and loses nothing keeps its direction in order. */
  lemma SenderMoves(s: Sender, s': Sender, r: Receiver, data: set<seq<Segment>>, acks: set<seq<Segment>>, h: History,
                    stream: bool)
    requires LinkOk(s, r, data, acks, h, stream)
    requires SenderLink(s', h) && NoLoss(s', r) && s'.nxt == s.nxt
    ensures LinkOk(s', r, data, acks, h, stream)
  {
    hide Held, HistoryOk, SenderLink, NoLoss;
  }

  lemma FlushStepKeeps(n: Net, c: Clock)
    requires NetOk(n)
    ensures NetOk(Emitted(n, Flush(n.a.(clock := c))))
  {
    var k := n.a.(clock := c);
    assert KcbOk(k);
    hide KcbOk, Flush, LinkOk, Held;
    FlushKeeps(k);
    if c.updated {
      var out := Flush(k).1;
      var sent := set g | g in out;
      LinkBounds(n.a.snd, n.b.rcv, n.fromA, n.fromB, n.ab, n.a.cfg.stream);
      LinkBounds(n.b.snd, n.a.rcv, n.fromB, n.fromA, n.ba, n.b.cfg.stream);
      FlushSender(k, n.b.rcv, n.ab);
      FlushOutput(k, n.ab);
      SenderAdvances(n.a.snd, Flush(k).0.snd, n.b.rcv, n.fromA, sent, n.fromB, n.ab, n.a.cfg.stream);
      AcksCleared(n.b.snd, n.a.rcv, n.fromB, n.fromA, sent, n.ba, n.b.cfg.stream);
    } else {
      NotUpdated(k);
      assert n.fromA + (set g | g in []) == n.fromA;
    }
  }

  /** A sender that numbers more segments and puts them on the wire. */
  lemma SenderAdvances(s: Sender, s': Sender, r: Receiver, data: set<seq<Segment>>, sent: set<seq<Segment>>,
                       acks: set<seq<Segment>>, h: History, stream: bool)
    requires LinkOk(s, r, data, acks, h, stream)
    requires SenderLink(s', h) && NoLoss(s', r) && s.nxt <= s'.nxt <= |h.frags|
    requires forall g, i | g in sent && 0 <= i < |g| :: DataSegment(s'.nxt, g[i], h)
    ensures LinkOk(s', r, data + sent, acks, h, stream)
  {
    hide Held, HistoryOk, SenderLink, NoLoss, InBuf;
    forall g: seq<Segment>, i | g in data + sent && 0 <= i < |g|
      ensures DataSegment(s'.nxt, g[i], h)
    {
      if g in data { assert DataSegment(s.nxt, g[i], h); }
    }
  }

  /** A receiver that sends its pending acknowledgements. */
  lemma AcksCleared(s: Sender, r: Receiver, data: set<seq<Segment>>, acks: set<seq<Segment>>, sent: set<seq<Segment>>,
                    h: History, stream: bool)
    requires LinkOk(s, r, data, acks, h, stream)
    requires forall g, i | g in sent && 0 <= i < |g| :: AckSegment(r, g[i])
    ensures LinkOk(s, r.(acks := []), data, acks + sent, h, stream)
  {
    var r' := r.(acks := []);
    hide HistoryOk, SenderLink;
    forall g: seq<Segment>, i | g in acks + sent && 0 <= i < |g|
      ensures AckSegment(r', g[i])
    {
      assert AckSegment(r, g[i]);
    }
    forall sn | 0 <= sn < s.nxt
      ensures Held(r', sn) || InBuf(s.buf, sn)
    {
      assert Held(r, sn) || InBuf(s.buf, sn);
    }
  }

  lemma TickStep(n: Net, now: u32)
    requires NetOk(n) && 0 < n.a.cfg.mss
    ensures NetOk(StepA(n, Tick(now)))
  {
    hide Flush, LinkOk;
    var c :| Update(n.a, now) == Flush(n.a.(clock := c)) || Update(n.a, now) == (n.a.(clock := c), [])
      by { UpdateIs(n.a, now); }
    if Update(n.a, now) == Flush(n.a.(clock := c)) {
      hide Update, NetOk;
      FlushStepKeeps(n, c);
    } else {
      hide Update, LinkOk, SenderOk, ReceiverOk, DataOk;
      assert n.fromA + (set g | g in []) == n.fromA;
    }
  }

  /** Every step of an endpoint keeps the whole connection in order. */
  lemma StepKeeps(n: Net, e: Event)
    requires NetOk(n) && 0 < n.a.cfg.mss && Enabled(n, e)
    ensures NetOk(StepA(n, e))
  {
    match e
    case Send(data) => SendStep(n, data);
    case Recv(len) => RecvStep(n, len);
    case Tick(now) => TickStep(n, now);
    case FlushNow => FlushStepKeeps(n, n.a.clock);
    case Deliver(g) => DeliverStep(n, g);
  }

  lemma SwapKeeps(n: Net)
    requires NetOk(n)
    ensures NetOk(Swap(n)) && Swap(Swap(n)) == n
  {
    hide KcbOk, LinkOk, NetSendable;
  }

  lemma {:induction false} RunKeeps(n: Net, steps: seq<(bool, Event)>)
    requires NetOk(n) && Configured(n)
    ensures NetOk(Run(n, steps))
    decreases |steps|
  {
    hide NetOk, StepA, Enabled;
    if |steps| > 0 {
      SwapKeeps(n);
      if steps[0].0 {
        if Enabled(n, steps[0].1) { StepKeeps(n, steps[0].1); }
      } else if Enabled(Swap(n), steps[0].1) {
        StepKeeps(Swap(n), steps[0].1);
        SwapKeeps(StepA(Swap(n), steps[0].1));
      }
      RunKeeps(Step(n, steps[0].0, steps[0].1), steps[1..]);
    }
  }

  lemma ConnectOk(cfgA: Config, cfgB: Config)
    requires ConfigOk(cfgA) && ConfigOk(cfgB) && cfgA.conv == cfgB.conv
    ensures NetOk(Connect(cfgA, cfgB)) && Configured(Connect(cfgA, cfgB))
  {
    var h := EmptyHistory();
    assert h.frags[..0] == [];
    assert Create(cfgA).snd.queue == h.frags[0..];
  }

  // ----- the theorems -----

  /** In every run, what the reader has been given is a prefix of what the peer's application
      has sent: byte for byte in either mode, and message by message when not streaming. */
  lemma ReliableDelivery(cfgA: Config, cfgB: Config, steps: seq<(bool, Event)>)
    requires ConfigOk(cfgA) && ConfigOk(cfgB) && cfgA.conv == cfgB.conv
    ensures var n := Run(Connect(cfgA, cfgB), steps);
            && n.ab.delivered <= n.ab.accepted && n.ba.delivered <= n.ba.accepted
            && (!cfgA.stream ==> n.ab.got <= n.ab.sent) && (!cfgB.stream ==> n.ba.got <= n.ba.sent)
  {
    ConnectOk(cfgA, cfgB);
    RunKeeps(Connect(cfgA, cfgB), steps);
    var n := Run(Connect(cfgA, cfgB), steps);
    hide KcbOk, NetSendable, SenderLink, ReceiverLink, DataInFlight, AcksInFlight, AcksPending, NoLoss, HistoryOk, Run;
    assert n.a.cfg == cfgA && n.b.cfg == cfgB;
    PrefixOf(n.ab, cfgA.stream);
    PrefixOf(n.ba, cfgB.stream);
  }

  lemma PrefixOf(h: History, stream: bool)
    requires HistoryOk(h, stream)
    ensures h.delivered <= h.accepted && (!stream ==> h.got <= h.sent)
  {
    hide CountsDown, Messages, Concat;
    var x, y := h.frags[..h.taken], h.frags[h.taken..];
    assert h.frags == x + y;
    ConcatAppend(x, y);
    CountsDownTail(h.frags, h.taken);
    MessagesAppend(x, y);
  }

  /** In every run, each numbered segment is still with its sender or already with its receiver, and
      every acknowledgement in flight names data its sender holds. */
  lemma NothingLost(cfgA: Config, cfgB: Config, steps: seq<(bool, Event)>)
    requires ConfigOk(cfgA) && ConfigOk(cfgB) && cfgA.conv == cfgB.conv
    ensures var n := Run(Connect(cfgA, cfgB), steps);
            && NoLoss(n.a.snd, n.b.rcv) && NoLoss(n.b.snd, n.a.rcv)
            && AcksInFlight(n.b.rcv, n.fromB) && AcksInFlight(n.a.rcv, n.fromA)
  {
    ConnectOk(cfgA, cfgB);
    RunKeeps(Connect(cfgA, cfgB), steps);
    hide KcbOk, NetSendable, SenderLink, ReceiverLink, DataInFlight, AcksInFlight, AcksPending, NoLoss, HistoryOk, Run;
  }

  /** In every run, an endpoint whose receive queue is full can read a message. */
  lemma NeverStuckFull(cfgA: Config, cfgB: Config, steps: seq<(bool, Event)>)
    requires ConfigOk(cfgA) && ConfigOk(cfgB) && cfgA.conv == cfgB.conv
    ensures var n := Run(Connect(cfgA, cfgB), steps);
            && (|n.a.rcv.queue| >= n.a.cfg.rcvWnd ==> PeekSize(n.a.rcv) >= 0)
            && (|n.b.rcv.queue| >= n.b.cfg.rcvWnd ==> PeekSize(n.b.rcv) >= 0)
  {
    ConnectOk(cfgA, cfgB);
    RunKeeps(Connect(cfgA, cfgB), steps);
    var n := Run(Connect(cfgA, cfgB), steps);
    hide NetSendable, SenderLink, ReceiverLink, DataInFlight, AcksInFlight, AcksPending, NoLoss, CountsDown, Run,
      PeekSize, SenderOk, DataOk, Ordered;
    LinkBounds(n.a.snd, n.b.rcv, n.fromA, n.fromB, n.ab, n.a.cfg.stream);
    LinkBounds(n.b.snd, n.a.rcv, n.fromB, n.fromA, n.ba, n.b.cfg.stream);
    if |n.a.rcv.queue| >= n.a.cfg.rcvWnd { FullQueueReadable(n.a, n.b.snd.nxt, n.ba); }
    if |n.b.rcv.queue| >= n.b.cfg.rcvWnd { FullQueueReadable(n.b, n.a.snd.nxt, n.ab); }
  }
}

/** What the calls of an application promise: when ikcp_send takes data, when ikcp_recv has a message,
    and when ikcp_update flushes. */
module KcpCalls {
  import opened Common
  import opened KcpTypes
  import opened KcpSpec
  import opened KcpInvariant
  import opened KcpNetwork
  import opened KcpLink
  import opened KcpReceive
  import opened KcpTiming

  // ----- sending -----

  /** How many bytes stream mode adds to the last queued segment. */
  function Fill(cfg: Config, s: Sender, len: nat): nat {
    if cfg.stream && |s.queue| > 0 then Min(len, Max(cfg.mss - |s.queue[|s.queue| - 1].data|, 0)) else 0
  }

  lemma CountBound(len: nat, mss: nat, n: nat)
    requires 0 < mss && 0 < n
    ensures FragmentCount(len, mss) > n <==> len > n * mss
  {
    FragmentCountCovers(len, mss);
    var c := FragmentCount(len, mss);
    if c <= n { Monotone(c, n, mss); } else { Monotone(n, c - 1, mss); }
    if len > mss {
      DivBounds(len + mss - 1, mss);
      Distribute(c, 1, mss);
      Distribute(c - 1, 1, mss);
    } else {
      Monotone(1, n, mss);
    }
  }

  /** ikcp_send takes everything unless what is left after filling up the last segment is more than 127
      segments; then it takes only that filling, or refuses when there is none. */
  lemma SendTakes(cfg: Config, s: Sender, data: seq<byte>)
    requires 0 < cfg.mss
    ensures var fill := Fill(cfg, s, |data|);
            Send(cfg, s, data).1
            == if |data| - fill <= 127 * cfg.mss then |data| else if fill > 0 then fill else -2
  {
    hide FragmentCount;
    CountBound(|data| - Extension(cfg, s, data), cfg.mss, 127);
    FragmentCountCovers(|data| - Extension(cfg, s, data), cfg.mss);
  }

  /** Only the last fragment of a message may be short. */
  lemma {:induction false} FragmentsFull(data: seq<byte>, mss: nat, stream: bool, i: nat, count: nat)
    requires 0 < mss && i <= count <= WND_RCV && |data| > (count - i - 1) * mss
    ensures forall j | 0 <= j < count - i - 1 :: |Fragments(data, mss, stream, i, count)[j].data| == mss
    decreases count - i
  {
    if i + 1 < count {
      Distribute(count - i - 2, 1, mss);
      assert (count - i - 2) * mss >= 0;
      FragmentsFull(data[mss..], mss, stream, i + 1, count);
    }
  }

  // ----- receiving -----

  /** The first message is queued completely: as many segments as its first fragment number says. */
  predicate MessageReady(r: Receiver) { |r.queue| > 0 && |r.queue| > r.queue[0].frg }

  /** n segments, up to and including the first with fragment number 0. */
  ghost predicate FirstIs(q: seq<Segment>, n: nat) {
    n <= |q| && (forall i | 0 <= i < n - 1 :: q[i].frg != 0) && (n < |q| ==> n > 0 && q[n - 1].frg == 0)
  }

  lemma {:induction false} FirstLength(q: seq<Segment>)
    ensures FirstIs(q, MessageLength(q))
    decreases |q|
  {
    if |q| > 0 && q[0].frg != 0 {
      FirstLength(q[1..]);
      assert forall i | 1 <= i < |q| :: q[i] == q[1..][i - 1];
    }
  }

  lemma PeekIs(r: Receiver)
    requires r.nQueue == |r.queue|
    ensures PeekSize(r) == if MessageReady(r) then |Concat(r.queue[..MessageLength(r.queue)])| else -1
  {
    if |r.queue| > 0 && r.queue[0].frg == 0 {
      assert r.queue[..1] == [r.queue[0]];
      assert Concat([r.queue[0]]) == r.queue[0].data + Concat([]);
    }
  }

  /** What ikcp_recv returns: -1 for an empty queue, -2 for an incomplete message, -3 for one that does not
      fit, and otherwise the size and the data of the first message. */
  lemma RecvReturns(k: Kcb, len: int)
    requires k.rcv.nQueue == |k.rcv.queue|
    ensures var res, n := Recv(k, len).1, MessageLength(k.rcv.queue);
            var message := Concat(k.rcv.queue[..n]);
            && FirstIs(k.rcv.queue, n)
            && res == if |k.rcv.queue| == 0 then Received(-1, [])
                      else if !MessageReady(k.rcv) then Received(-2, [])
                      else if |message| > (if len < 0 then -len else len) then Received(-3, [])
                      else Received(|message|, message)
  {
    PeekIs(k.rcv);
    FirstLength(k.rcv.queue);
    hide PeekSize, MoveReady, Concat, FirstIs, MessageLength;
  }

  /** What ikcp_recv does: a successful one takes the message off the queue unless it only peeks, moves on
      what can follow, and asks to tell the window when the queue was full and is not any more. Any other
      call changes nothing. */
  lemma RecvDoes(k: Kcb, len: int)
    requires k.rcv.nQueue == |k.rcv.queue|
    ensures var k', code, n := Recv(k, len).0, Recv(k, len).1.code, MessageLength(k.rcv.queue);
            if code < 0 then k' == k
            else
              var left := if len < 0 then k.rcv.queue else k.rcv.queue[n..];
              && k'.rcv.queue + k'.rcv.buf == left + k.rcv.buf && Drained(k'.rcv, k.cfg.rcvWnd)
              && Advanced(k.rcv.(queue := left, nQueue := |left|), k'.rcv) && k'.rcv.acks == k.rcv.acks
              && k'.flow == k.flow.(askTell := k.flow.askTell || |k'.rcv.queue| < k.cfg.rcvWnd <= |k.rcv.queue|)
              && k' == k.(rcv := k'.rcv, flow := k'.flow)
  {
    var n := MessageLength(k.rcv.queue);
    hide PeekSize, MoveReady, Concat;
    if Recv(k, len).1.code >= 0 {
      var taken := if len < 0 then k.rcv else k.rcv.(queue := k.rcv.queue[n..], nQueue := k.rcv.nQueue - n);
      MoveReadyDrains(taken, k.cfg.rcvWnd);
    }
  }

  // ----- updating -----

  /** A flush is due at the first call, when its time has come, and when the clock has jumped back. */
  predicate FlushDue(c: Clock, now: u32) {
    !c.updated || TimeDiff(now, c.tsFlush) >= 0 || TimeDiff(now, c.tsFlush) < -10000
  }

  /** The clock after an update that flushes: the next flush is at most an interval ahead. */
  ghost predicate FlushClock(c: Clock, c': Clock, now: u32, interval: u32) {
    && c' == c.(current := now, updated := true, tsFlush := c'.tsFlush)
    && 0 < TimeDiff(c'.tsFlush, now) <= interval
  }

  /** ikcp_update flushes when a flush is due, and only moves the clock otherwise. */
  lemma UpdateFlushes(k: Kcb, now: u32)
    requires 0 < k.cfg.interval < HALF
    ensures if FlushDue(k.clock, now) then
              exists c: Clock :: FlushClock(k.clock, c, now, k.cfg.interval) && Update(k, now) == Flush(k.(clock := c))
            else Update(k, now) == (k.(clock := k.clock.(current := now)), [])
  {
    UpdateUnfolds(k, now);
    DueSplits(k.clock, now);
    hide Flush, TimeDiff, Wrap, Update;
    if FlushDue(k.clock, now) {
      var base := FlushBase(k.clock, now);
      NextFlush(now, base, k.cfg.interval);
      var c := k.clock.(current := now, updated := true, tsFlush := FlushNext(base, now, k.cfg.interval));
      assert FlushClock(k.clock, c, now, k.cfg.interval);
    }
  }

  /** The flush time an update starts from: the clock itself at the first call and after a jump. */
  function FlushBase(c: Clock, now: u32): u32 {
    var slap := TimeDiff(now, c.tsFlush);
    if !c.updated || slap >= 10000 || slap < -10000 then now else c.tsFlush
  }

  function FlushNext(base: u32, now: u32, interval: u32): u32 {
    var next := Wrap(base + interval);
    if TimeDiff(now, next) >= 0 then Wrap(now + interval) else next
  }

  lemma UpdateUnfolds(k: Kcb, now: u32)
    ensures var next := FlushNext(FlushBase(k.clock, now), now, k.cfg.interval);
            Update(k, now) == if FlushDue(k.clock, now)
                              then Flush(k.(clock := k.clock.(current := now, updated := true, tsFlush := next)))
                              else (k.(clock := k.clock.(current := now)), [])
  {
    SameTime(now);
    hide Flush, TimeDiff, Wrap;
  }

  lemma DueSplits(c: Clock, now: u32)
    ensures FlushDue(c, now) ==> 0 <= TimeDiff(now, FlushBase(c, now)) < 10000
  {
    SameTime(now);
    hide TimeDiff;
  }

  lemma SameTime(now: u32)
    ensures TimeDiff(now, now) == 0
  {
  }

  lemma NextFlush(now: u32, base: u32, interval: u32)
    requires 0 < interval < HALF && 0 <= TimeDiff(now, base) < 10000
    ensures 0 < TimeDiff(FlushNext(base, now, interval), now) <= interval
  {
    var e := Off(base, now);
    SinceBase(base, now);
    Times(base, e, interval);
    OffZero(base, now);
    Times(now, 0, interval);
    OffZero(now, now);
    hide TimeDiff, Wrap, Off;
  }

  lemma SinceBase(base: u32, now: u32)
    requires 0 <= TimeDiff(now, base)
    ensures Off(base, now) == TimeDiff(now, base)
  {
  }

  /** Times after a base compare as their distances from it. */
  lemma Times(base: u32, d: nat, e: nat)
    requires d < HALF && e < HALF
    ensures TimeDiff(Wrap(base + d), Wrap(base + e)) == d - e && TimeDiff(Wrap(base + e), Wrap(base + d)) == e - d
  {
    OffNext(base, d);
    OffNext(base, e);
    TimeDiffIsOrder(base, Wrap(base + d), Wrap(base + e));
    TimeDiffIsOrder(base, Wrap(base + e), Wrap(base + d));
  }

  // ----- when to update next -----

  ghost predicate Waits(buf: seq<Segment>, now: u32, i: nat, d: int) {
    exists j :: i <= j < |buf| && TimeDiff(buf[j].resendts, now) == d
  }

  ghost predicate SomeDue(buf: seq<Segment>, now: u32, i: nat) {
    exists j :: i <= j < |buf| && TimeDiff(buf[j].resendts, now) <= 0
  }

  lemma {:induction false} NearestIs(buf: seq<Segment>, now: u32, i: nat, best: int)
    requires i <= |buf| && 0 < best
    ensures var d := NearestDeadline(buf, now, i, best);
            if SomeDue(buf, now, i) then d == -1 else 0 < d && (d == best || Waits(buf, now, i, d))
    decreases |buf| - i
  {
    hide TimeDiff;
    if i < |buf| {
      var diff := TimeDiff(buf[i].resendts, now);
      if diff > 0 { NearestIs(buf, now, i + 1, if diff < best then diff else best); }
    }
  }

  /** ikcp_check says now exactly when a flush or a retransmission is due, and otherwise a time that is not
      early: the interval from now, the next flush, or the deadline of some segment. */
  lemma CheckIsExact(k: Kcb, now: u32)
    requires 0 < k.cfg.interval
    ensures Check(k, now) == now <==> FlushDue(k.clock, now) || SomeDue(k.snd.buf, now, 0)
    ensures var w := Wrap(Check(k, now) - now);
            Check(k, now) != now ==>
              w == k.cfg.interval || w == TimeDiff(k.clock.tsFlush, now) || Waits(k.snd.buf, now, 0, w)
  {
    NearestIs(k.snd.buf, now, 0, 0x7fff_ffff);
    if !FlushDue(k.clock, now) && !SomeDue(k.snd.buf, now, 0) {
      WaitBounds(k.clock.tsFlush, now);
      var packet := NearestDeadline(k.snd.buf, now, 0, 0x7fff_ffff);
      var w := Min(Min(packet, TimeDiff(k.clock.tsFlush, now)), k.cfg.interval);
      WaitLength(now, w);
      NotNow(now, w);
    }
    hide TimeDiff, NearestDeadline, SomeDue, Waits;
  }

  lemma NotNow(now: u32, w: nat)
    requires 0 < w <= 10000
    ensures Wrap(now + w) != now
  {
  }
}

/** What ikcp_flush owes: acknowledgements, new data while the window allows, and data whose
    deadline has passed. */
module KcpRetransmit {
  import opened Common
  import opened KcpTypes
  import opened KcpWire
  import opened KcpSpec
  import opened KcpOutput
  import opened KcpInvariant
  import opened KcpCongestion

  /** The segment is in one of the datagrams. */
  ghost predicate Goes(out: seq<seq<Segment>>, seg: Segment) {
    exists g :: g in out && seg in g
  }

  lemma {:induction false} FlattenIsMembers(out: seq<seq<Segment>>, seg: Segment)
    ensures seg in Flatten(out) <==> Goes(out, seg)
    decreases |out|
  {
    if |out| > 0 {
      FlattenIsMembers(out[1..], seg);
      assert Flatten(out) == out[0] + Flatten(out[1..]);
      assert forall g :: g in out <==> g == out[0] || g in out[1..];
      if seg in out[0] { assert out[0] in out; }
      if Goes(out, seg) {
        var g :| g in out && seg in g;
        if g != out[0] { assert g in out[1..]; }
      }
      if Goes(out[1..], seg) {
        var g :| g in out[1..] && seg in g;
        assert g in out;
      }
    }
  }

  // ----- new data -----

  /** How much of its window a sender has free. */
  function Room(k: Kcb): nat {
    var limit := Min(k.cfg.sndWnd, k.flow.rmtWnd);
    var window := if k.cfg.noCwnd then limit else Min(limit, k.cc.cwnd);
    Max(window - Off(k.snd.una, k.snd.nxt), 0)
  }

  /** The first n queued segments are numbered from snd_nxt on and put at the end of the buffer, as data
      that has not been sent. */
  ghost predicate Numbered(s: Sender, s': Sender, conv: u32, n: nat) {
    && n <= |s.queue| && s'.queue == s.queue[n..] && |s'.buf| == |s.buf| + n && s'.buf[..|s.buf|] == s.buf
    && s'.una == s.una && s'.nxt == Wrap(s.nxt + n)
    && (forall j: nat | j < n :: New(s, s'.buf, conv, j))
  }

  /** Entry j after the old buffer is queued segment j, numbered and not sent yet. */
  ghost predicate New(s: Sender, buf: seq<Segment>, conv: u32, j: nat) {
    && j < |s.queue| && |s.buf| + j < |buf|
    && var seg := buf[|s.buf| + j];
       && seg.sn == Wrap(s.nxt + j) && seg.data == s.queue[j].data && seg.frg == s.queue[j].frg
       && seg.conv == conv && seg.cmd == CMD_PUSH && seg.xmit == 0 && seg.fastack == 0
  }

  /** The block after one turn of the loop that fills the window. */
  function FillOne(k: Kcb): Kcb
    requires |k.snd.queue| > 0
  {
    k.(snd := k.snd.(queue := k.snd.queue[1..], nQueue := k.snd.nQueue - 1,
                     buf := k.snd.buf + [Stamp(k, k.snd.queue[0])], nBuf := k.snd.nBuf + 1,
                     nxt := Wrap(k.snd.nxt + 1)))
  }

  lemma FillUnfolds(k: Kcb, cwnd: u32)
    ensures if TimeDiff(k.snd.nxt, Wrap(k.snd.una + cwnd)) < 0 && |k.snd.queue| > 0
            then FillWindow(k, cwnd) == FillWindow(FillOne(k), cwnd) else FillWindow(k, cwnd) == k
  {
    hide TimeDiff, Stamp;
  }

  lemma {:induction false} FillNumbers(k: Kcb, cwnd: u32)
    requires KcbOk(k) && cwnd <= 65535
    ensures var room := Max(cwnd - Off(k.snd.una, k.snd.nxt), 0);
            Numbered(k.snd, FillWindow(k, cwnd).snd, k.cfg.conv, Min(|k.snd.queue|, room))
    decreases |k.snd.queue|
  {
    hide KcbOk, Off, TimeDiff, Numbered, New, Wrap, FillWindow, Stamp;
    OkSpan(k);
    WindowTest(k.snd.una, k.snd.nxt, cwnd);
    FillUnfolds(k, cwnd);
    if TimeDiff(k.snd.nxt, Wrap(k.snd.una + cwnd)) < 0 && |k.snd.queue| > 0 {
      var k1 := FillOne(k);
      OneFilled(k, cwnd);
      FillNumbers(k1, cwnd);
      WindowRoom(k.snd.una, k.snd.nxt, cwnd);
      StampIsNew(k);
      NumberOne(k.snd, k1.snd, FillWindow(k1, cwnd).snd, k.cfg.conv,
        Min(|k1.snd.queue|, Max(cwnd - Off(k.snd.una, k.snd.nxt), 0) - 1));
    } else {
      NumberNone(k.snd, k.cfg.conv);
    }
  }

  lemma StampIsNew(k: Kcb)
    requires |k.snd.queue| > 0
    ensures New(k.snd, k.snd.buf + [Stamp(k, k.snd.queue[0])], k.cfg.conv, 0)
  {
  }

  lemma OkSpan(k: Kcb)
    requires KcbOk(k)
    ensures Off(k.snd.una, k.snd.nxt) <= 65535
  {
  }

  lemma WindowTest(una: u32, nxt: u32, cwnd: u32)
    requires Off(una, nxt) <= 65535 && cwnd <= 65535
    ensures TimeDiff(nxt, Wrap(una + cwnd)) < 0 <==> Off(una, nxt) < cwnd
  {
    OffNext(una, cwnd);
    TimeDiffIsOrder(una, nxt, Wrap(una + cwnd));
  }

  /** One turn of the loop keeps the block in order. */
  lemma OneFilled(k: Kcb, cwnd: u32)
    requires KcbOk(k) && cwnd <= 65535 && TimeDiff(k.snd.nxt, Wrap(k.snd.una + cwnd)) < 0 && |k.snd.queue| > 0
    ensures KcbOk(FillOne(k))
  {
    hide Ordered, Off, TimeDiff, Stamp, ReceiverOk;
    var s := k.snd;
    StampFields(k, s.queue[0]);
    WindowRoom(s.una, s.nxt, cwnd);
    AppendKeeps(s.una, s.nxt, s.buf, Stamp(k, s.queue[0]));
    OffZeroAt(s.una, s.nxt);
  }

  lemma NumberNone(s: Sender, conv: u32)
    ensures Numbered(s, s, conv, 0)
  {
  }

  lemma NumberOne(s: Sender, s1: Sender, s2: Sender, conv: u32, n: nat)
    requires |s.queue| > 0 && New(s, s1.buf, conv, 0) && s1.queue == s.queue[1..]
    requires |s1.buf| == |s.buf| + 1 && s1.buf[..|s.buf|] == s.buf
    requires s1.una == s.una && s1.nxt == Wrap(s.nxt + 1) && Numbered(s1, s2, conv, n)
    ensures Numbered(s, s2, conv, n + 1)
  {
    hide Wrap;
    WrapSteps(s.nxt, n);
    assert s2.buf[..|s.buf|] == s2.buf[..|s1.buf|][..|s.buf|] == s.buf;
    forall j: nat | j < n + 1 ensures New(s, s2.buf, conv, j) {
      if j == 0 {
        assert s2.buf[|s.buf|] == s2.buf[..|s1.buf|][|s.buf|];
      } else {
        assert New(s1, s2.buf, conv, j - 1);
        WrapSteps(s.nxt, j - 1);
      }
    }
  }

  lemma WrapSteps(a: u32, n: nat)
    ensures Wrap(Wrap(a + 1) + n) == Wrap(a + (n + 1))
  {
  }

  /** A flush numbers exactly as many queued segments as the window has room for. */
  lemma FlushFills(k: Kcb)
    requires KcbOk(k)
    ensures Numbered(k.snd, Filled(k).snd, k.cfg.conv, Min(|k.snd.queue|, Room(k)))
  {
    AfterProbesOk(k);
    RoomIs(k);
    hide *;
    FillNumbers(AfterProbes(k), SendWindow(AfterProbes(k)));
  }

  lemma RoomIs(k: Kcb)
    ensures AfterProbes(k).snd == k.snd && AfterProbes(k).cfg == k.cfg
    ensures Filled(k) == FillWindow(AfterProbes(k), SendWindow(AfterProbes(k)))
    ensures Room(k) == Max(SendWindow(AfterProbes(k)) - Off(k.snd.una, k.snd.nxt), 0)
  {
    hide FillWindow, Off, TimeDiff;
  }

  // ----- what is due -----

  /** Sent before, and its deadline has passed. */
  predicate Expired(now: u32, seg: Segment) { seg.xmit > 0 && TimeDiff(now, seg.resendts) >= 0 }

  /** The skip count from which a segment is sent again early. */
  function SkipLimit(cfg: Config): u32 { if cfg.fastResend > 0 then cfg.fastResend else 0xffff_ffff }

  /** Skipped often enough by later acknowledgements, and not sent too often yet. */
  predicate Skipped(cfg: Config, seg: Segment) {
    seg.fastack >= SkipLimit(cfg) && (cfg.fastLimit <= 0 || Signed(seg.xmit) <= cfg.fastLimit)
  }

  predicate Due(cfg: Config, now: u32, seg: Segment) {
    seg.xmit == 0 || Expired(now, seg) || Skipped(cfg, seg)
  }

  /** How long a segment waits after a timeout: at least twice as long as before, or half as long again. */
  function Backoff(cfg: Config, rto: u32, seg: Segment): nat {
    seg.rto + if cfg.nodelay == 0 then Max(seg.rto, rto) else if cfg.nodelay == 1 then seg.rto / 2 else rto / 2
  }

  /** seg' is seg sent once more: the same data, stamped with the time, the free window and what is
      expected next. */
  ghost predicate SentAgain(k: Kcb, seg: Segment, seg': Segment) {
    && seg'.sn == seg.sn && seg'.data == seg.data && seg'.frg == seg.frg && seg'.conv == seg.conv && seg'.cmd == seg.cmd
    && seg'.xmit == Wrap(seg.xmit + 1) && seg'.ts == k.clock.current && seg'.una == k.rcv.nxt
    && seg'.wnd == Max(k.cfg.rcvWnd - |k.rcv.queue|, 0)
  }

  /** The next deadline: rto ahead at first, and an eighth of that; after a timeout rto backs off; an
      early resend starts the wait again and forgets the skips. */
  ghost predicate Rescheduled(k: Kcb, seg: Segment, seg': Segment) {
    var now, rto := k.clock.current, k.clock.rto;
    if seg.xmit == 0 then
      seg'.rto == rto && seg'.resendts == Wrap(now + rto + if k.cfg.nodelay == 0 then rto / 8 else 0)
    else if Expired(now, seg) then
      && seg'.resendts == Wrap(now + seg'.rto)
      && (seg.rto < 0x4000_0000 && rto < HALF ==> seg'.rto == Backoff(k.cfg, rto, seg))
    else seg'.rto == seg.rto && seg'.fastack == 0 && seg'.resendts == Wrap(now + seg.rto)
  }

  lemma PassedMeans(k: Kcb, seg: Segment)
    requires k.rcv.nQueue == |k.rcv.queue|
    ensures NeedSend(k, seg) == Keep <==> !Due(k.cfg, k.clock.current, seg)
    ensures Due(k.cfg, k.clock.current, seg) ==>
      SentAgain(k, seg, Passed(k, seg)) && Rescheduled(k, seg, Passed(k, seg))
    ensures !Due(k.cfg, k.clock.current, seg) ==> Passed(k, seg) == seg
    ensures NeedSend(k, seg) == Timeout <==> Expired(k.clock.current, seg)
    ensures NeedSend(k, seg) == Fast <==>
      seg.xmit > 0 && !Expired(k.clock.current, seg) && Skipped(k.cfg, seg)
  {
    hide TimeDiff;
    if Expired(k.clock.current, seg) && seg.rto < 0x4000_0000 && k.clock.rto < HALF { BackoffFits(k, seg); }
  }

  lemma BackoffFits(k: Kcb, seg: Segment)
    requires seg.rto < 0x4000_0000 && k.clock.rto < HALF
    ensures var step := if k.cfg.nodelay == 0 then Max(seg.rto, k.clock.rto)
                        else Half(Signed(if k.cfg.nodelay < 2 then seg.rto else k.clock.rto));
            Wrap(seg.rto + step) == Backoff(k.cfg, k.clock.rto, seg)
  {
  }

  lemma {:induction false} DueMembers(k: Kcb, buf: seq<Segment>, i: nat, seg: Segment)
    requires i <= |buf|
    ensures seg in DueSegments(k, buf, i) <==>
      exists j :: i <= j < |buf| && NeedSend(k, buf[j]) != Keep && seg == Passed(k, buf[j])
    decreases |buf| - i
  {
    hide NeedSend, Passed;
    if i < |buf| { DueMembers(k, buf, i + 1, seg); }
  }

  lemma FilledFrame(k: Kcb)
    ensures Filled(k).cfg == k.cfg && Filled(k).clock == k.clock && Filled(k).cc == k.cc
    ensures Filled(k).rcv == k.rcv.(acks := [])
    ensures UnusedWindow(Filled(k)) == UnusedWindow(k)
  {
    hide FillWindow, SendWindow, Probe;
    FillWindowFrame(AfterProbes(k), SendWindow(AfterProbes(k)));
    FillWindowKeepsRcv(AfterProbes(k), SendWindow(AfterProbes(k)));
  }

  lemma {:induction false} FillWindowKeepsRcv(k: Kcb, cwnd: u32)
    ensures FillWindow(k, cwnd).rcv == k.rcv
    decreases |k.snd.queue|
  {
    hide FillWindow;
    FillUnfolds(k, cwnd);
    if TimeDiff(k.snd.nxt, Wrap(k.snd.una + cwnd)) < 0 && |k.snd.queue| > 0 { FillWindowKeepsRcv(FillOne(k), cwnd); }
  }

  /** Of the buffered segments a flush sends exactly those that were never sent, have missed their
      deadline or were skipped often enough. Each goes out once more and is rescheduled; the others stay
      as they are, and no datagram carries their number. */
  lemma FlushSendsDue(k: Kcb, i: nat)
    requires KcbOk(k) && k.clock.updated && i < |Filled(k).snd.buf|
    ensures |Flush(k).0.snd.buf| == |Filled(k).snd.buf|
    ensures var seg, seg' := Filled(k).snd.buf[i], Flush(k).0.snd.buf[i];
            if Due(k.cfg, k.clock.current, seg) then
              Goes(Flush(k).1, seg') && SentAgain(k, seg, seg') && Rescheduled(k, seg, seg')
            else seg' == seg && forall s :: Goes(Flush(k).1, s) && s.cmd == CMD_PUSH ==> s.sn != seg.sn
  {
    hide *;
    var k2, d0 := Filled(k), DataStart(Filled(k), Control(k));
    FlushUnfolds(k);
    FlushSends(k);
    FilledFrame(k);
    FilledOk(k);
    DataStartIs(k2, Control(k));
    FlushDataBuffer(k2, d0, 0);
    var seg := k2.snd.buf[i];
    QueueCounted(k);
    QueueCounted(k2);
    PassedMeans(k2, seg);
    SameStamps(k, k2, seg, Passed(k2, seg));
    var due := DueSegments(k2, k2.snd.buf, 0);
    if Due(k.cfg, k.clock.current, seg) {
      DueMembers(k2, k2.snd.buf, 0, Passed(k2, seg));
      FlattenIsMembers(Flush(k).1, Passed(k2, seg));
    } else {
      forall s | Goes(Flush(k).1, s) && s.cmd == CMD_PUSH ensures s.sn != seg.sn {
        FlattenIsMembers(Flush(k).1, s);
        ControlIsNotData(k, s);
        DueMembers(k2, k2.snd.buf, 0, s);
        OthersDiffer(k2, i, s);
      }
    }
  }

  lemma DataStartIs(k: Kcb, p: Packer)
    ensures DataStart(k, p).buf == k.snd.buf
  {
  }

  lemma QueueCounted(k: Kcb)
    requires KcbOk(k)
    ensures k.rcv.nQueue == |k.rcv.queue|
  {
  }

  lemma SameStamps(k: Kcb, k2: Kcb, seg: Segment, seg': Segment)
    requires k2.cfg == k.cfg && k2.clock == k.clock && k2.rcv == k.rcv.(acks := [])
    ensures SentAgain(k2, seg, seg') ==> SentAgain(k, seg, seg')
    ensures Rescheduled(k2, seg, seg') ==> Rescheduled(k, seg, seg')
  {
    hide TimeDiff;
  }

  lemma ControlIsNotData(k: Kcb, s: Segment)
    ensures s in ControlSegments(k) ==> s.cmd != CMD_PUSH
  {
    hide Probe;
  }

  /** A segment that is sent does not have the number of one that is not. */
  lemma OthersDiffer(k: Kcb, i: nat, s: Segment)
    requires KcbOk(k) && i < |k.snd.buf| && NeedSend(k, k.snd.buf[i]) == Keep
    ensures (exists j :: 0 <= j < |k.snd.buf| && NeedSend(k, k.snd.buf[j]) != Keep && s == Passed(k, k.snd.buf[j])) ==>
      s.sn != k.snd.buf[i].sn
  {
    hide NeedSend, Passed, Off;
    forall j | 0 <= j < |k.snd.buf| && NeedSend(k, k.snd.buf[j]) != Keep
      ensures Passed(k, k.snd.buf[j]).sn != k.snd.buf[i].sn
    {
      PassedFields(k, k.snd.buf[j]);
      assert j != i && Off(k.snd.una, k.snd.buf[j].sn) != Off(k.snd.una, k.snd.buf[i].sn);
    }
  }

  // ----- losses -----

  ghost predicate SomeExpired(now: u32, buf: seq<Segment>, i: nat) {
    exists j :: i <= j < |buf| && Expired(now, buf[j])
  }

  predicate Early(cfg: Config, now: u32, seg: Segment) { seg.xmit > 0 && !Expired(now, seg) && Skipped(cfg, seg) }

  ghost predicate SomeEarly(cfg: Config, now: u32, buf: seq<Segment>, i: nat) {
    exists j :: i <= j < |buf| && Early(cfg, now, buf[j])
  }

  /** How many segments from i on have missed their deadline. */
  function Losses(now: u32, buf: seq<Segment>, i: nat): nat
    requires i <= |buf|
    decreases |buf| - i
  {
    if i == |buf| then 0 else (if Expired(now, buf[i]) then 1 else 0) + Losses(now, buf, i + 1)
  }

  /** Some segment sent from i on has now been sent deadLink times. */
  ghost predicate SomeWornOut(k: Kcb, buf: seq<Segment>, i: nat) {
    exists j :: i <= j < |buf| && WornOut(k, buf[j])
  }

  predicate WornOut(k: Kcb, seg: Segment) {
    Due(k.cfg, k.clock.current, seg) && Wrap(seg.xmit + 1) >= k.cfg.deadLink
  }

  lemma {:induction false} FlagsMean(k: Kcb, d: DataFlush, i: nat)
    requires i <= |d.buf| && k.rcv.nQueue == |k.rcv.queue|
    ensures var r, now := FlushData(k, d, i), k.clock.current;
            && (r.lost <==> d.lost || SomeExpired(now, d.buf, i))
            && (r.change > 0 <==> d.change > 0 || SomeEarly(k.cfg, now, d.buf, i))
            && r.xmit == Wrap(d.xmit + Losses(now, d.buf, i))
            && (r.dead <==> d.dead || SomeWornOut(k, d.buf, i))
    decreases |d.buf| - i
  {
    hide NeedSend, Passed, Put, Due, Expired, Early;
    WrapSum(d.xmit, 0, 0);
    if i < |d.buf| {
      PassedMeans(k, d.buf[i]);
      EarlyIs(k, d.buf[i]);
      SentCount(k, d.buf[i], Passed(k, d.buf[i]));
      var d' := FlushStep(k, d, i);
      FlushStepBuffer(k, d, i);
      FlagsMean(k, d', i + 1);
      TailFlags(k, d.buf, d'.buf, i);
      WrapSum(d.xmit, if Expired(k.clock.current, d.buf[i]) then 1 else 0, Losses(k.clock.current, d.buf, i + 1));
    }
  }

  lemma EarlyIs(k: Kcb, seg: Segment)
    ensures Early(k.cfg, k.clock.current, seg) <==>
      seg.xmit > 0 && !Expired(k.clock.current, seg) && Skipped(k.cfg, seg)
  {
  }

  lemma SentCount(k: Kcb, seg: Segment, seg': Segment)
    ensures SentAgain(k, seg, seg') ==> seg'.xmit == Wrap(seg.xmit + 1)
  {
  }

  lemma WrapSum(a: u32, b: nat, c: nat)
    ensures Wrap(Wrap(a + b) + c) == Wrap(a + (b + c)) && Wrap(a) == a
  {
  }

  lemma {:induction false} LossesAgree(now: u32, a: seq<Segment>, b: seq<Segment>, i: nat)
    requires i <= |a| == |b| && forall j | i <= j < |a| :: a[j] == b[j]
    ensures Losses(now, a, i) == Losses(now, b, i)
    decreases |a| - i
  {
    hide Expired;
    if i < |a| { LossesAgree(now, a, b, i + 1); }
  }

  lemma TailFlags(k: Kcb, a: seq<Segment>, b: seq<Segment>, i: nat)
    requires i < |a| == |b| && forall j | i < j < |a| :: a[j] == b[j]
    ensures SomeExpired(k.clock.current, a, i) <==>
      Expired(k.clock.current, a[i]) || SomeExpired(k.clock.current, b, i + 1)
    ensures SomeEarly(k.cfg, k.clock.current, a, i) <==>
      Early(k.cfg, k.clock.current, a[i]) || SomeEarly(k.cfg, k.clock.current, b, i + 1)
    ensures SomeWornOut(k, a, i) <==> WornOut(k, a[i]) || SomeWornOut(k, b, i + 1)
    ensures Losses(k.clock.current, a, i + 1) == Losses(k.clock.current, b, i + 1)
  {
    hide Expired, Early, WornOut;
    LossesAgree(k.clock.current, a, b, i + 1);
  }

  /** The send window, as it limits a flush. */
  function Window(k: Kcb): nat {
    var limit := Min(k.cfg.sndWnd, k.flow.rmtWnd);
    if k.cfg.noCwnd then limit else Min(limit, k.cc.cwnd)
  }

  /** A missed deadline takes the congestion window down to one segment and the threshold to half the
      window. Early resends alone set the threshold to half of what is in flight and the window above it.
      Otherwise a flush leaves both alone, but for a window of zero. Every missed deadline is counted, and
      the link is dead once a segment has been sent deadLink times. */
  lemma FlushLosses(k: Kcb)
    requires KcbOk(k) && k.clock.updated
    ensures var k2, k', now := Filled(k), Flush(k).0, k.clock.current;
            var buf := k2.snd.buf;
            && (SomeExpired(now, buf, 0) ==>
                  k'.cc.cwnd == 1 && k'.cc.incr == k.cfg.mss && k'.cc.ssthresh == Max(Window(k) / 2, 2))
            && (!SomeExpired(now, buf, 0) && SomeEarly(k.cfg, now, buf, 0) ==>
                  && k'.cc.ssthresh == Max(Off(k2.snd.una, k2.snd.nxt) / 2, 2)
                  && k'.cc.cwnd == Max(Wrap(k'.cc.ssthresh + SkipLimit(k.cfg)), 1))
            && (!SomeExpired(now, buf, 0) && !SomeEarly(k.cfg, now, buf, 0) ==>
                  k'.cc == if k.cc.cwnd < 1 then k.cc.(cwnd := 1, incr := k.cfg.mss) else k.cc)
            && k'.clock.xmit == Wrap(k.clock.xmit + Losses(now, buf, 0))
            && (k'.clock.dead <==> k.clock.dead || SomeWornOut(k, buf, 0))
  {
    hide *;
    var k2, d0 := Filled(k), DataStart(Filled(k), Control(k));
    FlushCongestion(k);
    FlushClock(k);
    FilledFrame(k);
    DataStartIs(k2, Control(k));
    DataStartFlags(k2, Control(k));
    FilledOk(k);
    QueueCounted(k2);
    FlagsMean(k2, d0, 0);
    WindowIs(k);
    WornOutSame(k, k2);
    AdjustMeans(k2.cfg, k2.cc, Off(k2.snd.una, k2.snd.nxt), SendWindow(AfterProbes(k)),
      FlushData(k2, d0, 0).change > 0, FlushData(k2, d0, 0).lost);
  }

  lemma FlushClock(k: Kcb)
    requires k.clock.updated
    ensures var d := FlushData(Filled(k), DataStart(Filled(k), Control(k)), 0);
            Flush(k).0.clock.xmit == d.xmit && Flush(k).0.clock.dead == d.dead
  {
    hide FillWindow, FlushData, FlushAcks, FlushProbes, Probe, SendWindow, Adjust;
  }

  lemma DataStartFlags(k: Kcb, p: Packer)
    ensures var d := DataStart(k, p); !d.lost && d.change == 0 && d.xmit == k.clock.xmit && d.dead == k.clock.dead
  {
  }

  lemma WindowIs(k: Kcb)
    ensures SendWindow(AfterProbes(k)) == Window(k)
  {
    hide TimeDiff;
  }

  lemma WornOutSame(k: Kcb, k2: Kcb)
    requires k2.cfg == k.cfg && k2.clock == k.clock
    ensures forall buf, i: nat :: SomeWornOut(k2, buf, i) <==> SomeWornOut(k, buf, i)
  {
    hide Due;
  }

  lemma AdjustMeans(cfg: Config, cc: Congestion, inFlight: u32, window: u32, changed: bool, lost: bool)
    ensures var c := Adjust(cfg, cc, inFlight, window, changed, lost);
            && (lost ==> c.cwnd == 1 && c.incr == cfg.mss && c.ssthresh == Max(window / 2, 2))
            && (!lost && changed ==>
                  c.ssthresh == Max(inFlight / 2, 2) && c.cwnd == Max(Wrap(c.ssthresh + SkipLimit(cfg)), 1))
            && (!lost && !changed ==> c == if cc.cwnd < 1 then cc.(cwnd := 1, incr := cfg.mss) else cc)
  {
  }

  // ----- acknowledgements and probes -----

  /** A flush acknowledges every pending segment by its number and time stamp, asks for the window when the
      remote one has been zero long enough, tells its own when asked, and has nothing left to say after. */
  lemma FlushAcknowledges(k: Kcb)
    requires KcbOk(k) && k.clock.updated
    ensures forall a | a in k.rcv.acks ::
              exists s :: Goes(Flush(k).1, s) && s.cmd == CMD_ACK && s.sn == a.sn && s.ts == a.ts && s.una == k.rcv.nxt
                          && s.wnd == Max(k.cfg.rcvWnd - |k.rcv.queue|, 0)
    ensures forall s | Goes(Flush(k).1, s) && s.cmd == CMD_ACK :: Ack(s.sn, s.ts) in k.rcv.acks
    ensures (exists s :: Goes(Flush(k).1, s) && s.cmd == CMD_WINS) <==> k.flow.askTell
    ensures (exists s :: Goes(Flush(k).1, s) && s.cmd == CMD_WASK) <==>
      k.flow.askSend || (k.flow.rmtWnd == 0 && k.flow.probeWait > 0 && TimeDiff(k.clock.current, k.flow.tsProbe) >= 0)
    ensures Flush(k).0.rcv == k.rcv.(acks := []) && !Flush(k).0.flow.askSend && !Flush(k).0.flow.askTell
  {
    assert CMD_PUSH != CMD_ACK && CMD_PUSH != CMD_WINS && CMD_PUSH != CMD_WASK;
    hide *;
    var k2 := Filled(k);
    var due := DueSegments(k2, k2.snd.buf, 0);
    FlushSends(k);
    FlushUnfolds(k);
    FlushFlow(k);
    FilledFrame(k);
    QueueCounted(k);
    forall s ensures Goes(Flush(k).1, s) <==> s in ControlSegments(k) || s in due {
      FlattenIsMembers(Flush(k).1, s);
    }
    forall s | s in due ensures s.cmd == CMD_PUSH { DueIsData(k, s); }
    ControlMeans(k);
    forall a | a in k.rcv.acks
      ensures exists s :: Goes(Flush(k).1, s) && s.cmd == CMD_ACK && s.sn == a.sn && s.ts == a.ts && s.una == k.rcv.nxt
                          && s.wnd == Max(k.cfg.rcvWnd - |k.rcv.queue|, 0)
    {
      assert AckOf(k, a) in ControlSegments(k);
      AckOfIs(k, a);
      assert Goes(Flush(k).1, AckOf(k, a));
    }
  }

  function AckOf(k: Kcb, a: Ack): Segment { Template(k).(sn := a.sn, ts := a.ts) }

  lemma AckOfIs(k: Kcb, a: Ack)
    requires k.rcv.nQueue == |k.rcv.queue|
    ensures var s := AckOf(k, a); s.cmd == CMD_ACK && s.sn == a.sn && s.ts == a.ts && s.una == k.rcv.nxt
                                  && s.wnd == Max(k.cfg.rcvWnd - |k.rcv.queue|, 0)
  {
  }

  lemma FlushFlow(k: Kcb)
    requires k.clock.updated
    ensures !Flush(k).0.flow.askSend && !Flush(k).0.flow.askTell
  {
    hide FillWindow, FlushData, FlushAcks, FlushProbes, Probe, SendWindow, Adjust;
    FillWindowFrame(AfterProbes(k), SendWindow(AfterProbes(k)));
  }

  lemma DueIsData(k: Kcb, s: Segment)
    requires KcbOk(k) && s in DueSegments(Filled(k), Filled(k).snd.buf, 0)
    ensures s.cmd == CMD_PUSH
  {
    hide Filled, NeedSend, Passed, SenderOk, ReceiverOk, DueSegments;
    FilledOk(k);
    var buf := Filled(k).snd.buf;
    DueMembers(Filled(k), buf, 0, s);
    var j :| 0 <= j < |buf| && NeedSend(Filled(k), buf[j]) != Keep && s == Passed(Filled(k), buf[j]);
    PassedFields(Filled(k), buf[j]);
  }

  lemma ControlMeans(k: Kcb)
    ensures forall a | a in k.rcv.acks :: AckOf(k, a) in ControlSegments(k)
    ensures forall s | s in ControlSegments(k) && s.cmd == CMD_ACK :: Ack(s.sn, s.ts) in k.rcv.acks
    ensures forall s | s in ControlSegments(k) :: s.cmd != CMD_PUSH
    ensures (exists s :: s in ControlSegments(k) && s.cmd == CMD_WINS) <==> k.flow.askTell
    ensures (exists s :: s in ControlSegments(k) && s.cmd == CMD_WASK) <==>
      k.flow.askSend || (k.flow.rmtWnd == 0 && k.flow.probeWait > 0 && TimeDiff(k.clock.current, k.flow.tsProbe) >= 0)
  {
    hide TimeDiff, UnusedWindow;
    var acks, f := AckSegments(Template(k), k.rcv.acks), Probe(k.flow, k.clock.current);
    var probes := ProbeSegments(Template(k), k.rcv.acks, f);
    forall a | a in k.rcv.acks ensures AckOf(k, a) in acks {
      var i :| 0 <= i < |k.rcv.acks| && k.rcv.acks[i] == a;
      assert acks[i] == AckOf(k, a);
    }
    forall s | s in acks ensures s.cmd == CMD_ACK && Ack(s.sn, s.ts) in k.rcv.acks {
      var i :| 0 <= i < |acks| && acks[i] == s;
      assert k.rcv.acks[i] == Ack(s.sn, s.ts);
    }
    assert f.askSend ==> probes[0].cmd == CMD_WASK && probes[0] in probes;
    assert f.askTell ==> probes[|probes| - 1].cmd == CMD_WINS && probes[|probes| - 1] in probes;
  }
}

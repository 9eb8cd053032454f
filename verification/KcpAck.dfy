/** What ikcp_input makes of each part of an incoming datagram on the sending side. */
module KcpAck {
  import opened Common
  import opened KcpTypes
  import opened KcpWire
  import opened KcpSpec
  import opened KcpOutput
  import opened KcpInvariant
  import opened KcpTiming

  // ----- cumulative acknowledgement -----

  /** Whether the peer expecting una says that it has seg: una is ahead of snd_una, by less than half the
      number space, and seg comes before it. */
  predicate Covers(base: u32, una: u32, seg: Segment) {
    Off(base, una) < HALF && Off(base, seg.sn) < Off(base, una)
  }

  lemma {:induction false} UnaTail(base: u32, s: Sender, una: u32)
    requires Off(base, una) < HALF && Ordered(base, 65536, s.buf)
    ensures var r := ParseUna(s, una).buf;
            && |r| <= |s.buf| && r == s.buf[|s.buf| - |r|..]
            && (forall i | 0 <= i < |s.buf| :: Covers(base, una, s.buf[i]) <==> i < |s.buf| - |r|)
    decreases |s.buf|
  {
    hide Off, TimeDiff;
    if |s.buf| > 0 {
      TimeDiffIsOrder(base, una, s.buf[0].sn);
      if TimeDiff(una, s.buf[0].sn) > 0 {
        UnaTail(base, s.(buf := s.buf[1..], nBuf := s.nBuf - 1), una);
        assert forall i | 1 <= i < |s.buf| :: s.buf[i] == s.buf[1..][i - 1];
      }
    }
  }

  /** A cumulative acknowledgement takes exactly the segments it covers off the front of the buffer. */
  lemma UnaRemoves(s: Sender, una: u32)
    requires SenderOk(s)
    ensures var r := ParseUna(s, una).buf;
            && |r| <= |s.buf| && r == s.buf[|s.buf| - |r|..]
            && (forall i | 0 <= i < |s.buf| :: Covers(s.una, una, s.buf[i]) <==> i < |s.buf| - |r|)
  {
    if Off(s.una, una) < HALF {
      UnaTail(s.una, s, una);
    } else if |s.buf| > 0 {
      assert s.buf[0].sn == s.una;
      TimeDiffOff(una, s.una);
    }
  }

  lemma TimeDiffOff(a: u32, base: u32)
    ensures TimeDiff(a, base) > 0 <==> 0 < Off(base, a) < HALF
  {
  }

  // ----- selective acknowledgement -----

  lemma {:induction false} FindIs(base: u32, buf: seq<Segment>, sn: u32, i: nat)
    requires i <= |buf| && Ordered(base, 65536, buf) && Off(base, sn) < HALF
    requires forall j | 0 <= j < i :: buf[j].sn != sn
    ensures FindSn(buf, sn, i) == |buf| ==> forall j | 0 <= j < |buf| :: buf[j].sn != sn
    decreases |buf| - i
  {
    hide Off, TimeDiff;
    if i < |buf| && buf[i].sn != sn {
      TimeDiffIsOrder(base, sn, buf[i].sn);
      if TimeDiff(sn, buf[i].sn) < 0 {
        forall j | i < j < |buf| ensures buf[j].sn != sn { assert Off(base, buf[i].sn) < Off(base, buf[j].sn); }
      } else {
        FindIs(base, buf, sn, i + 1);
      }
    }
  }

  /** An acknowledgement of a buffered segment removes that segment alone; any other removes nothing. */
  lemma AckRemoves(s: Sender, sn: u32)
    requires SenderLoose(s)
    ensures forall i | 0 <= i < |s.buf| && s.buf[i].sn == sn :: ParseAck(s, sn).buf == s.buf[..i] + s.buf[i + 1..]
    ensures (forall i | 0 <= i < |s.buf| :: s.buf[i].sn != sn) ==> ParseAck(s, sn) == s
  {
    forall i | 0 <= i < |s.buf| && s.buf[i].sn == sn
      ensures ParseAck(s, sn).buf == s.buf[..i] + s.buf[i + 1..]
    {
      InFlightIs(s, sn);
      FindIs(s.una, s.buf, sn, 0);
      hide TimeDiff, Off, FindSn, InFlight;
      var p := FindSn(s.buf, sn, 0);
      assert p < |s.buf| && s.buf[p].sn == sn;
      assert p == i by { assert Off(s.una, s.buf[p].sn) == Off(s.una, s.buf[i].sn); }
    }
  }

  lemma InFlightIs(s: Sender, sn: u32)
    requires Off(s.una, s.nxt) <= 65535
    ensures InFlight(s, sn) <==> Off(s.una, sn) < Off(s.una, s.nxt)
  {
    WrapCases(sn - s.una);
    WrapCases(s.nxt - s.una);
    WrapCases(sn - s.nxt);
  }

  // ----- skip counts -----

  /** A segment that an acknowledgement of sn, sent at ts, passes over. */
  predicate PassedOver(base: u32, sn: u32, ts: u32, seg: Segment) {
    Off(base, seg.sn) < Off(base, sn) && TimeDiff(ts, seg.ts) >= 0
  }

  function Counted(seg: Segment): Segment { seg.(fastack := Wrap(seg.fastack + 1)) }

  lemma {:induction false} MarkIs(base: u32, buf: seq<Segment>, sn: u32, ts: u32, i: nat)
    requires i <= |buf| && Ordered(base, 65536, buf) && Off(base, sn) < HALF
    ensures var r := MarkFast(buf, sn, ts, i);
            forall j | 0 <= j < |buf| ::
              r[j] == if j >= i && PassedOver(base, sn, ts, buf[j]) then Counted(buf[j]) else buf[j]
    decreases |buf| - i
  {
    hide Off, TimeDiff, Wrap;
    if i < |buf| {
      TimeDiffIsOrder(base, sn, buf[i].sn);
      SameOff(base, sn, buf[i].sn);
      if TimeDiff(sn, buf[i].sn) < 0 {
        forall j | i <= j < |buf| ensures !PassedOver(base, sn, ts, buf[j]) {
          assert j > i ==> Off(base, buf[i].sn) < Off(base, buf[j].sn);
        }
      } else {
        MarkIs(base, buf[i := Mark(buf[i], sn, ts)], sn, ts, i + 1);
      }
    }
  }

  /** The newest acknowledgement of a datagram is counted once against every segment it passes over. */
  lemma FastAckCounts(s: Sender, sn: u32, ts: u32)
    requires SenderOk(s)
    ensures var r := ParseFastAck(s, sn, ts);
            && r == s.(buf := r.buf) && |r.buf| == |s.buf|
            && forall j | 0 <= j < |s.buf| ::
                 r.buf[j] == if Off(s.una, sn) < Off(s.una, s.nxt) && PassedOver(s.una, sn, ts, s.buf[j])
                             then Counted(s.buf[j]) else s.buf[j]
  {
    InFlightIs(s, sn);
    if InFlight(s, sn) { MarkIs(s.una, s.buf, sn, ts, 0); }
    hide MarkFast, InFlight, Off, TimeDiff;
  }

  // ----- the newest acknowledgement -----

  /** Numbers and time stamps within half of their space of a base, so that newer is well defined. */
  predicate Near(base: u32, tsBase: u32, seg: Segment) {
    Off(base, seg.sn) < HALF && Off(tsBase, seg.ts) < HALF
  }

  predicate NewerThan(base: u32, tsBase: u32, seg: Segment, l: Latest) {
    l.NoAck? || (Off(base, seg.sn) > Off(base, l.sn) && Off(tsBase, seg.ts) > Off(tsBase, l.ts))
  }

  lemma NewerIs(base: u32, tsBase: u32, seg: Segment, l: Latest)
    requires Near(base, tsBase, seg) && (l.Latest? ==> Off(base, l.sn) < HALF && Off(tsBase, l.ts) < HALF)
    ensures Newer(l, seg.sn, seg.ts) == if NewerThan(base, tsBase, seg, l) then Latest(seg.sn, seg.ts) else l
  {
    if l.Latest? {
      TimeDiffIsOrder(base, seg.sn, l.sn);
      TimeDiffIsOrder(tsBase, seg.ts, l.ts);
    }
    hide Off, TimeDiff;
  }

  /** The acknowledgement that a datagram counts is one of its own, and none of them is newer in both
      number and time. */
  lemma {:induction false} LatestIsNewest(k: Kcb, l: Latest, segs: seq<Segment>, base: u32, tsBase: u32)
    requires forall i | 0 <= i < |segs| && segs[i].cmd == CMD_ACK :: Near(base, tsBase, segs[i])
    requires l.Latest? ==> Off(base, l.sn) < HALF && Off(tsBase, l.ts) < HALF
    ensures var r := InputSegments(k, l, segs).latest;
            && (r == l || exists i :: 0 <= i < |segs| && segs[i].cmd == CMD_ACK && r == Latest(segs[i].sn, segs[i].ts))
            && (forall i | 0 <= i < |segs| && segs[i].cmd == CMD_ACK :: !NewerThan(base, tsBase, segs[i], r))
            && (l.Latest? ==> r.Latest? && Off(base, l.sn) <= Off(base, r.sn) && Off(tsBase, l.ts) <= Off(tsBase, r.ts))
    decreases |segs|
  {
    hide InputSegment, Off, Newer;
    if |segs| > 0 {
      var seg := segs[0];
      if seg.cmd == CMD_ACK { NewerIs(base, tsBase, seg, l); }
      var l' := if seg.cmd == CMD_ACK then Newer(l, seg.sn, seg.ts) else l;
      LatestIsNewest(InputSegment(k, seg), l', segs[1..], base, tsBase);
      var r := InputSegments(k, l, segs).latest;
      if r != l' {
        var i :| 0 <= i < |segs| - 1 && segs[1..][i].cmd == CMD_ACK && r == Latest(segs[1..][i].sn, segs[1..][i].ts);
        assert segs[i + 1] == segs[1..][i];
      }
      forall i | 0 <= i < |segs| && segs[i].cmd == CMD_ACK ensures !NewerThan(base, tsBase, segs[i], r) {
        if i > 0 { assert segs[i] == segs[1..][i - 1]; }
      }
    }
  }

  /** A sample moves the smoothed round trip an eighth of the way to it and the deviation a quarter of the
      way to the difference; the timeout is their sum, four deviations but no less than the interval, kept
      within its bounds. */
  predicate Smoothed(cfg: Config, c: Clock, c': Clock, rtt: nat) {
    && (c.srtt == 0 ==> c'.srtt == rtt && c'.rttval == rtt / 2)
    && (c.srtt > 0 && rtt >= c.srtt ==>
          c'.srtt == c.srtt + (rtt - c.srtt) / 8 && c'.rttval == (3 * c.rttval + (rtt - c.srtt)) / 4)
    && (c.srtt > 0 && rtt < c.srtt ==>
          && c'.srtt == Max(c.srtt - (c.srtt - rtt + 7) / 8, 1)
          && c'.rttval == (3 * c.rttval + (c.srtt - rtt)) / 4)
    && c'.rto == Min(Max(cfg.minRto, c'.srtt + Max(cfg.interval, 4 * c'.rttval)), RTO_MAX)
    && c' == c.(srtt := c'.srtt, rttval := c'.rttval, rto := c'.rto)
  }

  // ----- one segment -----

  /** Whatever its command, a segment brings the peer's window and acknowledges what its una covers; only
      a window request asks for an answer, only data reaches the receiver, and an acknowledgement is a round-trip
      sample unless its time stamp is ahead of the clock. */
  lemma SegmentEffects(k: Kcb, seg: Segment)
    requires KcbOk(k)
    ensures var k', s := InputSegment(k, seg), ShrinkBuf(ParseUna(k.snd, seg.una));
            && k'.flow == k.flow.(rmtWnd := seg.wnd, askTell := k.flow.askTell || seg.cmd == CMD_WASK)
            && (seg.cmd != CMD_PUSH ==> k'.rcv == k.rcv)
            && (seg.cmd != CMD_ACK ==> k'.snd == s && k'.clock == k.clock)
            && (seg.cmd == CMD_ACK ==> k'.snd == ShrinkBuf(ParseAck(s, seg.sn)))
            && (seg.cmd == CMD_ACK && TimeDiff(k.clock.current, seg.ts) < 0 ==> k'.clock == k.clock)
            && (seg.cmd == CMD_ACK && TimeDiff(k.clock.current, seg.ts) >= 0 ==>
                  Smoothed(k.cfg, k.clock, k'.clock, TimeDiff(k.clock.current, seg.ts)))
            && k'.cc == k.cc
  {
    var rtt := TimeDiff(k.clock.current, seg.ts);
    if rtt >= 0 { SampleSmooths(k.cfg, k.clock, rtt); }
    hide ParseUna, ParseAck, PushData, UpdateAck, TimeDiff, KcbOk, Smoothed;
  }

  /** What stays in the buffer after a cumulative acknowledgement. */
  lemma UnaLeaves(cfg: Config, s: Sender, una: u32)
    requires SenderOk(s) && DataOk(cfg, s)
    ensures var s' := ShrinkBuf(ParseUna(s, una));
            SenderOk(s') && forall x | x in s'.buf :: x in s.buf && !Covers(s.una, una, x)
  {
    hide *;
    UnaRemoves(s, una);
    OkIsLoose(s);
    ParseUnaKeeps(cfg, s, una);
    ShrinkKeeps(ParseUna(s, una));
    ShrinkIs(ParseUna(s, una));
    var r := ParseUna(s, una).buf;
    forall x | x in r ensures x in s.buf && !Covers(s.una, una, x) {
      var i :| 0 <= i < |r| && r[i] == x;
      assert s.buf[|s.buf| - |r| + i] == x;
    }
  }

  lemma AckLeaves(s: Sender, sn: u32)
    requires SenderOk(s)
    ensures forall x | x in ShrinkBuf(ParseAck(s, sn)).buf :: x in s.buf && x.sn != sn
  {
    hide *;
    OkIsLoose(s);
    AckRemoves(s, sn);
    ShrinkIs(ParseAck(s, sn));
    NumbersDiffer(s);
    if exists j :: 0 <= j < |s.buf| && s.buf[j].sn == sn {
      var j :| 0 <= j < |s.buf| && s.buf[j].sn == sn;
      WithoutOne(s.buf, j);
    }
  }

  lemma WithoutOne(buf: seq<Segment>, j: nat)
    requires j < |buf| && forall i, k | 0 <= i < k < |buf| :: buf[i].sn != buf[k].sn
    ensures forall x | x in buf[..j] + buf[j + 1..] :: x in buf && x.sn != buf[j].sn
  {
    var r := buf[..j] + buf[j + 1..];
    forall i | 0 <= i < |r| ensures r[i] in buf && r[i].sn != buf[j].sn {
      assert r[i] == buf[if i < j then i else i + 1];
    }
  }

  /** After any segment, no buffered one is covered by what the peer says it has. */
  lemma NothingCoveredStays(k: Kcb, seg: Segment)
    requires KcbOk(k)
    ensures forall x | x in InputSegment(k, seg).snd.buf ::
      x in k.snd.buf && !Covers(k.snd.una, seg.una, x) && (seg.cmd == CMD_ACK ==> x.sn != seg.sn)
  {
    hide *;
    SegmentEffects(k, seg);
    OkParts(k);
    UnaLeaves(k.cfg, k.snd, seg.una);
    AckLeaves(ShrinkBuf(ParseUna(k.snd, seg.una)), seg.sn);
  }

  lemma OkParts(k: Kcb)
    requires KcbOk(k)
    ensures SenderOk(k.snd) && DataOk(k.cfg, k.snd) && ReceiverOk(k.rcv, k.cfg.rcvWnd) && ConfigOk(k.cfg)
  {
  }

  lemma ShrinkIs(s: Sender)
    ensures ShrinkBuf(s).buf == s.buf && ShrinkBuf(s).nxt == s.nxt
  {
  }

  lemma NumbersDiffer(s: Sender)
    requires SenderLoose(s)
    ensures forall i, j | 0 <= i < j < |s.buf| :: s.buf[i].sn != s.buf[j].sn
  {
    hide Off;
    forall i, j | 0 <= i < j < |s.buf| ensures s.buf[i].sn != s.buf[j].sn {
      assert Off(s.una, s.buf[i].sn) < Off(s.una, s.buf[j].sn);
    }
  }

  // ----- a whole datagram -----

  /** ikcp_input of a datagram handles its segments, counts the newest acknowledgement against those it
      passes over, and lets the window grow once exactly when snd_una has moved. */
  lemma InputMeans(k: Kcb, g: seq<Segment>)
    requires KcbOk(k) && |g| > 0 && forall i | 0 <= i < |g| :: Sendable(k.cfg.conv, g[i])
    ensures var p, k' := InputSegments(k, NoAck, OnWireAll(g)), Input(k, EncodeAll(g)).0;
            && Input(k, EncodeAll(g)).1 == 0
            && k'.rcv == p.k.rcv && k'.flow == p.k.flow && k'.clock == p.k.clock
            && k'.snd == (if p.latest == NoAck then p.k.snd else ParseFastAck(p.k.snd, p.latest.sn, p.latest.ts))
            && (k'.cc == if 0 < Off(k.snd.una, p.k.snd.una) < HALF then Grow(k.cfg, p.k.cc, p.k.flow.rmtWnd)
                         else p.k.cc)
  {
    OkParts(k);
    hide InputLoop, InputSegments, ParseFastAck, Grow, TimeDiff, Encode, KcbOk, SenderOk, DataOk, ReceiverOk;
    assert EncodeAll(g) == Encode(g[0]) + EncodeAll(g[1..]);
    InputEncoded(k, NoAck, g);
    var p := InputSegments(k, NoAck, OnWireAll(g));
    TimeDiffOff(p.k.snd.una, k.snd.una);
    if p.latest != NoAck { FastAckUna(p.k.snd, p.latest.sn, p.latest.ts); }
  }

  lemma FastAckUna(s: Sender, sn: u32, ts: u32)
    ensures ParseFastAck(s, sn, ts).una == s.una
  {
    hide InFlight;
  }

  // ----- round trips -----

  lemma SampleSmooths(cfg: Config, c: Clock, rtt: nat)
    ensures Smoothed(cfg, c, UpdateAck(cfg, c, rtt), rtt)
  {
  }

  // ----- the window -----

  /** In slow start an acknowledgement opens the window and its credit by one segment. */
  lemma SlowStartGrows(cfg: Config, cc: Congestion, rmtWnd: u32)
    requires 0 < cfg.mss && CreditOk(cfg.mss, cc) && GrowFits(cfg, cc, rmtWnd) && cc.cwnd < Min(rmtWnd, cc.ssthresh)
    ensures var g := Grow(cfg, cc, rmtWnd);
            g.cwnd == cc.cwnd + 1 && g.incr == cc.incr + cfg.mss && g.ssthresh == cc.ssthresh
  {
    hide Div, Wrap, InStep;
    SlowStartOk(cfg.mss, cc.cwnd, cc.incr);
  }

  /** The credit in congestion avoidance: about mss / cwnd and mss / 16 more. */
  function NextCredit(mss: nat, incr: nat): nat {
    incr + (if incr > 0 then mss * mss / incr else 0) + mss / 16
  }

  /** Whole segments that a credit starts to pay for. */
  ghost predicate Pays(mss: int, w: int, incr: int) { (w - 1) * mss < incr <= w * mss }

  /** After slow start the credit grows, and the window follows when the credit pays for one more segment;
      the remote window is the limit. */
  lemma AvoidanceGrows(cfg: Config, cc: Congestion, rmtWnd: u32)
    requires 0 < cfg.mss && CreditOk(cfg.mss, cc) && GrowFits(cfg, cc, rmtWnd) && cc.ssthresh <= cc.cwnd < rmtWnd
    ensures var g, credit := Grow(cfg, cc, rmtWnd), NextCredit(cfg.mss, cc.incr);
            && g.ssthresh == cc.ssthresh
            && (g.cwnd < rmtWnd ==>
                  && g.incr == credit
                  && (if credit < (cc.cwnd + 1) * cfg.mss then g.cwnd == cc.cwnd else Pays(cfg.mss, g.cwnd, credit)))
            && (g.cwnd >= rmtWnd ==> g.cwnd == rmtWnd)
  {
    hide Wrap, InStep, Div;
    WrapSmall(cfg.mss * cfg.mss);
    AvoidanceCredit(cfg.mss, cc.cwnd, cc.incr);
    CreditIs(cfg.mss, cc.incr);
    AvoidancePays(cfg.mss, cc.cwnd, NextCredit(cfg.mss, cc.incr));
    hide NextCredit, Pays;
  }

  lemma CreditIs(mss: u32, incr: u32)
    requires 0 < incr && mss * mss < U32
    ensures NextCredit(mss, incr) == incr + Div(mss * mss, incr) + mss / 16
  {
  }

  lemma AvoidancePays(mss: u32, c: nat, incr: u32)
    requires 0 < mss && (c - 1) * mss < incr < (c + 2) * mss && (c + 3) * mss < U32
    ensures Wrap((c + 1) * mss) == (c + 1) * mss
    ensures (c + 1) * mss <= incr ==> incr + mss - 1 < U32 && Pays(mss, Div(Wrap(incr + mss - 1), mss), incr)
  {
    hide Div, Wrap;
    Distribute(c, 3, mss);
    Distribute(c, 1, mss);
    Distribute(c, 2, mss);
    AtMostProduct(c + 1, mss);
    WrapSmall((c + 1) * mss);
    if (c + 1) * mss <= incr {
      WrapSmall(incr + mss - 1);
      CeilingOk(mss, incr, c + 1);
    }
  }
}

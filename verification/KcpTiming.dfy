/** Congestion control and scheduling of a KCP control block. */
module KcpTiming {
  import opened Common
  import opened KcpTypes
  import opened KcpSpec

  // ----- congestion window -----

  /** The byte credit is within one segment of the window. */
  ghost predicate InStep(mss: int, cwnd: int, incr: int) {
    (cwnd - 1) * mss < incr < (cwnd + 1) * mss
  }

  ghost predicate CreditOk(mss: u32, cc: Congestion) {
    InStep(mss, cc.cwnd, cc.incr) && THRESH_MIN <= cc.ssthresh
  }

  /** No 32-bit operation of Grow overflows. */
  ghost predicate GrowFits(cfg: Config, cc: Congestion, rmtWnd: u32) {
    && cfg.mss * cfg.mss < U32 && (cc.cwnd + 3) * cfg.mss < U32 && rmtWnd * cfg.mss < U32
  }

  lemma WrapSmall(x: int)
    requires 0 <= x < U32
    ensures Wrap(x) == x
  {
  }

  /** In congestion avoidance the credit grows by less than one segment and a sixteenth. */
  lemma AvoidanceStep(mss: u32, incr: u32)
    requires 0 < mss < incr && mss * mss < U32
    ensures Div(mss * mss, incr) + mss / 16 <= mss + mss / 16
    ensures Div(mss * mss, incr) < mss
  {
    var q := Div(mss * mss, incr);
    if q >= mss {
      Monotone(mss, q, incr);
      StrictProduct(mss, incr);
    }
  }

  lemma StrictProduct(m: int, n: int)
    requires 0 < m < n
    ensures m * m < m * n
  {
    Distribute(n - m, m, m);
    assert n * m == m * n;
    Positive(n - m, m);
  }

  lemma Positive(a: int, b: int)
    requires 0 < a && 0 < b
    ensures 0 < a * b
  {
  }

  /** Rounding the credit up to whole segments. */
  lemma CeilingOk(mss: u32, incr: u32, c: nat)
    requires 0 < mss && c * mss <= incr && incr < (c + 1) * mss + mss && incr + mss - 1 < U32
    ensures var w := Div(incr + mss - 1, mss);
            && (w - 1) * mss < incr <= w * mss
            && c <= w <= c + 2
  {
    var w := Div(incr + mss - 1, mss);
    Distribute(w, 1, mss);
    Distribute(w - 1, 1, mss);
    Distribute(c, 1, mss);
    Distribute(c + 1, 1, mss);
    if w > c + 2 { Monotone(c + 3, w, mss); Distribute(c + 2, 1, mss); }
    if w < c { Monotone(w + 1, c, mss); }
  }

  /** One input raises the window by at most one in slow start and at most two in congestion
      avoidance, never beyond the remote window, and keeps the credit in step with it. */
  lemma GrowOk(cfg: Config, cc: Congestion, rmtWnd: u32)
    requires 0 < cfg.mss && CreditOk(cfg.mss, cc) && GrowFits(cfg, cc, rmtWnd)
    ensures var g := Grow(cfg, cc, rmtWnd);
            && CreditOk(cfg.mss, g)
            && cc.cwnd <= g.cwnd <= cc.cwnd + (if cc.cwnd < cc.ssthresh then 1 else 2)
            && (cc.cwnd < rmtWnd ==> g.cwnd <= rmtWnd)
  {
    hide Div, Wrap, InStep;
    if cc.cwnd < rmtWnd {
      ClipOk(cfg.mss, rmtWnd);
      if cc.cwnd < cc.ssthresh {
        SlowStartOk(cfg.mss, cc.cwnd, cc.incr);
      } else {
        AvoidanceOk(cfg, cc);
      }
    }
  }

  lemma SlowStartOk(mss: u32, cwnd: u32, incr: u32)
    requires 0 < mss && InStep(mss, cwnd, incr) && (cwnd + 3) * mss < U32
    ensures Wrap(cwnd + 1) == cwnd + 1 && Wrap(incr + mss) == incr + mss && InStep(mss, cwnd + 1, incr + mss)
  {
    Distribute(cwnd, 1, mss);
    Distribute(cwnd, 2, mss);
    Distribute(cwnd, 3, mss);
    Distribute(cwnd - 1, 1, mss);
    AtMostProduct(cwnd + 1, mss);
    Distribute(cwnd + 1, 2, mss);
    WrapSmall(cwnd + 1);
    WrapSmall(incr + mss);
  }

  lemma ClipOk(mss: u32, w: u32)
    requires 0 < mss && w * mss < U32
    ensures InStep(mss, w, Wrap(w * mss))
  {
    WrapSmall(w * mss);
    Distribute(w, 1, mss);
    Distribute(w - 1, 1, mss);
  }

  /** The window and credit after the congestion-avoidance branch. */
  lemma AvoidanceOk(cfg: Config, cc: Congestion)
    requires 0 < cfg.mss && CreditOk(cfg.mss, cc) && cc.ssthresh <= cc.cwnd
    requires cfg.mss * cfg.mss < U32 && (cc.cwnd + 3) * cfg.mss < U32
    ensures var mss := cfg.mss;
            var base: u32 := Max(cc.incr, mss);
            var incr := Wrap(base + Div(Wrap(mss * mss), base) + mss / 16);
            var w := if Wrap((cc.cwnd + 1) * mss) <= incr then Div(Wrap(incr + mss - 1), mss) else cc.cwnd;
            InStep(mss, w, incr) && cc.cwnd <= w <= cc.cwnd + 2
  {
    hide Div, Wrap, InStep;
    WrapSmall(cfg.mss * cfg.mss);
    AvoidanceCredit(cfg.mss, cc.cwnd, cc.incr);
    AvoidanceWindow(cfg.mss, cc.cwnd, cc.incr + Div(cfg.mss * cfg.mss, cc.incr) + cfg.mss / 16);
  }

  /** The new credit, without overflow. */
  lemma AvoidanceCredit(mss: u32, c: nat, incr: u32)
    requires 0 < mss && 2 <= c && InStep(mss, c, incr) && mss * mss < U32 && (c + 3) * mss < U32
    ensures mss < incr
    ensures var grown := incr + Div(mss * mss, incr) + mss / 16;
            incr <= grown < U32 && Wrap(grown) == grown && (c - 1) * mss < grown < (c + 2) * mss
  {
    hide Div, Wrap;
    Distribute(c, 2, mss);
    Distribute(c, 3, mss);
    Monotone(1, c - 1, mss);
    assert mss < incr;
    AvoidanceStep(mss, incr);
    GrowthBound(mss, incr, c, Div(mss * mss, incr));
    WrapSmall(incr + Div(mss * mss, incr) + mss / 16);
  }

  /** The new window: the credit rounded up to whole segments, when it pays for one more. */
  lemma AvoidanceWindow(mss: u32, c: nat, incr: u32)
    requires 0 < mss && (c - 1) * mss < incr < (c + 2) * mss && (c + 3) * mss < U32
    ensures var w := if Wrap((c + 1) * mss) <= incr then Div(Wrap(incr + mss - 1), mss) else c;
            InStep(mss, w, incr) && c <= w <= c + 2
  {
    hide Div, Wrap;
    Distribute(c, 2, mss);
    Distribute(c, 3, mss);
    Distribute(c + 1, 1, mss);
    AtMostProduct(c + 1, mss);
    WrapSmall((c + 1) * mss);
    if (c + 1) * mss <= incr {
      WrapSmall(incr + mss - 1);
      CeilingOk(mss, incr, c + 1);
      CeilingTight(mss, incr, c);
      Distribute(Div(incr + mss - 1, mss), 1, mss);
    }
  }

  /** From credit in (mss, (c+1)*mss) with c >= 2, one step stays below (c+2)*mss. */
  lemma GrowthBound(mss: u32, incr: u32, c: nat, q: nat)
    requires 0 < mss < incr < (c + 1) * mss && 2 <= c && q * incr <= mss * mss && q < mss
    ensures incr + q + mss / 16 < (c + 2) * mss
  {
    Distribute(c + 1, 1, mss);
    if 2 * mss <= incr {
      HalfQuotient(mss, incr, q);
    } else {
      Distribute(c, 2, mss);
      Monotone(2, c, mss);
    }
  }

  /** From two segments of credit on, the quotient is at most half a segment. */
  lemma HalfQuotient(mss: u32, incr: u32, q: nat)
    requires 0 < mss && 2 * mss <= incr && q * incr <= mss * mss
    ensures 2 * q <= mss
  {
    Monotone(2 * mss, incr, q);
    assert incr * q == q * incr && (2 * mss) * q == (2 * q) * mss;
    if mss < 2 * q { StrictLess(mss, 2 * q, mss); }
  }

  lemma StrictLess(a: int, b: int, m: nat)
    requires a < b && 0 < m
    ensures a * m < b * m
  {
  }

  lemma CeilingTight(mss: u32, incr: u32, c: nat)
    requires 0 < mss && incr < (c + 2) * mss && incr + mss - 1 < U32
    ensures Div(incr + mss - 1, mss) <= c + 2
  {
    var w := Div(incr + mss - 1, mss);
    Distribute(c + 2, 1, mss);
    if w > c + 2 { Monotone(c + 3, w, mss); }
  }

  /** What a flush leaves of the window is in step again. */
  lemma AdjustOk(cfg: Config, cc: Congestion, inFlight: u32, window: u32, changed: bool, lost: bool)
    requires 0 < cfg.mss && CreditOk(cfg.mss, cc)
    requires (Max(inFlight / 2, THRESH_MIN) + Resent(cfg)) * cfg.mss < U32 || !changed
    ensures CreditOk(cfg.mss, Adjust(cfg, cc, inFlight, window, changed, lost))
    ensures lost ==> Adjust(cfg, cc, inFlight, window, changed, lost).cwnd == 1
    ensures 1 <= Adjust(cfg, cc, inFlight, window, changed, lost).cwnd
  {
    var mss := cfg.mss;
    if changed {
      var w := Max(inFlight / 2, THRESH_MIN) + Resent(cfg);
      AtMostProduct(w, mss);
      WrapSmall(w);
      ClipOk(mss, w);
    }
    WrapSmall(mss);
    Distribute(1, 1, mss);
  }

  // ----- scheduling -----

  /** A block as an update without a flush leaves it. */
  function Ticked(k: Kcb, now: u32): Kcb {
    k.(clock := k.clock.(current := now))
  }

  lemma {:induction false} DeadlineBounds(buf: seq<Segment>, now: u32, i: nat, best: int)
    requires i <= |buf| && 0 <= best
    ensures NearestDeadline(buf, now, i, best) <= best
    decreases |buf| - i
  {
    if i < |buf| {
      var diff := TimeDiff(buf[i].resendts, now);
      if diff > 0 { DeadlineBounds(buf, now, i + 1, if diff < best then diff else best); }
    }
  }

  /** Every update strictly before the time ikcp_check returns only moves the clock. */
  lemma CheckIsQuiet(k: Kcb, now: u32, e: nat)
    requires e < Wrap(Check(k, now) - now)
    ensures Update(k, Wrap(now + e)) == (Ticked(k, Wrap(now + e)), [])
  {
    assert k.clock.updated && Check(k, now) != now;
    var wait := TimeDiff(k.clock.tsFlush, now);
    DeadlineBounds(k.snd.buf, now, 0, 0x7fff_ffff);
    var packet := NearestDeadline(k.snd.buf, now, 0, 0x7fff_ffff);
    WaitBounds(k.clock.tsFlush, now);
    var w := Min(Min(packet, wait), k.cfg.interval);
    WaitLength(now, w);
    assert e < wait;
    StillEarly(k.clock.tsFlush, now, e);
  }

  lemma WaitBounds(later: u32, now: u32)
    requires -10000 <= TimeDiff(now, later) < 0
    ensures 0 < TimeDiff(later, now) <= 10000
  {
  }

  lemma WaitLength(now: u32, w: nat)
    requires w < 0x8000_0000
    ensures Wrap(Wrap(now + w) - now) == w
  {
  }

  lemma StillEarly(later: u32, now: u32, e: nat)
    requires e < TimeDiff(later, now) <= 10000
    ensures -10000 <= TimeDiff(Wrap(now + e), later) < 0
  {
  }

  /** The time ikcp_check returns is never later than the interval or the next flush. */
  lemma CheckIsSoon(k: Kcb, now: u32)
    requires k.clock.updated
    ensures Wrap(Check(k, now) - now) <= k.cfg.interval
    ensures Check(k, now) != now ==> Wrap(Check(k, now) - now) <= TimeDiff(k.clock.tsFlush, now) <= 10000
    ensures forall i | 0 <= i < |k.snd.buf| && Check(k, now) != now ::
      Wrap(Check(k, now) - now) <= TimeDiff(k.snd.buf[i].resendts, now)
  {
    if Check(k, now) != now {
      var wait := TimeDiff(k.clock.tsFlush, now);
      DeadlineBounds(k.snd.buf, now, 0, 0x7fff_ffff);
      var packet := NearestDeadline(k.snd.buf, now, 0, 0x7fff_ffff);
      WaitBounds(k.clock.tsFlush, now);
      WaitLength(now, Min(Min(packet, wait), k.cfg.interval));
      DeadlineCovers(k.snd.buf, now, 0, 0x7fff_ffff);
    } else {
      WaitLength(now, 0);
    }
  }

  lemma {:induction false} DeadlineCovers(buf: seq<Segment>, now: u32, i: nat, best: int)
    requires i <= |buf| && 0 <= NearestDeadline(buf, now, i, best)
    ensures NearestDeadline(buf, now, i, best) <= best
    ensures forall j | i <= j < |buf| :: NearestDeadline(buf, now, i, best) <= TimeDiff(buf[j].resendts, now)
    decreases |buf| - i
  {
    if i < |buf| {
      var diff := TimeDiff(buf[i].resendts, now);
      DeadlineCovers(buf, now, i + 1, if diff < best then diff else best);
    }
  }
}

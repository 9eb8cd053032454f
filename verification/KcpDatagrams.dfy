/** The datagrams of a flush: what is in which, in what order, and how full they are. */
module KcpDatagrams {
  import opened Common
  import opened KcpTypes
  import opened KcpWire
  import opened KcpSpec
  import opened KcpOutput
  import opened KcpInvariant
  import opened KcpTimers
  import opened KcpRetransmit

  // ----- packing -----

  /** The first segment of the second datagram had no room in the first one. */
  predicate NoRoom(g: seq<Segment>, h: seq<Segment>, mtu: u32) {
    |h| > 0 && |EncodeAll(g)| + OVERHEAD + |h[0].data| > mtu
  }

  ghost predicate Packed(out: seq<seq<Segment>>, mtu: u32) {
    forall i | 0 <= i < |out| - 1 :: NoRoom(out[i], out[i + 1], mtu)
  }

  /** Also when the datagram that is being filled is sent next; it is empty at the start only. */
  ghost predicate PackedSoFar(p: Packer, mtu: u32) {
    Packed(Emit(p), mtu) && (|p.cur| == 0 ==> p.out == [])
  }

  lemma PutPacks(p: Packer, seg: Segment, mtu: u32)
    requires PackedSoFar(p, mtu) && OVERHEAD + |seg.data| <= mtu
    ensures PackedSoFar(Put(p, seg, mtu), mtu)
  {
    var p' := Put(p, seg, mtu);
    assert EncodeAll([]) == [];
    var out, out' := Emit(p), Emit(p');
    if |p.cur| > 0 {
      forall i | 0 <= i < |out'| - 1 ensures NoRoom(out'[i], out'[i + 1], mtu) {
        if i < |out| - 1 { assert NoRoom(out[i], out[i + 1], mtu); }
      }
    }
  }

  lemma {:induction false} AcksPack(p: Packer, seg: Segment, acks: seq<Ack>, mtu: u32)
    requires PackedSoFar(p, mtu) && seg.data == [] && OVERHEAD <= mtu
    ensures PackedSoFar(FlushAcks(p, seg, acks, mtu).p, mtu) && FlushAcks(p, seg, acks, mtu).seg.data == []
    decreases |acks|
  {
    hide PackedSoFar, Put;
    if |acks| > 0 {
      var seg' := seg.(sn := acks[0].sn, ts := acks[0].ts);
      PutPacks(p, seg', mtu);
      AcksPack(Put(p, seg', mtu), seg', acks[1..], mtu);
    }
  }

  lemma ControlPacks(k: Kcb)
    requires OVERHEAD <= k.cfg.mtu
    ensures PackedSoFar(Control(k), k.cfg.mtu)
  {
    var mtu, none := k.cfg.mtu, Packer([], []);
    assert PackedSoFar(none, mtu);
    AcksPack(none, Template(k), k.rcv.acks, mtu);
    hide PackedSoFar, Put, FlushAcks, Probe;
    var a, f := FlushAcks(none, Template(k), k.rcv.acks, mtu), Probe(k.flow, k.clock.current);
    var p := if f.askSend then Put(a.p, a.seg.(cmd := CMD_WASK), mtu) else a.p;
    if f.askSend { PutPacks(a.p, a.seg.(cmd := CMD_WASK), mtu); }
    if f.askTell { PutPacks(p, a.seg.(cmd := CMD_WINS), mtu); }
  }

  lemma {:induction false} DataPacks(k: Kcb, d: DataFlush, i: nat)
    requires i <= |d.buf| && PackedSoFar(d.p, k.cfg.mtu) && k.cfg.mss + OVERHEAD <= k.cfg.mtu
    requires forall j | i <= j < |d.buf| :: |d.buf[j].data| <= k.cfg.mss
    ensures PackedSoFar(FlushData(k, d, i).p, k.cfg.mtu)
    decreases |d.buf| - i
  {
    hide PackedSoFar, Put, Passed, NeedSend;
    if i < |d.buf| {
      PassedFields(k, d.buf[i]);
      if NeedSend(k, d.buf[i]) != Keep { PutPacks(d.p, Passed(k, d.buf[i]), k.cfg.mtu); }
      DataPacks(k, FlushStep(k, d, i), i + 1);
    }
  }

  lemma ShortData(k: Kcb)
    requires KcbOk(k)
    ensures k.cfg.mss + OVERHEAD <= k.cfg.mtu && forall j | 0 <= j < |k.snd.buf| :: |k.snd.buf[j].data| <= k.cfg.mss
  {
  }

  /** A flush starts a new datagram only when the next segment has no room in the last one. */
  lemma FlushPacks(k: Kcb)
    requires KcbOk(k) && k.clock.updated
    ensures Packed(Flush(k).1, k.cfg.mtu)
  {
    hide *;
    FlushUnfolds(k);
    FilledOk(k);
    ShortData(k);
    ShortData(Filled(k));
    ControlPacks(k);
    StartPacks(Filled(k), Control(k));
  }

  lemma StartPacks(k: Kcb, p: Packer)
    requires PackedSoFar(p, k.cfg.mtu) && k.cfg.mss + OVERHEAD <= k.cfg.mtu
    requires forall j | 0 <= j < |k.snd.buf| :: |k.snd.buf[j].data| <= k.cfg.mss
    ensures Packed(Emit(FlushData(k, DataStart(k, p), 0).p), k.cfg.mtu)
  {
    hide FlushData, Emit, Packed;
    DataPacks(k, DataStart(k, p), 0);
  }

  // ----- order -----

  /** Whether a flush asks for the remote window: it was asked to, or that window has been zero long enough. */
  predicate Asks(k: Kcb) {
    k.flow.askSend || (k.flow.rmtWnd == 0 && k.flow.probeWait > 0 && TimeDiff(k.clock.current, k.flow.tsProbe) >= 0)
  }

  /** The header of anything but data. */
  predicate IsControl(k: Kcb, s: Segment, cmd: u32) {
    && s.conv == k.cfg.conv && s.cmd == cmd && s.frg == 0 && s.data == [] && s.una == k.rcv.nxt
    && s.wnd == Max(k.cfg.rcvWnd - |k.rcv.queue|, 0)
  }

  /** Number and time stamp of the last acknowledgement, which window messages repeat. */
  predicate Repeats(k: Kcb, s: Segment) {
    Ack(s.sn, s.ts) == if |k.rcv.acks| == 0 then Ack(0, 0) else k.rcv.acks[|k.rcv.acks| - 1]
  }

  function One(b: bool): nat { if b then 1 else 0 }

  lemma OneCounts(b: bool)
    ensures b <==> One(b) > 0
  {
  }

  lemma ControlOrder(k: Kcb)
    requires k.rcv.nQueue == |k.rcv.queue|
    ensures var c, n, w, t := ControlSegments(k), |k.rcv.acks|, One(Asks(k)), One(k.flow.askTell);
            && |c| == n + w + t
            && (forall i | 0 <= i < n :: IsControl(k, c[i], CMD_ACK) && Ack(c[i].sn, c[i].ts) == k.rcv.acks[i])
            && (Asks(k) ==> IsControl(k, c[n], CMD_WASK) && Repeats(k, c[n]))
            && (k.flow.askTell ==> IsControl(k, c[n + w], CMD_WINS) && Repeats(k, c[n + w]))
  {
    hide TimeDiff;
    var f := Probe(k.flow, k.clock.current);
    assert f.askSend == Asks(k) && f.askTell == k.flow.askTell;
  }

  lemma {:induction false} DueAscend(k: Kcb, base: u32, buf: seq<Segment>, i: nat)
    requires i <= |buf| && forall a, b | 0 <= a < b < |buf| :: Off(base, buf[a].sn) < Off(base, buf[b].sn)
    requires forall j | 0 <= j < |buf| :: buf[j].cmd == CMD_PUSH
    ensures forall s | s in DueSegments(k, buf, i) ::
              s.cmd == CMD_PUSH && i < |buf| && Off(base, buf[i].sn) <= Off(base, s.sn)
    ensures Ascends(base, DueSegments(k, buf, i))
    decreases |buf| - i
  {
    hide Off, NeedSend, Passed;
    if i < |buf| {
      PassedFields(k, buf[i]);
      DueAscend(k, base, buf, i + 1);
      var rest := DueSegments(k, buf, i + 1);
      forall b | 0 <= b < |rest| ensures Off(base, buf[i].sn) < Off(base, rest[b].sn) { assert rest[b] in rest; }
    }
  }

  /** Numbers only grow, seen from base. */
  ghost predicate Ascends(base: u32, data: seq<Segment>) {
    forall a, b | 0 <= a < b < |data| :: Off(base, data[a].sn) < Off(base, data[b].sn)
  }

  lemma BufferIs(k: Kcb)
    requires KcbOk(k)
    ensures forall a, b | 0 <= a < b < |k.snd.buf| :: Off(k.snd.una, k.snd.buf[a].sn) < Off(k.snd.una, k.snd.buf[b].sn)
    ensures forall j | 0 <= j < |k.snd.buf| :: k.snd.buf[j].cmd == CMD_PUSH
    ensures k.rcv.nQueue == |k.rcv.queue|
  {
    hide Off;
  }

  /** A flush sends the acknowledgements in the order in which they were earned, then what it has to ask and to tell
      about windows, then data in the order of its numbers, each segment at most once. */
  lemma FlushOrder(k: Kcb)
    requires KcbOk(k) && k.clock.updated
    ensures var all, n, w, t := Flatten(Flush(k).1), |k.rcv.acks|, One(Asks(k)), One(k.flow.askTell);
            && n + w + t <= |all|
            && (forall i | 0 <= i < n :: IsControl(k, all[i], CMD_ACK) && Ack(all[i].sn, all[i].ts) == k.rcv.acks[i])
            && (Asks(k) ==> IsControl(k, all[n], CMD_WASK) && Repeats(k, all[n]))
            && (k.flow.askTell ==> IsControl(k, all[n + w], CMD_WINS) && Repeats(k, all[n + w]))
            && (forall s | s in all[n + w + t..] :: s.cmd == CMD_PUSH)
            && Ascends(k.snd.una, all[n + w + t..])
  {
    hide *;
    OneCounts(Asks(k));
    OneCounts(k.flow.askTell);
    FlushSends(k);
    FilledOk(k);
    BufferIs(k);
    BufferIs(Filled(k));
    ControlOrder(k);
    FilledUna(k);
    var due := DueSegments(Filled(k), Filled(k).snd.buf, 0);
    DueAscend(Filled(k), k.snd.una, Filled(k).snd.buf, 0);
    assert (ControlSegments(k) + due)[|ControlSegments(k)|..] == due;
  }

  lemma FilledUna(k: Kcb)
    ensures Filled(k).snd.una == k.snd.una
  {
    hide FillWindow, Probe, SendWindow;
    FillUna(AfterProbes(k), SendWindow(AfterProbes(k)));
  }

  lemma {:induction false} FillUna(k: Kcb, cwnd: u32)
    ensures FillWindow(k, cwnd).snd.una == k.snd.una
    decreases |k.snd.queue|
  {
    hide Stamp;
    if TimeDiff(k.snd.nxt, Wrap(k.snd.una + cwnd)) < 0 && |k.snd.queue| > 0 {
      FillUna(k.(snd := k.snd.(queue := k.snd.queue[1..], nQueue := k.snd.nQueue - 1,
                               buf := k.snd.buf + [Stamp(k, k.snd.queue[0])], nBuf := k.snd.nBuf + 1,
                               nxt := Wrap(k.snd.nxt + 1))), cwnd);
    }
  }

  // ----- window probes -----

  /** While the remote window is zero, the time between two questions about it starts at seven seconds and grows by
      half each time, to two minutes at most; an open window stops them. */
  lemma ProbesBackOff(f: Flow, now: u32)
    requires ProbeOk(f)
    ensures var f', due := Probe(f, now), f.rmtWnd == 0 && f.probeWait > 0 && TimeDiff(now, f.tsProbe) >= 0;
            && (f'.askSend <==> f.askSend || due)
            && (f.rmtWnd > 0 ==> f'.probeWait == f'.tsProbe == 0)
            && (f.rmtWnd == 0 && f.probeWait == 0 ==> f'.probeWait == 7000 && f'.tsProbe == Wrap(now + 7000))
            && (due ==> f'.probeWait == Min(f.probeWait * 3 / 2, 120000) && f'.tsProbe == Wrap(now + f'.probeWait))
            && (f.rmtWnd == 0 && f.probeWait > 0 && !due ==> f' == f)
            && f'.rmtWnd == f.rmtWnd && f'.askTell == f.askTell
  {
    hide TimeDiff;
  }
}

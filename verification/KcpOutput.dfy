/** What ikcp_flush puts on the wire, and what ikcp_input makes of it. */
module KcpOutput {
  import opened Common
  import opened KcpTypes
  import opened KcpWire
  import opened KcpSpec

  /** The loop of ikcp_input over segments instead of bytes. */
  function InputSegments(k: Kcb, latest: Latest, segs: seq<Segment>): (r: Parsed)
    ensures r.k.cfg == k.cfg && r.code == 0
    decreases |segs|
  {
    if |segs| == 0 then Parsed(k, latest, 0)
    else
      InputSegments(InputSegment(k, segs[0]),
                    if segs[0].cmd == CMD_ACK then Newer(latest, segs[0].sn, segs[0].ts) else latest, segs[1..])
  }

  /** A segment that can travel: of this conversation, with a known command and not too long. */
  predicate Sendable(conv: u32, seg: Segment) {
    seg.conv == conv && KnownCommand(seg.cmd) && |seg.data| < 0x8000_0000
  }

  /** Input handles encoded segments one by one, in order, and then goes on with the bytes after them. */
  lemma {:induction false} InputPrefix(k: Kcb, latest: Latest, segs: seq<Segment>, tail: seq<byte>)
    requires forall i | 0 <= i < |segs| :: Sendable(k.cfg.conv, segs[i])
    ensures var p := InputSegments(k, latest, OnWireAll(segs));
            InputLoop(k, latest, EncodeAll(segs) + tail) == InputLoop(p.k, p.latest, tail)
    decreases |segs|
  {
    hide InputSegment, ReadHeader, Read32, Encode, DataLength;
    if |segs| == 0 {
      assert [] + tail == tail;
    } else {
      var s, rest := segs[0], segs[1..];
      assert Sendable(k.cfg.conv, s);
      var b := EncodeAll(segs) + tail;
      var w := OnWireAll(segs);
      assert b == Encode(s) + (EncodeAll(rest) + tail);
      ReadEncoded(s, EncodeAll(rest) + tail);
      assert w[0] == OnWire(s) && w[1..] == OnWireAll(rest);
      HeaderConv(b, b[OVERHEAD..OVERHEAD + |s.data|]);
      var latest' := if w[0].cmd == CMD_ACK then Newer(latest, w[0].sn, w[0].ts) else latest;
      InputPrefix(InputSegment(k, w[0]), latest', rest, tail);
    }
  }

  /** Input of an encoded datagram consumes every byte and handles exactly its segments, in order. */
  lemma InputEncoded(k: Kcb, latest: Latest, segs: seq<Segment>)
    requires forall i | 0 <= i < |segs| :: Sendable(k.cfg.conv, segs[i])
    ensures InputLoop(k, latest, EncodeAll(segs)) == InputSegments(k, latest, OnWireAll(segs))
  {
    hide InputSegment, InputSegments;
    InputPrefix(k, latest, segs, []);
    assert EncodeAll(segs) + [] == EncodeAll(segs);
  }

  /** What ikcp_input returns for bytes that do not start with a segment of the conversation: 0 for less
      than a header, -1 for another conversation, -2 for data that is cut off or too long, -3 for a command
      it does not know. */
  function StopCode(conv: u32, tail: seq<byte>): Option<int> {
    if |tail| < OVERHEAD then Some(0)
    else if Read32(tail, 0) != conv then Some(-1)
    else if Read32(tail, 20) > |tail| - OVERHEAD || Read32(tail, 20) >= 0x8000_0000 then Some(-2)
    else if tail[4] !in {81, 82, 83, 84} then Some(-3)
    else None
  }

  /** Before it stops there, it has handled the segments in front of those bytes. */
  lemma InputStops(k: Kcb, latest: Latest, segs: seq<Segment>, tail: seq<byte>)
    requires forall i | 0 <= i < |segs| :: Sendable(k.cfg.conv, segs[i])
    requires StopCode(k.cfg.conv, tail).Some?
    ensures var p := InputSegments(k, latest, OnWireAll(segs));
            InputLoop(k, latest, EncodeAll(segs) + tail) == Parsed(p.k, p.latest, StopCode(k.cfg.conv, tail).value)
  {
    hide InputSegment, InputSegments;
    InputPrefix(k, latest, segs, tail);
  }

  lemma HeaderConv(b: seq<byte>, data: seq<byte>)
    requires OVERHEAD <= |b|
    ensures Read32(b, 0) == ReadHeader(b, data).conv
  {
  }

  lemma {:induction false} EncodeAllAppend(a: seq<Segment>, b: seq<Segment>)
    ensures EncodeAll(a + b) == EncodeAll(a) + EncodeAll(b)
    decreases |a|
  {
    hide Encode;
    if |a| == 0 {
      assert a + b == b;
    } else {
      EncodeAllAppend(a[1..], b);
      assert (a + b)[1..] == a[1..] + b;
    }
  }

  lemma EncodeAllPush(a: seq<Segment>, s: Segment)
    ensures EncodeAll(a + [s]) == EncodeAll(a) + Encode(s)
  {
    EncodeAllAppend(a, [s]);
    assert EncodeAll([s]) == Encode(s) + EncodeAll([]);
  }

  // ----- packing -----

  function Flatten(groups: seq<seq<Segment>>): seq<Segment> {
    if |groups| == 0 then [] else groups[0] + Flatten(groups[1..])
  }

  lemma {:induction false} FlattenAppend(a: seq<seq<Segment>>, g: seq<Segment>)
    ensures Flatten(a + [g]) == Flatten(a) + g
    decreases |a|
  {
    if |a| == 0 {
      assert a + [g] == [g] && Flatten([g]) == g + Flatten([]);
    } else {
      FlattenAppend(a[1..], g);
      assert (a + [g])[1..] == a[1..] + [g];
    }
  }

  /** Every datagram is non-empty, fits the mtu and is made of sendable segments. */
  ghost predicate Fits(groups: seq<seq<Segment>>, mtu: u32, conv: u32) {
    forall g | g in groups :: 0 < |g| && |EncodeAll(g)| <= mtu && (forall s | s in g :: Sendable(conv, s))
  }

  ghost predicate PackerOk(p: Packer, mtu: u32, conv: u32) {
    && Fits(p.out, mtu, conv)
    && |EncodeAll(p.cur)| <= mtu
    && (forall s | s in p.cur :: Sendable(conv, s))
  }

  /** Everything put into a packer so far, in order. */
  function Contents(p: Packer): seq<Segment> {
    Flatten(p.out) + p.cur
  }

  lemma PutOk(p: Packer, seg: Segment, mtu: u32, conv: u32)
    requires PackerOk(p, mtu, conv) && Sendable(conv, seg) && OVERHEAD + |seg.data| <= mtu
    ensures PackerOk(Put(p, seg, mtu), mtu, conv)
    ensures Contents(Put(p, seg, mtu)) == Contents(p) + [seg]
  {
    EncodeAllPush(p.cur, seg);
    assert [] + [seg] == [seg];
    EncodeAllPush([], seg);
    EmitOk(p, mtu, conv);
  }

  lemma EmitOk(p: Packer, mtu: u32, conv: u32)
    requires PackerOk(p, mtu, conv)
    ensures Fits(Emit(p), mtu, conv)
    ensures Flatten(Emit(p)) == Contents(p)
  {
    FlattenAppend(p.out, p.cur);
  }

  // ----- the segments of a flush -----

  function AckSegments(tmpl: Segment, acks: seq<Ack>): (r: seq<Segment>)
    ensures |r| == |acks|
  {
    seq(|acks|, i requires 0 <= i < |acks| => tmpl.(sn := acks[i].sn, ts := acks[i].ts))
  }

  /** Probes carry the number and time stamp of the last acknowledgement flushed before them. */
  function ProbeSegments(tmpl: Segment, acks: seq<Ack>, f: Flow): seq<Segment> {
    var seg := if |acks| == 0 then tmpl else AckSegments(tmpl, acks)[|acks| - 1];
    (if f.askSend then [seg.(cmd := CMD_WASK)] else []) + (if f.askTell then [seg.(cmd := CMD_WINS)] else [])
  }

  /** The buffered segments that are due from i on, as they are sent. */
  function DueSegments(k: Kcb, buf: seq<Segment>, i: nat): seq<Segment>
    requires i <= |buf|
    decreases |buf| - i
  {
    if i == |buf| then []
    else (if NeedSend(k, buf[i]) == Keep then [] else [Passed(k, buf[i])]) + DueSegments(k, buf, i + 1)
  }

  lemma {:induction false} FlushAcksOk(p: Packer, seg: Segment, acks: seq<Ack>, mtu: u32, conv: u32)
    requires PackerOk(p, mtu, conv) && Sendable(conv, seg) && seg.data == [] && OVERHEAD <= mtu
    ensures var r := FlushAcks(p, seg, acks, mtu);
            && PackerOk(r.p, mtu, conv)
            && Contents(r.p) == Contents(p) + AckSegments(seg, acks)
            && r.seg == if |acks| == 0 then seg else AckSegments(seg, acks)[|acks| - 1]
    decreases |acks|
  {
    hide PackerOk, Contents, Put;
    if |acks| > 0 {
      var seg' := seg.(sn := acks[0].sn, ts := acks[0].ts);
      PutOk(p, seg', mtu, conv);
      FlushAcksOk(Put(p, seg', mtu), seg', acks[1..], mtu, conv);
      assert AckSegments(seg, acks) == [seg'] + AckSegments(seg', acks[1..]);
    }
  }

  lemma FlushProbesOk(p: Packer, seg: Segment, f: Flow, mtu: u32, conv: u32)
    requires PackerOk(p, mtu, conv) && Sendable(conv, seg) && seg.data == [] && OVERHEAD <= mtu
    ensures PackerOk(FlushProbes(p, seg, f, mtu), mtu, conv)
    ensures Contents(FlushProbes(p, seg, f, mtu))
            == Contents(p) + (if f.askSend then [seg.(cmd := CMD_WASK)] else [])
              + (if f.askTell then [seg.(cmd := CMD_WINS)] else [])
  {
    var p' := if f.askSend then Put(p, seg.(cmd := CMD_WASK), mtu) else p;
    if f.askSend { PutOk(p, seg.(cmd := CMD_WASK), mtu, conv); }
    if f.askTell { PutOk(p', seg.(cmd := CMD_WINS), mtu, conv); }
  }

  /** A buffered segment: numbered, of this conversation, and short enough for one datagram. */
  predicate Buffered(cfg: Config, s: Segment) {
    s.conv == cfg.conv && s.cmd == CMD_PUSH && |s.data| <= cfg.mss
  }

  /** The sending loop replaces every segment by what it is after being passed. */
  lemma {:induction false} FlushDataBuffer(k: Kcb, d: DataFlush, i: nat)
    requires i <= |d.buf|
    ensures var r := FlushData(k, d, i);
            && |r.buf| == |d.buf|
            && (forall j | 0 <= j < |d.buf| :: r.buf[j] == if j < i then d.buf[j] else Passed(k, d.buf[j]))
    decreases |d.buf| - i
  {
    hide Passed, Put;
    if i < |d.buf| {
      FlushStepBuffer(k, d, i);
      FlushDataBuffer(k, FlushStep(k, d, i), i + 1);
    }
  }

  lemma FlushStepBuffer(k: Kcb, d: DataFlush, i: nat)
    requires i < |d.buf|
    ensures FlushStep(k, d, i).buf == d.buf[i := Passed(k, d.buf[i])]
  {
    hide Put;
  }

  /** The sending loop sends exactly the due segments, in order. */
  lemma {:induction false} FlushDataOk(k: Kcb, d: DataFlush, i: nat)
    requires i <= |d.buf| && PackerOk(d.p, k.cfg.mtu, k.cfg.conv)
    requires forall j | i <= j < |d.buf| :: Buffered(k.cfg, d.buf[j])
    requires k.cfg.mss + OVERHEAD == k.cfg.mtu < 0x8000_0000
    ensures var r := FlushData(k, d, i);
            && PackerOk(r.p, k.cfg.mtu, k.cfg.conv)
            && Contents(r.p) == Contents(d.p) + DueSegments(k, d.buf, i)
    decreases |d.buf| - i
  {
    hide PackerOk, Passed, NeedSend, Contents, FlushStep, Buffered;
    if i < |d.buf| {
      var d' := FlushStep(k, d, i);
      FlushStepOk(k, d, i);
      FlushStepBuffer(k, d, i);
      FlushDataOk(k, d', i + 1);
      DueSegmentsAgree(k, d.buf, d'.buf, i + 1);
    }
  }

  lemma FlushStepOk(k: Kcb, d: DataFlush, i: nat)
    requires i < |d.buf| && PackerOk(d.p, k.cfg.mtu, k.cfg.conv)
    requires Buffered(k.cfg, d.buf[i])
    requires k.cfg.mss + OVERHEAD == k.cfg.mtu < 0x8000_0000
    ensures var r := FlushStep(k, d, i);
            && PackerOk(r.p, k.cfg.mtu, k.cfg.conv)
            && Contents(r.p) == Contents(d.p) + (if NeedSend(k, d.buf[i]) == Keep then [] else [Passed(k, d.buf[i])])
  {
    hide PackerOk, Contents, Put;
    if NeedSend(k, d.buf[i]) != Keep { PutOk(d.p, Passed(k, d.buf[i]), k.cfg.mtu, k.cfg.conv); }
  }

  lemma {:induction false} DueSegmentsAgree(k: Kcb, a: seq<Segment>, b: seq<Segment>, i: nat)
    requires i <= |a| == |b| && forall j | i <= j < |a| :: a[j] == b[j]
    ensures DueSegments(k, a, i) == DueSegments(k, b, i)
    decreases |a| - i
  {
    if i < |a| { DueSegmentsAgree(k, a, b, i + 1); }
  }
}

/** The data of a KCP control block: 32-bit numbers, segments and the parts of the block. */
module KcpTypes {
  import opened Common

  const U32 := 0x1_0000_0000

  type u32 = x: int | 0 <= x < U32

  const CMD_PUSH: u32 := 81
  const CMD_ACK: u32 := 82
  const CMD_WASK: u32 := 83
  const CMD_WINS: u32 := 84
  const OVERHEAD := 24
  const WND_RCV := 128
  const WND_SND := 32
  const MTU_DEF := 1400
  const RTO_MIN := 100
  const RTO_DEF := 200
  const RTO_MAX := 60000
  const INTERVAL := 100
  const FASTACK_LIMIT := 5
  const DEADLINK := 20
  const THRESH_MIN: u32 := 2
  const PROBE_INIT: u32 := 7000
  const PROBE_LIMIT: u32 := 120000

  function Wrap(x: int): u32 { x % U32 }

  /** later - earlier as a signed 32-bit difference. */
  function TimeDiff(later: u32, earlier: u32): (d: int)
    ensures -0x8000_0000 <= d < 0x8000_0000
  {
    var d := Wrap(later - earlier);
    if d < 0x8000_0000 then d else d - U32
  }

  /** The 32 bits of x read as a signed number. */
  function Signed(x: u32): int { if x < 0x8000_0000 then x else x - U32 }

  /** Both are the signed 32-bit numbers that wrap to the same word. */
  lemma SignedWords(a: u32, b: u32)
    ensures -0x8000_0000 <= TimeDiff(a, b) < 0x8000_0000 && Wrap(TimeDiff(a, b)) == Wrap(a - b)
    ensures -0x8000_0000 <= Signed(a) < 0x8000_0000 && Wrap(Signed(a)) == a
  {
  }

  /** Half of x, rounded towards zero. */
  function Half(x: int): int { if x >= 0 then x / 2 else -(-x / 2) }

  lemma HalfRounds(x: int)
    ensures if x >= 0 then 0 <= x - 2 * Half(x) <= 1 else -1 <= x - 2 * Half(x) <= 0
  {
  }

  function Min(a: int, b: int): int { if a <= b then a else b }

  function Max(a: int, b: int): int { if a >= b then a else b }

  /** Unsigned division. */
  function Div(a: u32, b: u32): (q: u32)
    requires 0 < b
    ensures q <= a && q * b <= a < (q + 1) * b
  {
    DivBounds(a, b);
    a / b
  }

  lemma DivBounds(a: nat, b: nat)
    requires 0 < b
    ensures 0 <= a / b <= a && a / b * b <= a < (a / b + 1) * b
  {
    var q := a / b;
    assert a == q * b + a % b;
    assert (q + 1) * b == q * b + b;
    assert q * b >= q by { MulAtLeast(q, b); }
  }

  lemma {:induction false} MulAtLeast(q: nat, b: nat)
    requires 0 < b
    ensures q * b >= q
  {
    if q > 0 {
      MulAtLeast(q - 1, b);
      assert q * b == (q - 1) * b + b;
    }
  }

  datatype Segment = Segment(
    conv: u32, cmd: u32, frg: u32, wnd: u32, ts: u32, sn: u32, una: u32, data: seq<byte>,
    resendts: u32, rto: u32, fastack: u32, xmit: u32)

  /** A segment as ikcp_send leaves it: only its fragment number and its data are set. */
  function Fresh(frg: u32, data: seq<byte>): Segment {
    Segment(0, 0, frg, 0, 0, 0, 0, data, 0, 0, 0, 0)
  }

  datatype Ack = Ack(sn: u32, ts: u32)

  datatype Config = Config(
    conv: u32, mtu: u32, mss: u32, sndWnd: u32, rcvWnd: u32, interval: u32, minRto: u32,
    nodelay: u32, fastResend: u32, fastLimit: int, noCwnd: bool, stream: bool, deadLink: u32)

  datatype Sender = Sender(una: u32, nxt: u32, queue: seq<Segment>, buf: seq<Segment>, nQueue: int, nBuf: int)

  datatype Receiver = Receiver(nxt: u32, queue: seq<Segment>, buf: seq<Segment>, nQueue: int, nBuf: int, acks: seq<Ack>)

  datatype Flow = Flow(rmtWnd: u32, askSend: bool, askTell: bool, tsProbe: u32, probeWait: u32)

  datatype Congestion = Congestion(cwnd: u32, incr: u32, ssthresh: u32)

  datatype Clock = Clock(current: u32, tsFlush: u32, updated: bool, srtt: nat, rttval: nat, rto: u32, xmit: u32,
                         dead: bool)

  /** The value of a control block. */
  datatype Kcb = Kcb(cfg: Config, snd: Sender, rcv: Receiver, flow: Flow, cc: Congestion, clock: Clock)
}

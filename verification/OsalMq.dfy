/** The message queue of osal_posix.c as threads taking atomic steps: senders under one mutex and
    receivers under another share the byte ring, and a condition variable wakes receivers that wait. */
module OsalMq {
  import opened OsalQueue

  datatype Timeout = NoWait | Forever | Millis

  /** Where a thread is in osal_posix_mq_send or osal_posix_mq_recv. */
  datatype Pc =
    | Idle
    // sending: waiting for w_mutex, holding it, then waiting for r_mutex to signal
    | LockW(msg: seq<bv8>)
    | CheckFull(msg: seq<bv8>)
    | CopyIn(msg: seq<bv8>, k: nat)
    | Full
    | Pushed
    | LockR
    | Signal
    | Signalled
    // receiving: waiting for r_mutex, holding it, or blocked on the condition
    | WantR(timeout: Timeout)
    | CheckEmpty(timeout: Timeout, woken: bool)
    | CopyOut(timeout: Timeout, acc: seq<bv8>, woken: bool)
    | Empty(timeout: Timeout)
    | Blocked(timeout: Timeout)
    | Awake(timeout: Timeout, woken: bool, timedOut: bool)
    | Leave

  predicate HoldsW(p: Pc) { p.CheckFull? || p.CopyIn? || p.Full? || p.Pushed? }

  predicate HoldsR(p: Pc) {
    p.Signal? || p.Signalled? || p.CheckEmpty? || p.CopyOut? || p.Empty? || p.Leave?
  }

  const NIL := -1

  datatype Mq = Mq(size: nat, max: nat, buffer: seq<bv8>, read: nat, write: nat, threads: seq<Pc>, wOwner: int,
                   rOwner: int, pushed: seq<seq<bv8>>, popped: seq<seq<bv8>>)

  /** What a thread does next; Wake names the receiver a signal wakes. */
  datatype Action = Send(msg: seq<bv8>) | Recv(timeout: Timeout) | Go | Wake(receiver: nat) | Spurious | Expire

  function Set(q: Mq, t: nat, p: Pc): Mq
    requires t < |q.threads|
  {
    q.(threads := q.threads[t := p])
  }

  /** Where byte k of a message at index goes: past the end of the buffer it continues at the front. */
  function BytePos(q: Mq, index: nat, k: nat): int {
    var total := q.max * q.size;
    var copyLen := if total - index < q.size then total - index else q.size;
    if k < copyLen then index + k else k - copyLen
  }

  function Advance(q: Mq, index: nat): int
    requires 0 < q.max * q.size
  {
    (index + q.size) % (q.max * q.size)
  }

  predicate AnyBlocked(threads: seq<Pc>) {
    exists u | 0 <= u < |threads| :: threads[u].Blocked?
  }

  predicate Sized(q: Mq) { 0 < q.size && 0 < q.max && 0 < q.max * q.size == |q.buffer| }

  /** One step of thread t in osal_posix_mq_send; a step that is not possible does nothing. */
  function SendStep(q: Mq, t: nat, a: Action): Mq
    requires t < |q.threads| && Sized(q)
  {
    match q.threads[t]
    case LockW(msg) => if a == Go && q.wOwner == NIL then Set(q, t, CheckFull(msg)).(wOwner := t) else q
    case CheckFull(msg) =>
      if a != Go then q else if Advance(q, q.write) == q.read then Set(q, t, Full) else Set(q, t, CopyIn(msg, 0))
    case CopyIn(msg, k) =>
      if a != Go || k > |msg| then q
      else if k < |msg| then
        var pos := BytePos(q, q.write, k);
        if 0 <= pos < |q.buffer| then Set(q, t, CopyIn(msg, k + 1)).(buffer := q.buffer[pos := msg[k]]) else q
      else Set(q, t, Pushed).(write := Advance(q, q.write), pushed := q.pushed + [msg])
    case Full => if a == Go then Set(q, t, Idle).(wOwner := NIL) else q
    case Pushed => if a == Go then Set(q, t, LockR).(wOwner := NIL) else q
    case LockR => if a == Go && q.rOwner == NIL then Set(q, t, Signal).(rOwner := t) else q
    case Signal =>
      if a.Wake? && a.receiver < |q.threads| && q.threads[a.receiver].Blocked? then
        Set(Set(q, a.receiver, Awake(q.threads[a.receiver].timeout, true, false)), t, Signalled)
      else if a.Wake? && !AnyBlocked(q.threads) then Set(q, t, Signalled)
      else q
    case Signalled => if a == Go then Set(q, t, Idle).(rOwner := NIL) else q
    case _ => q
  }

  /** One step of thread t in osal_posix_mq_recv. */
  function RecvStep(q: Mq, t: nat, a: Action): Mq
    requires t < |q.threads| && Sized(q)
  {
    match q.threads[t]
    case WantR(timeout) => if a == Go && q.rOwner == NIL then Set(q, t, CheckEmpty(timeout, false)).(rOwner := t) else q
    case CheckEmpty(timeout, woken) =>
      if a != Go then q
      else if q.read == q.write then Set(q, t, Empty(timeout))
      else Set(q, t, CopyOut(timeout, [], woken))
    case CopyOut(timeout, acc, woken) =>
      if a != Go then q
      else if |acc| < q.size then
        var pos := BytePos(q, q.read, |acc|);
        if 0 <= pos < |q.buffer| then Set(q, t, CopyOut(timeout, acc + [q.buffer[pos]], woken)) else q
      else Set(q, t, Leave).(read := Advance(q, q.read), popped := q.popped + [acc])
    case Empty(timeout) =>
      if a != Go then q else if timeout == NoWait then Set(q, t, Leave) else Set(q, t, Blocked(timeout)).(rOwner := NIL)
    case Blocked(timeout) =>
      if a == Spurious then Set(q, t, Awake(timeout, false, false))
      else if a == Expire && timeout == Millis then Set(q, t, Awake(timeout, false, true))
      else q
    case Awake(timeout, woken, timedOut) =>
      if a != Go || q.rOwner != NIL then q
      else if timedOut then Set(q, t, Leave).(rOwner := t)
      else Set(q, t, CheckEmpty(timeout, woken)).(rOwner := t)
    case Leave => if a == Go then Set(q, t, Idle).(rOwner := NIL) else q
    case _ => q
  }

  function Step(q: Mq, t: nat, a: Action): (r: Mq)
    requires t < |q.threads| && Sized(q)
    ensures Sized(r) && |r.threads| == |q.threads| && r.size == q.size && r.max == q.max
  {
    if q.threads[t].Idle? then
      if a.Send? && |a.msg| == q.size then Set(q, t, LockW(a.msg))
      else if a.Recv? then Set(q, t, WantR(a.timeout))
      else q
    else if q.threads[t].LockW? || HoldsW(q.threads[t]) || q.threads[t].LockR? || q.threads[t].Signal?
      || q.threads[t].Signalled?
    then SendStep(q, t, a)
    else RecvStep(q, t, a)
  }

  // ----- the invariant -----

  /** Each mutex is held by exactly the thread that is inside it. */
  ghost predicate Owners(q: Mq) {
    forall t | 0 <= t < |q.threads| ::
      (HoldsW(q.threads[t]) <==> q.wOwner == t) && (HoldsR(q.threads[t]) <==> q.rOwner == t)
  }

  /** The ring holds what has been pushed and not popped, and what was popped is what was pushed first. */
  ghost predicate Ring(q: Mq) {
    && Sized(q)
    && |q.popped| <= |q.pushed| < |q.popped| + q.max
    && q.read == Slot(|q.popped|, q.max, q.size) && q.write == Slot(|q.pushed|, q.max, q.size)
    && q.popped == q.pushed[..|q.popped|]
    && Holds(q.buffer, q.max, q.size, |q.popped|, q.pushed[|q.popped|..])
  }

  /** A sender in its copy has a free slot, and has written the first k bytes of it. */
  ghost predicate Writing(q: Mq, p: Pc)
    requires Ring(q)
  {
    match p
    case LockW(msg) => |msg| == q.size
    case CheckFull(msg) => |msg| == q.size
    case CopyIn(msg, k) =>
      && |msg| == q.size && k <= q.size && |q.pushed| + 1 < |q.popped| + q.max
      && q.write + k <= |q.buffer| && q.buffer[q.write..q.write + k] == msg[..k]
    case _ => true
  }

  /** A receiver in its copy has the first bytes of the oldest queued message. */
  ghost predicate Reading(q: Mq, p: Pc)
    requires Ring(q)
  {
    && (p.CopyOut? ==>
          |q.popped| < |q.pushed| && |p.acc| <= q.size == |q.pushed[|q.popped|]|
            && p.acc == q.pushed[|q.popped|][..|p.acc|])
    && (p.Awake? ==> !(p.woken && p.timedOut))
  }

  ghost predicate Copies(q: Mq)
    requires Ring(q)
  {
    && (forall t | 0 <= t < |q.threads| :: Writing(q, q.threads[t]) && Reading(q, q.threads[t]))
    && (forall i | 0 <= i < |q.pushed| :: |q.pushed[i]| == q.size)
  }

  /** A sender that has pushed and not yet signalled. */
  predicate Owing(p: Pc) { p.Pushed? || p.LockR? || p.Signal? }

  /** A receiver that was signalled and has not yet tried its pop again. */
  predicate Retrying(p: Pc) { (p.Awake? || p.CheckEmpty? || p.CopyOut?) && p.woken }

  function Count(threads: seq<Pc>, f: Pc -> bool): nat {
    if |threads| == 0 then 0 else (if f(threads[0]) then 1 else 0) + Count(threads[1..], f)
  }

  /** While a receiver is blocked, or about to block, every queued message is accounted for by a sender
      that still has to signal or by a signalled receiver. */
  ghost predicate Woken(q: Mq) {
    (exists t | 0 <= t < |q.threads| :: Waiting(q.threads[t])) ==>
      Queued(q) <= Count(q.threads, Owing) + Count(q.threads, Retrying)
  }

  predicate Waiting(p: Pc) { p.Blocked? || p.Empty? }

  function Queued(q: Mq): int { |q.pushed| - |q.popped| }

  ghost predicate Ok(q: Mq) {
    Owners(q) && Ring(q) && Copies(q) && Woken(q)
  }

  // ----- counting -----

  lemma {:induction false} CountSet(threads: seq<Pc>, t: nat, p: Pc, f: Pc -> bool)
    requires t < |threads|
    ensures Count(threads[t := p], f)
         == Count(threads, f) - (if f(threads[t]) then 1 else 0) + (if f(p) then 1 else 0)
    decreases |threads|
  {
    var r := threads[t := p];
    if t == 0 {
      assert r[1..] == threads[1..];
    } else {
      assert r[1..] == threads[1..][t - 1 := p];
      CountSet(threads[1..], t - 1, p, f);
    }
  }

  // ----- mutexes -----

  /** The owner of a mutex once thread t has moved from p to p'. */
  function NewOwner(owner: int, t: nat, before: bool, after: bool): int {
    if after then t else if before then NIL else owner
  }

  lemma OwnersSet(q: Mq, t: nat, p: Pc, r: Mq)
    requires t < |q.threads| && Owners(q) && r.threads == q.threads[t := p]
    requires HoldsW(p) && !HoldsW(q.threads[t]) ==> q.wOwner == NIL
    requires HoldsR(p) && !HoldsR(q.threads[t]) ==> q.rOwner == NIL
    requires r.wOwner == NewOwner(q.wOwner, t, HoldsW(q.threads[t]), HoldsW(p))
    requires r.rOwner == NewOwner(q.rOwner, t, HoldsR(q.threads[t]), HoldsR(p))
    ensures Owners(r)
  {
  }

  lemma OwnersKept(q: Mq, t: nat, a: Action)
    requires t < |q.threads| && Sized(q) && Owners(q)
    ensures Owners(Step(q, t, a))
  {
    OwnersSend(q, t, a);
    OwnersRecv(q, t, a);
    hide SendStep, RecvStep;
    if q.threads[t].Idle? { OwnersOf(q, t); }
  }

  lemma OwnersSend(q: Mq, t: nat, a: Action)
    requires t < |q.threads| && Sized(q) && Owners(q)
    ensures Owners(SendStep(q, t, a))
  {
    hide Owners, AnyBlocked, BytePos, Advance;
    var r := SendStep(q, t, a);
    OwnersOf(q, t);
    if q.threads[t].Signal? && a.Wake? && a.receiver < |q.threads| && q.threads[a.receiver].Blocked? {
      var q1 := Set(q, a.receiver, Awake(q.threads[a.receiver].timeout, true, false));
      OwnersOf(q, a.receiver);
      OwnersSet(q, a.receiver, q1.threads[a.receiver], q1);
      OwnersSet(q1, t, r.threads[t], r);
    } else if r != q {
      OwnersSet(q, t, r.threads[t], r);
    }
  }

  lemma OwnersRecv(q: Mq, t: nat, a: Action)
    requires t < |q.threads| && Sized(q) && Owners(q)
    ensures Owners(RecvStep(q, t, a))
  {
    hide Owners, BytePos, Advance;
    var r := RecvStep(q, t, a);
    OwnersOf(q, t);
    if r != q { OwnersSet(q, t, r.threads[t], r); }
  }

  lemma OwnersOf(q: Mq, t: nat)
    requires t < |q.threads| && Owners(q)
    ensures (HoldsW(q.threads[t]) <==> q.wOwner == t) && (HoldsR(q.threads[t]) <==> q.rOwner == t)
  {
  }

  // ----- no lost wakeup -----

  function B(b: bool): int { if b then 1 else 0 }

  /** A step of one thread keeps Woken when the messages it adds are paid for, or none are left. */
  lemma WokenSet(q: Mq, t: nat, p: Pc, r: Mq)
    requires t < |q.threads| && Woken(q) && r.threads == q.threads[t := p]
    requires Queued(r) > 0 ==>
      && (Waiting(p) ==> Waiting(q.threads[t]))
      && Queued(r) - B(Owing(p)) - B(Retrying(p)) <= Queued(q) - B(Owing(q.threads[t])) - B(Retrying(q.threads[t]))
    ensures Woken(r)
  {
    CountSet(q.threads, t, p, Owing);
    CountSet(q.threads, t, p, Retrying);
    hide Owing, Retrying, Count;
    if Queued(r) > 0 && exists u :: 0 <= u < |r.threads| && Waiting(r.threads[u]) {
      var u :| 0 <= u < |r.threads| && Waiting(r.threads[u]);
      assert Waiting(q.threads[u]);
    }
  }

  /** With nobody waiting there is nothing to show. */
  lemma NobodyWaits(q: Mq)
    requires forall u | 0 <= u < |q.threads| :: !Waiting(q.threads[u])
    ensures Woken(q)
  {
  }

  /** A signal with nobody blocked: nobody is about to block either, as the signaller holds the mutex. */
  lemma SignalNobody(q: Mq, t: nat, r: Mq)
    requires t < |q.threads| && Owners(q) && q.threads[t].Signal? && !AnyBlocked(q.threads)
    requires r.threads == q.threads[t := Signalled]
    ensures Woken(r)
  {
    OwnersOf(q, t);
    forall u | 0 <= u < |r.threads| ensures !Waiting(r.threads[u]) {
      OwnersOf(q, u);
    }
    NobodyWaits(r);
  }

  lemma WokenSend(q: Mq, t: nat, a: Action)
    requires t < |q.threads| && Sized(q) && Owners(q) && Woken(q)
    ensures Woken(SendStep(q, t, a))
  {
    hide Owners, Woken, BytePos, Advance, AnyBlocked;
    var r := SendStep(q, t, a);
    if q.threads[t].Signal? && r != q {
      if a.receiver < |q.threads| && q.threads[a.receiver].Blocked? {
        SignalSomebody(q, t, a.receiver, r);
      } else {
        SignalNobody(q, t, r);
      }
    } else if r != q {
      WokenSet(q, t, r.threads[t], r);
    }
  }

  /** A signal hands its debt over to the receiver it wakes. */
  lemma SignalSomebody(q: Mq, t: nat, u: nat, r: Mq)
    requires t < |q.threads| && u < |q.threads| && Woken(q) && q.threads[t].Signal? && q.threads[u].Blocked?
    requires r == Set(Set(q, u, Awake(q.threads[u].timeout, true, false)), t, Signalled)
    ensures Woken(r)
  {
    var q1 := Set(q, u, Awake(q.threads[u].timeout, true, false));
    CountSet(q.threads, u, q1.threads[u], Owing);
    CountSet(q.threads, u, q1.threads[u], Retrying);
    CountSet(q1.threads, t, Signalled, Owing);
    CountSet(q1.threads, t, Signalled, Retrying);
    hide Count;
    assert Waiting(q.threads[u]);
  }

  lemma WokenRecv(q: Mq, t: nat, a: Action)
    requires t < |q.threads| && Ring(q) && Copies(q) && Woken(q)
    ensures Woken(RecvStep(q, t, a))
  {
    EmptyMeans(|q.popped|, |q.pushed|, q.max, q.size);
    assert Reading(q, q.threads[t]);
    hide Woken, BytePos, Advance, Holds, Copies, Slot, Writing;
    var r := RecvStep(q, t, a);
    if r != q { WokenSet(q, t, r.threads[t], r); }
  }

  // ----- the ring under concurrent copies -----

  /** The part of the state the ring's invariant is about. */
  predicate SameRing(q: Mq, r: Mq) {
    && r.size == q.size && r.max == q.max && r.buffer == q.buffer && r.read == q.read && r.write == q.write
    && r.pushed == q.pushed && r.popped == q.popped
  }

  /** A step that only moves one thread. */
  lemma MoveKept(q: Mq, t: nat, p: Pc, r: Mq)
    requires Ring(q) && Copies(q) && SameRing(q, r) && t < |q.threads| && r.threads == q.threads[t := p]
    requires Writing(q, p) && Reading(q, p)
    ensures Ring(r) && Copies(r)
  {
    hide Holds, Slot;
  }

  lemma SignalKept(q: Mq, t: nat, u: nat, r: Mq)
    requires Ring(q) && Copies(q) && t < |q.threads| && u < |q.threads| && q.threads[u].Blocked?
    requires r == Set(Set(q, u, Awake(q.threads[u].timeout, true, false)), t, Signalled)
    ensures Ring(r) && Copies(r)
  {
    hide Holds, Slot;
    var q1 := Set(q, u, Awake(q.threads[u].timeout, true, false));
    MoveKept(q, u, q1.threads[u], q1);
    MoveKept(q1, t, Signalled, r);
  }

  /** The copy of a message never reaches the end of the buffer before the message does. */
  lemma NoSplit(q: Mq, k: nat)
    requires Ring(q)
    ensures q.max * q.size - q.write >= q.size && q.max * q.size - q.read >= q.size
    ensures k < q.size ==> BytePos(q, q.write, k) == q.write + k && BytePos(q, q.read, k) == q.read + k
  {
    SlotFits(|q.pushed|, q.max, q.size);
    SlotFits(|q.popped|, q.max, q.size);
  }

  /** Copying one byte of a message into its free slot. */
  lemma WriteKept(q: Mq, t: nat, msg: seq<bv8>, k: nat, r: Mq)
    requires Owners(q) && Ring(q) && Copies(q) && t < |q.threads| && q.threads[t] == CopyIn(msg, k) && k < |msg|
    requires q.write + k < |q.buffer|
    requires r == Set(q, t, CopyIn(msg, k + 1)).(buffer := q.buffer[q.write + k := msg[k]])
    ensures Ring(r) && Copies(r)
  {
    assert Writing(q, q.threads[t]);
    NoSplit(q, k);
    HoldsElsewhere(q.buffer, r.buffer, q.max, q.size, |q.popped|, q.pushed[|q.popped|..]);
    OwnersOf(q, t);
    hide Holds, Slot;
    assert r.buffer[q.write..q.write + k] == q.buffer[q.write..q.write + k];
    assert r.buffer[q.write..q.write + (k + 1)] == msg[..k + 1];
    forall u | 0 <= u < |r.threads|
      ensures Writing(r, r.threads[u]) && Reading(r, r.threads[u])
    {
      if u != t {
        OwnersOf(q, u);
        assert Writing(q, q.threads[u]) && Reading(q, q.threads[u]);
      }
    }
  }

  /** Publishing a message: its slot becomes part of the queue. */
  lemma PushKept(q: Mq, t: nat, msg: seq<bv8>, r: Mq)
    requires Owners(q) && Ring(q) && Copies(q) && t < |q.threads| && q.threads[t] == CopyIn(msg, |msg|)
    requires r == Set(q, t, Pushed).(write := Advance(q, q.write), pushed := q.pushed + [msg])
    ensures Ring(r) && Copies(r)
  {
    assert Writing(q, q.threads[t]);
    SlotNext(|q.pushed|, q.max, q.size);
    NoSplit(q, 0);
    var queued := q.pushed[|q.popped|..];
    assert HoldsAt(q.buffer, q.max, q.size, |q.popped| + |queued|, msg);
    HoldsOneMore(q.buffer, q.max, q.size, |q.popped|, queued, msg);
    assert r.pushed[|q.popped|..] == queued + [msg];
    OwnersOf(q, t);
    hide Holds, Slot;
    assert r.pushed[..|r.popped|] == q.pushed[..|q.popped|];
    forall u | 0 <= u < |r.threads|
      ensures Writing(r, r.threads[u]) && Reading(r, r.threads[u])
    {
      if u != t {
        OwnersOf(q, u);
        assert Writing(q, q.threads[u]) && Reading(q, q.threads[u]);
      }
    }
  }

  /** Taking a message off the queue. */
  lemma PopKept(q: Mq, t: nat, timeout: Timeout, acc: seq<bv8>, woken: bool, r: Mq)
    requires Owners(q) && Ring(q) && Copies(q) && t < |q.threads|
    requires q.threads[t] == CopyOut(timeout, acc, woken) && |acc| == q.size
    requires r == Set(q, t, Leave).(read := Advance(q, q.read), popped := q.popped + [acc])
    ensures Ring(r) && Copies(r)
  {
    assert Reading(q, q.threads[t]);
    SlotNext(|q.popped|, q.max, q.size);
    var queued := q.pushed[|q.popped|..];
    HoldsOneLess(q.buffer, q.max, q.size, |q.popped|, queued);
    assert queued[1..] == r.pushed[|r.popped|..];
    OwnersOf(q, t);
    hide Holds, Slot;
    assert acc == q.pushed[|q.popped|];
    assert r.pushed[..|r.popped|] == q.pushed[..|q.popped|] + [acc];
    forall u | 0 <= u < |r.threads|
      ensures Writing(r, r.threads[u]) && Reading(r, r.threads[u])
    {
      if u != t {
        OwnersOf(q, u);
        assert Writing(q, q.threads[u]) && Reading(q, q.threads[u]);
      }
    }
  }

  /** The next byte a receiver reads is the next byte of the oldest message. */
  lemma ReadByte(q: Mq, k: nat)
    requires Ring(q) && |q.popped| < |q.pushed| && k < q.size == |q.pushed[|q.popped|]|
    ensures q.read + k < |q.buffer| && q.buffer[q.read + k] == q.pushed[|q.popped|][k]
  {
    var queued := q.pushed[|q.popped|..];
    assert HoldsAt(q.buffer, q.max, q.size, |q.popped| + 0, queued[0]);
    assert queued[0] == Stored(q.buffer, q.read, q.size);
  }

  /** A step of a copying sender: the next byte, or the publication. */
  lemma CopyInKept(q: Mq, t: nat, a: Action)
    requires t < |q.threads| && Owners(q) && Ring(q) && Copies(q) && q.threads[t].CopyIn?
    ensures Ring(SendStep(q, t, a)) && Copies(SendStep(q, t, a))
  {
    var msg, k := q.threads[t].msg, q.threads[t].k;
    assert Writing(q, q.threads[t]);
    NoSplit(q, k);
    hide Ring, Copies, Owners, Slot, Holds, BytePos, Advance;
    var r := SendStep(q, t, a);
    if r == q {
    } else if k < |msg| {
      WriteKept(q, t, msg, k, r);
    } else {
      PushKept(q, t, msg, r);
    }
  }

  lemma SendKept(q: Mq, t: nat, a: Action)
    requires t < |q.threads| && Owners(q) && Ring(q) && Copies(q)
    ensures Ring(SendStep(q, t, a)) && Copies(SendStep(q, t, a))
  {
    if q.threads[t].CopyIn? {
      CopyInKept(q, t, a);
    } else {
      SendMoveKept(q, t, a);
    }
  }

  /** What a step that only moves a sender leads to. */
  lemma SendMoves(q: Mq, t: nat, a: Action)
    requires t < |q.threads| && Ring(q) && Copies(q) && !q.threads[t].CopyIn?
    ensures var p := SendStep(q, t, a).threads[t]; Writing(q, p) && Reading(q, p)
  {
    assert Writing(q, q.threads[t]) && Reading(q, q.threads[t]);
    if q.threads[t].CheckFull? {
      FullMeans(|q.popped|, |q.pushed|, q.max, q.size);
      SlotFits(|q.pushed|, q.max, q.size);
      assert q.buffer[q.write..q.write + 0] == q.threads[t].msg[..0];
    }
    hide Copies, Slot, Holds, AnyBlocked, BytePos;
  }

  lemma SendMoveKept(q: Mq, t: nat, a: Action)
    requires t < |q.threads| && Owners(q) && Ring(q) && Copies(q) && !q.threads[t].CopyIn?
    ensures Ring(SendStep(q, t, a)) && Copies(SendStep(q, t, a))
  {
    SendMoves(q, t, a);
    hide Copies, Owners, Slot, Holds, AnyBlocked, BytePos, Writing, Reading, Advance;
    var r := SendStep(q, t, a);
    if q.threads[t].Signal? && a.Wake? && a.receiver < |q.threads| && q.threads[a.receiver].Blocked? {
      SignalKept(q, t, a.receiver, r);
    } else if r != q {
      MoveKept(q, t, r.threads[t], r);
    }
  }

  lemma RecvKept(q: Mq, t: nat, a: Action)
    requires t < |q.threads| && Owners(q) && Ring(q) && Copies(q)
    ensures Ring(RecvStep(q, t, a)) && Copies(RecvStep(q, t, a))
  {
    assert Writing(q, q.threads[t]) && Reading(q, q.threads[t]);
    EmptyMeans(|q.popped|, |q.pushed|, q.max, q.size);
    assert |q.popped| < |q.pushed| ==> |q.pushed[|q.popped|]| == q.size;
    var r := RecvStep(q, t, a);
    var p := q.threads[t];
    if p.CopyOut? && |p.acc| == q.size {
      hide Copies, Slot, Holds, Owners;
      if r != q { PopKept(q, t, p.timeout, p.acc, p.woken, r); }
    } else if r != q {
      if p.CopyOut? { ReadByte(q, |p.acc|); NoSplit(q, |p.acc|); }
      hide Copies, Owners, Slot, Holds, BytePos;
      MoveKept(q, t, r.threads[t], r);
    }
  }

  /** Every step of every thread keeps the queue in order. */
  lemma StepKept(q: Mq, t: nat, a: Action)
    requires Ok(q) && t < |q.threads|
    ensures Ok(Step(q, t, a))
  {
    OwnersKept(q, t, a);
    SendKept(q, t, a);
    RecvKept(q, t, a);
    WokenSend(q, t, a);
    WokenRecv(q, t, a);
    hide SendStep, RecvStep, Owners, Copies, Ring, Woken;
    if q.threads[t].Idle? {
      CallKept(q, t, a);
    }
  }

  lemma CallKept(q: Mq, t: nat, a: Action)
    requires Ok(q) && t < |q.threads| && q.threads[t].Idle?
    ensures Ring(Step(q, t, a)) && Copies(Step(q, t, a)) && Woken(Step(q, t, a))
  {
    hide Owners, Copies, Woken, Slot, Holds;
    var r := Step(q, t, a);
    if r != q {
      MoveKept(q, t, r.threads[t], r);
      WokenSet(q, t, r.threads[t], r);
    }
  }

  // ----- runs -----

  /** osal_posix_mq_create, and n threads that have not called anything yet. */
  function Create(size: nat, max: nat, n: nat): Mq {
    Mq(size, max, seq(max * size, i requires 0 <= i < max * size => 0), 0, 0, seq(n, t requires 0 <= t < n => Idle),
       NIL, NIL, [], [])
  }

  lemma CreateOk(size: nat, max: nat, n: nat)
    requires 0 < size && 0 < max
    ensures Ok(Create(size, max, n))
  {
    SlotFits(0, max, size);
  }

  /** Any number of steps of any threads in any order. */
  function Run(q: Mq, steps: seq<(nat, Action)>): (r: Mq)
    requires Sized(q)
    ensures Sized(r)
    decreases |steps|
  {
    if |steps| == 0 then q
    else Run(if steps[0].0 < |q.threads| then Step(q, steps[0].0, steps[0].1) else q, steps[1..])
  }

  lemma {:induction false} RunKept(q: Mq, steps: seq<(nat, Action)>)
    requires Ok(q)
    ensures Ok(Run(q, steps))
    decreases |steps|
  {
    hide Owners, Holds, Slot, Copies, Woken, Step;
    if |steps| > 0 {
      if steps[0].0 < |q.threads| { StepKept(q, steps[0].0, steps[0].1); }
      RunKept(if steps[0].0 < |q.threads| then Step(q, steps[0].0, steps[0].1) else q, steps[1..]);
    }
  }

  // ----- the theorems -----

  /** Whatever the interleaving of calls, copies, index updates, signals and timeouts: the messages
      received are the first messages sent, whole and in order, and at most max - 1 are queued. */
  lemma FirstInFirstOut(size: nat, max: nat, n: nat, steps: seq<(nat, Action)>)
    requires 0 < size && 0 < max
    ensures Sized(Create(size, max, n))
    ensures var q := Run(Create(size, max, n), steps);
            && q.popped <= q.pushed && |q.pushed| - |q.popped| < max
            && (forall i | 0 <= i < |q.pushed| :: |q.pushed[i]| == size)
            && q.read % size == 0 && q.write % size == 0
  {
    CreateOk(size, max, n);
    RunKept(Create(size, max, n), steps);
    RunSizes(Create(size, max, n), steps);
    var q := Run(Create(size, max, n), steps);
    Multiple(|q.popped| % max, size);
    Multiple(|q.pushed| % max, size);
  }

  /** A queue made for one message never takes any: one slot always stays free. */
  lemma NoRoomForOne(size: nat, n: nat, steps: seq<(nat, Action)>)
    requires 0 < size
    ensures Sized(Create(size, 1, n)) && Run(Create(size, 1, n), steps).pushed == []
  {
    CreateOk(size, 1, n);
    RunTakesNothing(Create(size, 1, n), steps);
  }

  lemma {:induction false} RunTakesNothing(q: Mq, steps: seq<(nat, Action)>)
    requires Ok(q) && q.max == 1 && q.pushed == []
    ensures Run(q, steps).pushed == []
    decreases |steps|
  {
    if |steps| > 0 {
      var (t, a) := steps[0];
      var r := if t < |q.threads| then Step(q, t, a) else q;
      if t < |q.threads| {
        StepKept(q, t, a);
        TakesNothing(q, t, a);
      }
      hide Ok, Step;
      RunTakesNothing(r, steps[1..]);
    }
  }

  lemma TakesNothing(q: Mq, t: nat, a: Action)
    requires Ok(q) && q.max == 1 && q.pushed == [] && t < |q.threads| && Ok(Step(q, t, a))
    ensures Step(q, t, a).pushed == []
  {
    hide Owners, Copies, Woken, Holds, Slot;
    assert Ring(q) && Ring(Step(q, t, a));
  }

  lemma {:induction false} RunSizes(q: Mq, steps: seq<(nat, Action)>)
    requires Sized(q)
    ensures Run(q, steps).size == q.size && Run(q, steps).max == q.max
    decreases |steps|
  {
    hide Step;
    if |steps| > 0 { RunSizes(if steps[0].0 < |q.threads| then Step(q, steps[0].0, steps[0].1) else q, steps[1..]); }
  }

  /** No lost wakeup, in every reachable state. In particular, once nobody owes a signal and nobody
      signalled has yet to retry, a receiver that is blocked waits on an empty queue. */
  lemma NoLostWakeup(size: nat, max: nat, n: nat, steps: seq<(nat, Action)>)
    requires 0 < size && 0 < max
    ensures Sized(Create(size, max, n))
    ensures var q := Run(Create(size, max, n), steps);
            AnyBlocked(q.threads) ==> Queued(q) <= Count(q.threads, Owing) + Count(q.threads, Retrying)
  {
    CreateOk(size, max, n);
    RunKept(Create(size, max, n), steps);
    var q := Run(Create(size, max, n), steps);
    if AnyBlocked(q.threads) {
      var u :| 0 <= u < |q.threads| && q.threads[u].Blocked?;
      assert Waiting(q.threads[u]);
    }
  }

  /** While a receiver copies a message out, no step of another thread writes a byte of its slot. */
  lemma SlotBeingReadIsStable(q: Mq, t: nat, u: nat, a: Action)
    requires Ok(q) && t < |q.threads| && u < |q.threads| && q.threads[u].CopyOut? && t != u
    ensures var r := Step(q, t, a);
            r.read == q.read && q.read + q.size <= |q.buffer|
            && r.buffer[q.read..q.read + q.size] == q.buffer[q.read..q.read + q.size]
  {
    assert Reading(q, q.threads[u]) && Writing(q, q.threads[t]);
    OwnersOf(q, t);
    OwnersOf(q, u);
    NoSplit(q, if q.threads[t].CopyIn? then q.threads[t].k else 0);
    SlotsApart(|q.popped|, |q.pushed|, q.max, q.size);
    hide Owners, Holds, Copies, Woken, Slot, BytePos, Advance;
    var r := Step(q, t, a);
    assert r.read == q.read;
  }

  // ----- what each call does in the end -----

  /** The threads that satisfy f. */
  ghost function Those(threads: seq<Pc>, f: Pc -> bool): set<int> {
    set t | 0 <= t < |threads| && f(threads[t])
  }

  /** The numbers in the wake-up accounting are numbers of threads. */
  lemma {:induction false} CountIs(threads: seq<Pc>, f: Pc -> bool)
    ensures Count(threads, f) == |Those(threads, f)|
    decreases |threads|
  {
    if |threads| == 0 {
      assert Those(threads, f) == {};
    } else {
      var n := |threads| - 1;
      var rest := Those(threads[..n], f);
      CountIs(threads[..n], f);
      CountLast(threads[..n], threads[n], f);
      assert threads == threads[..n] + [threads[n]];
      assert Those(threads, f) == rest + if f(threads[n]) then {n} else {};
    }
  }

  lemma {:induction false} CountLast(threads: seq<Pc>, p: Pc, f: Pc -> bool)
    ensures Count(threads + [p], f) == Count(threads, f) + if f(p) then 1 else 0
    decreases |threads|
  {
    if |threads| == 0 {
      assert threads + [p] == [p];
    } else {
      CountLast(threads[1..], p, f);
      assert (threads + [p])[1..] == threads[1..] + [p];
    }
  }

  /** A thread that is in no call can start one. */
  lemma CallStarts(q: Mq, t: nat, a: Action)
    requires Sized(q) && t < |q.threads| && q.threads[t].Idle?
    ensures a.Send? && |a.msg| == q.size ==> Step(q, t, a) == Set(q, t, LockW(a.msg))
    ensures a.Recv? ==> Step(q, t, a) == Set(q, t, WantR(a.timeout))
  {
  }

  /** A blocked receiver wakes up without a signal only spuriously, or at its timeout. */
  lemma WakesWithoutSignal(q: Mq, t: nat, a: Action)
    requires Sized(q) && t < |q.threads| && q.threads[t].Blocked?
    ensures Step(q, t, a) != q ==> a == Spurious || (a == Expire && q.threads[t].timeout == Millis)
    ensures Step(q, t, a) != q ==> Step(q, t, a) == Set(q, t, Awake(q.threads[t].timeout, false, a == Expire))
  {
  }

  /** A sender goes on to copy exactly when fewer than max - 1 messages are queued. */
  lemma SenderDecides(q: Mq, t: nat)
    requires Ok(q) && t < |q.threads| && q.threads[t].CheckFull?
    ensures Step(q, t, Go)
         == Set(q, t, if Queued(q) < q.max - 1 then CopyIn(q.threads[t].msg, 0) else Full)
  {
    FullMeans(|q.popped|, |q.pushed|, q.max, q.size);
    hide Owners, Holds, Copies, Woken, Slot;
  }

  /** A receiver goes on to copy exactly when a message is queued, and otherwise leaves or waits as its
      timeout says. */
  lemma ReceiverDecides(q: Mq, t: nat)
    requires Ok(q) && t < |q.threads| && q.threads[t].CheckEmpty?
    ensures var p := q.threads[t];
            Step(q, t, Go) == Set(q, t, if Queued(q) > 0 then CopyOut(p.timeout, [], p.woken) else Empty(p.timeout))
  {
    EmptyMeans(|q.popped|, |q.pushed|, q.max, q.size);
    hide Owners, Holds, Copies, Woken, Slot;
  }

  lemma EmptyLeavesOrWaits(q: Mq, t: nat)
    requires Sized(q) && t < |q.threads| && q.threads[t].Empty?
    ensures Step(q, t, Go).threads[t] == if q.threads[t].timeout == NoWait then Leave else Blocked(q.threads[t].timeout)
  {
  }

  /** A sender in its copy moves on byte by byte and ends by queueing its message. */
  lemma CopyInMoves(q: Mq, t: nat)
    requires Ok(q) && t < |q.threads| && q.threads[t].CopyIn?
    ensures var p, r := q.threads[t], Step(q, t, Go);
            if p.k < q.size then r.threads == q.threads[t := CopyIn(p.msg, p.k + 1)] && r.pushed == q.pushed
            else r.threads == q.threads[t := Pushed] && r.pushed == q.pushed + [p.msg]
  {
    assert Writing(q, q.threads[t]);
    if q.threads[t].k < q.size { NoSplit(q, q.threads[t].k); }
    hide Owners, Holds, Copies, Woken, Slot, BytePos, Advance;
  }

  /** A receiver in its copy moves on byte by byte and ends by taking the oldest queued message. */
  lemma CopyOutMoves(q: Mq, t: nat)
    requires Ok(q) && t < |q.threads| && q.threads[t].CopyOut?
    ensures var p, r := q.threads[t], Step(q, t, Go);
            if |p.acc| < q.size then r.threads[t].CopyOut? && |r.threads[t].acc| == |p.acc| + 1 && r.popped == q.popped
            else r.threads == q.threads[t := Leave] && r.popped == q.pushed[..|q.popped| + 1]
  {
    assert Reading(q, q.threads[t]);
    var n := |q.threads[t].acc|;
    if n < q.size { ReadByte(q, n); NoSplit(q, n); }
    hide Ok, Ring, Reading, BytePos, Advance;
    if n == q.size { OldestWhole(q, t); }
  }

  lemma OldestWhole(q: Mq, t: nat)
    requires Ok(q) && t < |q.threads| && q.threads[t].CopyOut? && |q.threads[t].acc| == q.size
    ensures |q.popped| < |q.pushed| && q.popped + [q.threads[t].acc] == q.pushed[..|q.popped| + 1]
  {
    assert Reading(q, q.threads[t]);
    hide Owners, Holds, Woken, Slot;
    var oldest := q.pushed[|q.popped|];
    assert oldest[..q.size] == oldest;
    assert q.pushed[..|q.popped| + 1] == q.pushed[..|q.popped|] + [oldest];
  }

  /** In the middle of a call, and not blocked. */
  predicate Busy(p: Pc) { !p.Idle? && !p.Blocked? }

  /** A thread that holds what its next step needs. */
  lemma HolderMoves(q: Mq, t: nat)
    requires Ok(q) && t < |q.threads| && (HoldsW(q.threads[t]) || HoldsR(q.threads[t]))
    ensures exists a :: Step(q, t, a).threads != q.threads
  {
    var p := q.threads[t];
    if p.Signal? {
      SignalMoves(q, t);
    } else {
      if p.CheckFull? { SenderDecides(q, t); }
      if p.CheckEmpty? { ReceiverDecides(q, t); }
      if p.CopyIn? { CopyInMoves(q, t); }
      if p.CopyOut? { CopyOutMoves(q, t); }
      hide Ok, Advance, BytePos;
      assert Step(q, t, Go).threads[t] != p;
    }
  }

  lemma SignalMoves(q: Mq, t: nat)
    requires Sized(q) && t < |q.threads| && q.threads[t].Signal?
    ensures exists a :: Step(q, t, a).threads != q.threads
  {
    if u :| 0 <= u < |q.threads| && q.threads[u].Blocked? {
      assert Step(q, t, Wake(u)).threads[t] == Signalled;
    } else {
      assert Step(q, t, Wake(0)).threads[t] == Signalled;
    }
  }

  /** No deadlock: in every reachable state, if some thread is in the middle of a call and not blocked, some
      thread can take a step. */
  lemma NoDeadlock(size: nat, max: nat, n: nat, steps: seq<(nat, Action)>)
    requires 0 < size && 0 < max
    ensures Sized(Create(size, max, n))
    ensures var q := Run(Create(size, max, n), steps);
            (exists t :: 0 <= t < |q.threads| && Busy(q.threads[t])) ==>
              exists t: nat, a :: t < |q.threads| && Step(q, t, a).threads != q.threads
  {
    CreateOk(size, max, n);
    RunKept(Create(size, max, n), steps);
    var q := Run(Create(size, max, n), steps);
    if exists t :: 0 <= t < |q.threads| && Busy(q.threads[t]) {
      RunHeld(Create(size, max, n), steps);
      var t :| 0 <= t < |q.threads| && Busy(q.threads[t]);
      hide Run, Create;
      SomeStep(q, t);
    }
  }

  /** A mutex is free or held by a thread. */
  predicate Held(q: Mq) { -1 <= q.wOwner < |q.threads| && -1 <= q.rOwner < |q.threads| }

  lemma {:induction false} RunHeld(q: Mq, steps: seq<(nat, Action)>)
    requires Sized(q) && Held(q)
    ensures Held(Run(q, steps))
    decreases |steps|
  {
    if |steps| > 0 {
      var r := if steps[0].0 < |q.threads| then Step(q, steps[0].0, steps[0].1) else q;
      if steps[0].0 < |q.threads| { StepHeld(q, steps[0].0, steps[0].1); }
      hide Step;
      RunHeld(r, steps[1..]);
    }
  }

  lemma StepHeld(q: Mq, t: nat, a: Action)
    requires Sized(q) && Held(q) && t < |q.threads|
    ensures Held(Step(q, t, a))
  {
    hide AnyBlocked, BytePos, Advance;
  }

  lemma SomeStep(q: Mq, t: nat)
    requires Ok(q) && Held(q) && t < |q.threads| && Busy(q.threads[t])
    ensures exists u: nat, a :: u < |q.threads| && Step(q, u, a).threads != q.threads
  {
    if u: nat :| u < |q.threads| && (HoldsW(q.threads[u]) || HoldsR(q.threads[u])) {
      hide Step, Ok;
      HolderMoves(q, u);
    } else {
      hide Ring, Copies, Woken;
      NoOwner(q);
      LockMoves(q, t);
    }
  }

  lemma NoOwner(q: Mq)
    requires Owners(q) && Held(q) && forall u: nat | u < |q.threads| :: !HoldsW(q.threads[u]) && !HoldsR(q.threads[u])
    ensures q.wOwner == NIL && q.rOwner == NIL
  {
    OwnersHold(q);
    hide Owners;
  }

  lemma OwnersHold(q: Mq)
    requires Owners(q) && Held(q)
    ensures q.wOwner != NIL ==> HoldsW(q.threads[q.wOwner])
    ensures q.rOwner != NIL ==> HoldsR(q.threads[q.rOwner])
  {
  }

  lemma LockMoves(q: Mq, t: nat)
    requires Sized(q) && t < |q.threads| && Busy(q.threads[t]) && !HoldsW(q.threads[t]) && !HoldsR(q.threads[t])
    requires q.wOwner == NIL && q.rOwner == NIL
    ensures Step(q, t, Go).threads[t] != q.threads[t]
  {
  }
}

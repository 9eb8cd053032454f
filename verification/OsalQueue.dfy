/** The byte ring of osal_lock_free_queue.c. */
module OsalQueue {

  // ----- ring arithmetic -----

  /** Where the n-th message ever pushed is stored: its slot among max of size bytes. */
  function Slot(n: nat, max: nat, size: nat): nat
    requires 0 < max
  {
    n % max * size
  }

  lemma Scale(a: int, b: int, size: nat)
    ensures a <= b ==> a * size <= b * size
    ensures (a + 1) * size == a * size + size
  {
  }

  lemma Injective(a: int, b: int, size: nat)
    requires 0 < size && a * size == b * size
    ensures a == b
  {
    if a < b {
      Scale(a + 1, b, size);
      Scale(a, b, size);
    } else if b < a {
      Scale(b + 1, a, size);
      Scale(b, a, size);
    }
  }

  /** A slot lies within the buffer whole: a message is never split at its end. */
  lemma SlotFits(n: nat, max: nat, size: nat)
    requires 0 < max
    ensures Slot(n, max, size) + size <= max * size
  {
    Scale(n % max + 1, max, size);
    Scale(n % max, max, size);
  }

  /** Advancing an index by one message, as the code computes it. */
  lemma SlotNext(n: nat, max: nat, size: nat)
    requires 0 < max && 0 < size
    ensures 0 < max * size && (Slot(n, max, size) + size) % (max * size) == Slot(n + 1, max, size)
  {
    SlotFits(n, max, size);
    NextMod(n, max);
    Scale(n % max, max, size);
    var next := Slot(n, max, size) + size;
    if n % max + 1 == max {
      assert next == max * size;
      SelfMod(max * size);
    } else {
      Scale(n % max + 2, max, size);
      Scale(n % max + 1, max, size);
      SmallMod(next, max * size);
    }
  }

  lemma NextMod(n: nat, max: nat)
    requires 0 < max
    ensures (n + 1) % max == if n % max + 1 == max then 0 else n % max + 1
  {
    var q, r := n / max, n % max;
    assert n == q * max + r;
    if r + 1 == max {
      Scale(q, q, max);
      assert n + 1 == (q + 1) * max;
      Multiple(q + 1, max);
    } else {
      QuotientOf(n + 1, q, r + 1, max);
    }
  }

  lemma {:induction false} Multiple(q: nat, max: nat)
    requires 0 < max
    ensures q * max % max == 0
  {
    QuotientOf(q * max, q, 0, max);
  }

  lemma QuotientOf(n: nat, q: nat, r: nat, max: nat)
    requires r < max && n == q * max + r
    ensures n % max == r
  {
    var q', r' := n / max, n % max;
    assert n == q' * max + r';
    if q < q' { Scale(q + 1, q', max); Scale(q, q', max); }
    if q' < q { Scale(q' + 1, q, max); Scale(q', q, max); }
  }

  lemma SelfMod(n: nat)
    requires 0 < n
    ensures n % n == 0
  {
  }

  lemma SmallMod(n: nat, max: nat)
    requires n < max
    ensures n % max == n
  {
  }

  /** Messages less than a lap apart are stored in different slots. */
  lemma SlotsApart(a: nat, b: nat, max: nat, size: nat)
    requires a < b < a + max && 0 < size
    ensures Slot(a, max, size) + size <= Slot(b, max, size) || Slot(b, max, size) + size <= Slot(a, max, size)
  {
    ModApart(a, b, max);
    var x, y := a % max, b % max;
    if x < y { Scale(x + 1, y, size); Scale(x, y, size); } else { Scale(y + 1, x, size); Scale(y, x, size); }
  }

  lemma ModApart(a: nat, b: nat, max: nat)
    requires a < b < a + max
    ensures a % max != b % max
  {
    var p, q := a / max, b / max;
    assert a == p * max + a % max && b == q * max + b % max;
    if a % max == b % max {
      assert b - a == q * max - p * max;
      if q <= p { Scale(q, p, max); } else { Scale(p + 1, q, max); Scale(p, q, max); }
    }
  }

  /** The code's test for a full ring means that one slot short of all are in use. */
  lemma FullMeans(popped: nat, pushed: nat, max: nat, size: nat)
    requires 0 < max && 0 < size && popped <= pushed < popped + max
    ensures 0 < max * size
    ensures (Slot(pushed, max, size) + size) % (max * size) == Slot(popped, max, size) <==> pushed + 1 == popped + max
  {
    SlotNext(pushed, max, size);
    if pushed + 1 == popped + max {
      LapMod(popped, max);
    } else {
      if Slot(pushed + 1, max, size) == Slot(popped, max, size) {
        Injective((pushed + 1) % max, popped % max, size);
        ModApart(popped, pushed + 1, max);
      }
    }
  }

  lemma LapMod(n: nat, max: nat)
    requires 0 < max
    ensures (n + max) % max == n % max
  {
    var q := n / max;
    Scale(q, q, max);
    QuotientOf(n + max, q + 1, n % max, max);
  }

  /** The code's test for an empty ring. */
  lemma EmptyMeans(popped: nat, pushed: nat, max: nat, size: nat)
    requires 0 < max && 0 < size && popped <= pushed < popped + max
    ensures Slot(popped, max, size) == Slot(pushed, max, size) <==> popped == pushed
  {
    if popped < pushed && Slot(popped, max, size) == Slot(pushed, max, size) {
      Injective(popped % max, pushed % max, size);
      ModApart(popped, pushed, max);
    }
  }

  // ----- the queue -----

  lemma Nonnegative(a: nat, b: nat)
    ensures 0 <= a * b
  {
  }

  lemma FirstSlot(max: nat, size: nat)
    requires 0 < max
    ensures Slot(0, max, size) == 0
  {
    SmallMod(0, max);
  }

  /** The size bytes of a message stored at pos. */
  function Stored(buffer: seq<bv8>, pos: nat, size: nat): seq<bv8>
    requires pos + size <= |buffer|
  {
    buffer[pos..pos + size]
  }

  /** Message number n is msg, in its slot. */
  ghost predicate HoldsAt(buffer: seq<bv8>, max: nat, size: nat, n: nat, msg: seq<bv8>)
    requires 0 < max && |buffer| == max * size
  {
    Slot(n, max, size) + size <= |buffer| && Stored(buffer, Slot(n, max, size), size) == msg
  }

  /** The messages numbered first and up are in their slots. */
  ghost predicate Holds(buffer: seq<bv8>, max: nat, size: nat, first: nat, msgs: seq<seq<bv8>>)
    requires 0 < max && |buffer| == max * size
  {
    forall i {:trigger msgs[i]} | 0 <= i < |msgs| :: HoldsAt(buffer, max, size, first + i, msgs[i])
  }

  /** Writing a free slot leaves the queued messages alone. */
  lemma HoldsElsewhere(buffer: seq<bv8>, buffer': seq<bv8>, max: nat, size: nat, first: nat, msgs: seq<seq<bv8>>)
    requires 0 < max && 0 < size && |buffer| == |buffer'| == max * size && |msgs| < max
    requires Holds(buffer, max, size, first, msgs)
    requires var pos := Slot(first + |msgs|, max, size);
             forall j | 0 <= j < |buffer| && !(pos <= j < pos + size) :: buffer'[j] == buffer[j]
    ensures Holds(buffer', max, size, first, msgs)
  {
    forall i {:trigger msgs[i]} | 0 <= i < |msgs|
      ensures HoldsAt(buffer', max, size, first + i, msgs[i])
    {
      SlotFits(first + i, max, size);
      SlotsApart(first + i, first + |msgs|, max, size);
      assert Stored(buffer, Slot(first + i, max, size), size) == msgs[i];
    }
  }

  lemma HoldsOneMore(buffer: seq<bv8>, max: nat, size: nat, first: nat, msgs: seq<seq<bv8>>, msg: seq<bv8>)
    requires 0 < max && |buffer| == max * size && Holds(buffer, max, size, first, msgs)
    requires HoldsAt(buffer, max, size, first + |msgs|, msg)
    ensures Holds(buffer, max, size, first, msgs + [msg])
  {
    hide HoldsAt;
  }

  lemma HoldsOneLess(buffer: seq<bv8>, max: nat, size: nat, first: nat, msgs: seq<seq<bv8>>)
    requires 0 < max && |buffer| == max * size && Holds(buffer, max, size, first, msgs) && |msgs| > 0
    ensures Holds(buffer, max, size, first + 1, msgs[1..])
  {
    hide HoldsAt;
    assert forall i {:trigger msgs[1..][i]} | 0 <= i < |msgs| - 1 :: msgs[1..][i] == msgs[i + 1];
  }

  class Queue {
    const msgSize: nat
    const totalSize: nat
    const buffer: array<bv8>
    var read: nat
    var write: nat
    ghost const max: nat
    ghost var first: nat
    /** The queued messages, oldest first. */
    ghost var messages: seq<seq<bv8>>

    ghost predicate Valid()
      reads this, buffer
    {
      && 0 < msgSize && 0 < max && totalSize == max * msgSize == buffer.Length
      && |messages| < max
      && read == Slot(first, max, msgSize) && write == Slot(first + |messages|, max, msgSize)
      && Holds(buffer[..], max, msgSize, first, messages)
    }

    constructor (msgSize: nat, msgMax: nat)
      requires 0 < msgSize && 0 < msgMax
      ensures Valid() && messages == [] && max == msgMax && this.msgSize == msgSize && fresh(buffer)
    {
      var total := msgMax * msgSize;
      Nonnegative(msgMax, msgSize);
      this.msgSize, max := msgSize, msgMax;
      totalSize := total;
      buffer := new bv8[total](_ => 0);
      read, write, first, messages := 0, 0, 0, [];
      FirstSlot(msgMax, msgSize);
      hide Slot, HoldsAt;
    }

    method IsFull() returns (full: bool)
      requires Valid()
      ensures full <==> |messages| == max - 1
    {
      FullMeans(first, first + |messages|, max, msgSize);
      full := (write + msgSize) % totalSize == read;
    }

    method IsEmpty() returns (empty: bool)
      requires Valid()
      ensures empty <==> messages == []
    {
      EmptyMeans(first, first + |messages|, max, msgSize);
      empty := read == write;
    }

    /** Copies data to the buffer from pos on. */
    method CopyIn(pos: nat, data: seq<bv8>)
      requires pos + |data| <= buffer.Length
      modifies buffer
      ensures Stored(buffer[..], pos, |data|) == data
      ensures forall j | 0 <= j < buffer.Length && !(pos <= j < pos + |data|) :: buffer[j] == old(buffer[j])
    {
      var i: nat := 0;
      while i < |data|
        invariant i <= |data| && buffer[pos..pos + i] == data[..i]
        invariant forall j | 0 <= j < buffer.Length && !(pos <= j < pos + i) :: buffer[j] == old(buffer[j])
      {
        buffer[pos + i] := data[i];
        i := i + 1;
      }
    }

    /** osal_lock_free_queue_push. */
    method Push(msg: seq<bv8>) returns (code: int)
      requires Valid() && |msg| == msgSize
      modifies this`write, this`messages, buffer
      ensures Valid()
      ensures if |old(messages)| == max - 1 then code == -1 && messages == old(messages)
              else code == 0 && messages == old(messages) + [msg]
    {
      var full := IsFull();
      if full { return -1; }
      SlotFits(first + |messages|, max, msgSize);
      SlotNext(first + |messages|, max, msgSize);
      hide Slot, Holds;
      var copyLen := if totalSize - write < msgSize then totalSize - write else msgSize;
      assert copyLen == msgSize;
      CopyIn(write, msg[..copyLen]);
      HoldsElsewhere(old(buffer[..]), buffer[..], max, msgSize, first, messages);
      assert HoldsAt(buffer[..], max, msgSize, first + |messages|, msg);
      HoldsOneMore(buffer[..], max, msgSize, first, messages, msg);
      messages := messages + [msg];
      write := (write + msgSize) % totalSize;
      code := 0;
    }

    /** osal_lock_free_queue_pop. */
    method Pop() returns (code: int, msg: seq<bv8>)
      requires Valid()
      modifies this`read, this`first, this`messages
      ensures Valid()
      ensures if old(messages) == [] then code == -1 && messages == []
              else code == 0 && [msg] + messages == old(messages)
    {
      var empty := IsEmpty();
      if empty { return -1, []; }
      SlotFits(first, max, msgSize);
      SlotNext(first, max, msgSize);
      HoldsOneLess(buffer[..], max, msgSize, first, messages);
      assert HoldsAt(buffer[..], max, msgSize, first + 0, messages[0]);
      hide Slot, Holds;
      var copyLen := if totalSize - read < msgSize then totalSize - read else msgSize;
      assert copyLen == msgSize;
      msg := buffer[read..read + copyLen];
      first, messages := first + 1, messages[1..];
      read := (read + msgSize) % totalSize;
      code := 0;
    }
  }
}

/** The poll table of netx.c: netx_create, netx_ctl and the walks of netx_wait, which refine a plain
    map from descriptor to event. */
module Netx {
  import opened Common
  import opened NetxShape

  const CTL_ADD := 1
  const CTL_DEL := 2
  const CTL_MOD := 3
  const FD_SETSIZE := 1024

  function HashSize(maxCounts: nat): nat { maxCounts / 4 * 4 + 3 }

  // ----- what the table means -----

  /** At most maxCounts descriptors, each with what is watched on it. */
  datatype Table = Table(maxCounts: nat, events: map<int, Event>)

  /** netx_ctl as a function: the new table and the return code. */
  function Control(t: Table, operation: int, fd: int, event: Option<Event>): (Table, int) {
    if fd < 0 || (operation != CTL_DEL && event == None) then (t, -1)
    else if operation == CTL_MOD then
      if fd in t.events then (t.(events := t.events[fd := event.value]), 0) else (t, -2)
    else if operation == CTL_DEL then
      if fd in t.events then (t.(events := t.events - {fd}), 0) else (t, -3)
    else if operation == CTL_ADD then
      if fd in t.events then (t, -4)
      else if |t.events| >= t.maxCounts then (t, -5)
      else (t.(events := t.events[fd := event.value]), 0)
    else (t, -1)
  }

  // ----- the table -----

  class Poll {
    const items: array<Item>
    const hashTable: array<int>
    var counts: nat
    var freeList: int
    var usedList: int
    ghost var shape: Shape
    ghost var events: map<int, Event>

    ghost predicate Valid()
      reads this, items, hashTable
    {
      && items.Length > 0 && hashTable.Length == HashSize(items.Length)
      && Ok(items[..], hashTable[..], usedList, freeList, counts, shape, events)
    }

    ghost function Value(): Table
      reads this
    {
      Table(items.Length, events)
    }

    /** netx_create: every item free, every chain empty. */
    constructor (maxCounts: nat)
      requires 0 < maxCounts
      ensures Valid() && fresh(items) && fresh(hashTable)
      ensures Value() == Table(if maxCounts > FD_SETSIZE then FD_SETSIZE else maxCounts, map[])
    {
      var n := if maxCounts > FD_SETSIZE then FD_SETSIZE else maxCounts;
      items := new Item[n](_ => Item(NIL, NIL, NIL, 0, Event(0, 0)));
      hashTable := new int[HashSize(n)](_ => NIL);
      counts, freeList, usedList, events := 0, 0, NIL, map[];
      new;
      var i: nat := 0;
      while i < n
        invariant i <= n == items.Length && hashTable.Length == HashSize(n)
        invariant counts == 0 && freeList == 0 && usedList == NIL && events == map[]
        invariant forall j | 0 <= j < i :: items[j].hashNext == j + 1
        invariant forall h | 0 <= h < hashTable.Length :: hashTable[h] == NIL
        modifies items
      {
        items[i] := items[i].(hashNext := i + 1);
        i := i + 1;
      }
      items[n - 1] := items[n - 1].(hashNext := NIL);
      shape := EmptyShape(n, HashSize(n));
      EmptyOk(items[..], hashTable[..]);
    }

    /** The search of netx_ctl: the item of fd, and the item whose hash link leads to it. */
    method Find(fd: int) returns (save: int, item: int, ghost k: nat)
      requires Valid() && fd >= 0
      ensures 0 <= fd % hashTable.Length < |shape.chains| && |shape.owner| == items.Length
      ensures var c := shape.chains[fd % hashTable.Length];
              k <= |c| && item == At(c, k) && save == Predecessor(c, k) && (item == NIL ==> k == |c|)
      ensures if item == NIL then fd !in events
              else 0 <= item < items.Length && items[item].fd == fd && fd in events && shape.owner[item] != NIL
    {
      ghost var h := fd % hashTable.Length;
      ChainOk(items[..], hashTable[..], usedList, freeList, counts, shape, events, h);
      Registered(items[..], hashTable[..], usedList, freeList, counts, shape, events, fd);
      hide Ok;
      save, item, k := Walk(fd, shape.chains[h]);
    }

    /** Follows the hash links of a chain c up to the item of fd. */
    method Walk(fd: int, ghost c: seq<nat>) returns (save: int, item: int, ghost k: nat)
      requires fd >= 0 && hashTable.Length > 0 && Inside(c, items.Length)
      requires List(items[..], c, hashTable[fd % hashTable.Length])
      ensures k <= |c| && item == At(c, k) && save == Predecessor(c, k)
      ensures forall i | 0 <= i < k :: items[..][c[i]].fd != fd
      ensures if item == NIL then k == |c| else k < |c| && items[..][c[k]].fd == fd
    {
      save, item, k := NIL, hashTable[fd % hashTable.Length], 0;
      while item != NIL && fd != items[item].fd
        invariant k <= |c| && item == At(c, k) && save == Predecessor(c, k)
        invariant forall i | 0 <= i < k :: items[..][c[i]].fd != fd
        decreases |c| - k
      {
        assert items[..][c[k]].hashNext == At(c, k + 1);
        save, item, k := item, items[item].hashNext, k + 1;
      }
    }

    /** *item_save_pt = to: the link that led the search here. */
    method Redirect(h: nat, save: int, to: int)
      requires h < hashTable.Length && (save == NIL || 0 <= save < items.Length)
      modifies items, hashTable
      ensures items[..] == if save == NIL then old(items[..])
                           else old(items[..])[save := old(items[save]).(hashNext := to)]
      ensures hashTable[..] == if save == NIL then old(hashTable[..])[h := to] else old(hashTable[..])
    {
      if save == NIL { hashTable[h] := to; } else { items[save] := items[save].(hashNext := to); }
    }

    /** netx_ctl. */
    method Ctl(operation: int, fd: int, event: Option<Event>) returns (code: int)
      requires Valid()
      modifies this, items, hashTable
      ensures Valid() && (Value(), code) == Control(old(Value()), operation, fd, event)
    {
      hide Ok;
      if fd < 0 || (operation != CTL_DEL && event == None) { return -1; }
      var save, item;
      ghost var k;
      save, item, k := Find(fd);
      if operation == CTL_MOD {
        if item == NIL { return -2; }
        Mod(item, event.value);
      } else if operation == CTL_DEL {
        if item == NIL { return -3; }
        Del(fd % hashTable.Length, save, item, k);
      } else if operation == CTL_ADD {
        if item != NIL { return -4; }
        FreeWhileRoom();
        if freeList == NIL { return -5; }
        Add(fd % hashTable.Length, save, fd, event.value);
      } else {
        return -1;
      }
      code := 0;
    }

    /** The free list is empty exactly when the table is full. */
    lemma FreeWhileRoom()
      requires Valid()
      ensures freeList == NIL <==> |events| >= items.Length
    {
      hide Complete, Keyed;
    }

    method Mod(item: nat, event: Event)
      requires Valid() && item < items.Length && shape.owner[item] != NIL
      modifies this`events, items
      ensures Valid() && events == old(events)[old(items[item].fd) := event]
    {
      hide Ok;
      ModOk(items[..], hashTable[..], usedList, freeList, counts, shape, events, item, event);
      events := events[items[item].fd := event];
      items[item] := items[item].(event := event);
    }

    method Del(h: nat, save: int, item: nat, ghost k: nat)
      requires Valid() && h < hashTable.Length && h < |shape.chains| && k < |shape.chains[h]| && item < items.Length
      requires item == shape.chains[h][k] && save == Predecessor(shape.chains[h], k) && items[item].fd in events
      modifies this, items, hashTable
      ensures Valid() && events == old(events) - {old(items[item].fd)}
    {
      hide Ok, DelWrites;
      ghost var fd := items[item].fd;
      ghost var j := LocateUsed(items[..], hashTable[..], usedList, freeList, counts, shape, events, h, k);
      Unlink(h, save, item);
      DelOk(old(items[..]), items[..], old(hashTable[..]), old(usedList), old(freeList), counts, shape, events, item,
        h, k, j);
      counts := counts - 1;
      events := events - {fd};
      shape := Removed(shape, h, k, j, fd);
    }

    /** Takes an item out of the ring and out of its chain, and puts it in front of the free list. */
    method Unlink(h: nat, save: int, item: nat)
      requires h < hashTable.Length && item < items.Length && NIL <= save < items.Length && save != item
      requires 0 <= items[item].prev < items.Length && 0 <= items[item].next < items.Length
      modifies this`usedList, this`freeList, items, hashTable
      ensures DelWrites(old(items[..]), items[..], item, save, old(freeList))
      ensures hashTable[..] == if save == NIL then old(hashTable[..])[h := old(items[item].hashNext)]
                               else old(hashTable[..])
      ensures freeList == item
      ensures usedList == if item != old(usedList) then old(usedList)
                          else if old(items[item].prev) == item then NIL else old(items[item].next)
    {
      // set fields
      items[item] := items[item].(event := items[item].event.(events := 0), fd := 0);
      // delete from used list
      if item == usedList { usedList := if item == items[item].prev then NIL else items[item].next; }
      var prev, next := items[item].prev, items[item].next;
      items[prev] := items[prev].(next := items[item].next);
      items[next] := items[next].(prev := items[item].prev);
      items[item] := items[item].(prev := NIL, next := NIL);
      // delete from hash
      Redirect(h, save, items[item].hashNext);
      // add to free list
      items[item] := items[item].(hashNext := freeList);
      freeList := item;
    }

    method Add(h: nat, save: int, fd: int, event: Event)
      requires Valid() && h < hashTable.Length && freeList != NIL && fd >= 0 && fd !in events
        && h == fd % hashTable.Length
      requires h < |shape.chains|
      requires save == Predecessor(shape.chains[h], |shape.chains[h]|)
      modifies this, items, hashTable
      ensures Valid() && events == old(events)[fd := event]
    {
      hide Ok, AddWrites;
      LocateFree(items[..], hashTable[..], usedList, freeList, counts, shape, events, h);
      Link(h, save, fd, event, shape);
      AddOk(old(items[..]), items[..], old(hashTable[..]), old(usedList), old(freeList), counts, shape, events, h, fd,
        event);
      counts := counts + 1;
      events := events[fd := event];
      shape := Added(shape, h, fd);
    }

    /** Takes the first free item, and puts it at the end of its chain and of the ring. */
    method Link(h: nat, save: int, fd: int, event: Event, ghost sh: Shape)
      requires h < hashTable.Length && h < |sh.chains| && NIL <= save < items.Length
      requires |sh.free| > 0 && freeList == sh.free[0] < items.Length && freeList != save
      requires save == Predecessor(sh.chains[h], |sh.chains[h]|)
      requires if save == NIL then hashTable[h] == NIL else items[save].hashNext == NIL
      requires usedList == At(sh.used, 0) && usedList != freeList
      requires |sh.used| > 0 ==> usedList < items.Length && items[usedList].prev == sh.used[|sh.used| - 1]
                                 && sh.used[|sh.used| - 1] < items.Length && items[usedList].prev != freeList
      modifies this`usedList, this`freeList, items, hashTable
      ensures AddWrites(old(items[..]), items[..], sh, h, fd, event)
      ensures hashTable[..] == if save == NIL then old(hashTable[..])[h := old(freeList)] else old(hashTable[..])
      ensures freeList == old(items[freeList].hashNext)
      ensures usedList == if old(usedList) == NIL then old(freeList) else old(usedList)
    {
      // del from free list
      var item := freeList;
      freeList := items[item].hashNext;
      // add to hash
      items[item] := items[item].(hashNext := if save == NIL then hashTable[h] else items[save].hashNext);
      Redirect(h, save, item);
      // add to the used list
      if usedList == NIL {
        items[item] := items[item].(prev := item, next := item);
        usedList := item;
      } else {
        items[item] := items[item].(next := usedList, prev := items[usedList].prev);
        var tail := items[usedList].prev;
        items[tail] := items[tail].(next := item);
        items[usedList] := items[usedList].(prev := item);
      }
      // set fields
      items[item] := items[item].(event := event, fd := fd);
    }

    // ----- waiting -----

    /** netx_wait; ret and ready are what select answers when it is asked. */
    method Wait(max: nat, ret: int, ready: Ready) returns (code: int, fired: seq<Event>)
      requires Valid()
      modifies this`usedList, this`shape
      ensures Valid() && events == old(events)
      ensures if max == 0 then code == -1 && fired == []
              else if !Polled(events) then code == 0 && fired == []
              else if ret < 0 then code == -2 && fired == []
              else code == |fired| && fired == if ret == 0 then [] else Cut(old(AllFired(ready)), max)
      ensures shape == if max > 0 && Polled(events) && ret > 0 && |old(AllFired(ready))| < max
                       then Rotated(old(shape)) else old(shape)
    {
      hide Ok, AllFired, Fired, Interests, All, Polled, IsLargest, Cut, Rotated, Ring, NoDup, Inside;
      if max == 0 { return -1, []; }
      if counts == 0 {
        NothingPolled();
        return 0, [];
      }
      RingOk(items[..], hashTable[..], usedList, freeList, counts, shape, events);
      var watch, maxSock := Interest();
      PolledMeans(events, maxSock);
      if maxSock == 0 { return 0, []; }
      if ret < 0 { return -2, []; }
      if ret == 0 { return 0, []; }
      fired := Report(ready, max);
      code := |fired|;
    }

    lemma NothingPolled()
      requires Valid() && counts == 0
      ensures !Polled(events)
    {
      hide Complete, Linked, Keyed;
    }

    /** The first walk of netx_wait: the descriptors to watch, by kind of event, and the largest. */
    method Interest() returns (watch: Ready, maxSock: int)
      requires Valid() && counts > 0
      ensures watch == Interests(events)
      ensures IsLargest(All(watch), maxSock)
    {
      ghost var u := shape.used;
      RingOk(items[..], hashTable[..], usedList, freeList, counts, shape, events);
      GatheredIsWatched(items[..], hashTable[..], usedList, freeList, counts, shape, events, EVENT_IN);
      GatheredIsWatched(items[..], hashTable[..], usedList, freeList, counts, shape, events, EVENT_OUT);
      GatheredIsWatched(items[..], hashTable[..], usedList, freeList, counts, shape, events, EVENT_ET);
      hide Ok, Ring, NoDup, Watched, Gathered, IsLargest, All;
      watch, maxSock := Gather(u);
    }

    method Gather(ghost u: seq<nat>) returns (watch: Ready, maxSock: int)
      requires Inside(u, items.Length) && NoDup(u) && |u| > 0 && Ring(items[..], u, usedList)
      requires forall i | 0 <= i < |u| :: items[..][u[i]].fd >= 0
      ensures watch == Ready(Gathered(items[..], u, EVENT_IN), Gathered(items[..], u, EVENT_OUT),
        Gathered(items[..], u, EVENT_ET))
      ensures IsLargest(All(watch), maxSock)
    {
      hide All, Has, Kept, IsLargest, Ring;
      RingHead(items[..], u, usedList);
      var item := usedList;
      watch, maxSock := Ready({}, {}, {}), 0;
      NoneLargest();
      ghost var i := 0;
      while true
        invariant i < |u| && item == u[i]
        invariant watch.ins == Gathered(items[..], u[..i], EVENT_IN)
        invariant watch.outs == Gathered(items[..], u[..i], EVENT_OUT)
        invariant watch.ets == Gathered(items[..], u[..i], EVENT_ET)
        invariant IsLargest(All(watch), maxSock)
        decreases |u| - i
      {
        RingNext(items[..], u, usedList, i);
        PrefixStep(u, i);
        watch, maxSock := Watch(items[item], watch, maxSock);
        item, i := items[item].next, i + 1;
        if item == usedList { break; }
      }
      assert i == |u| && u[..i] == u;
    }

    /** Adds what is watched on an item. */
    static method Watch(x: Item, watch0: Ready, maxSock0: int) returns (watch: Ready, maxSock: int)
      requires x.fd >= 0 && IsLargest(All(watch0), maxSock0)
      ensures watch == Ready(watch0.ins + Kept(x, EVENT_IN), watch0.outs + Kept(x, EVENT_OUT),
        watch0.ets + Kept(x, EVENT_ET))
      ensures IsLargest(All(watch), maxSock)
    {
      watch, maxSock := watch0, maxSock0;
      if Has(x.event, EVENT_IN) {
        watch := watch.(ins := watch.ins + {x.fd});
        maxSock := if maxSock < x.fd then x.fd else maxSock;
      }
      if Has(x.event, EVENT_OUT) {
        watch := watch.(outs := watch.outs + {x.fd});
        maxSock := if maxSock < x.fd then x.fd else maxSock;
      }
      if Has(x.event, EVENT_ET) {
        watch := watch.(ets := watch.ets + {x.fd});
        maxSock := if maxSock < x.fd then x.fd else maxSock;
      }
    }

    /** The second walk of netx_wait: what fired, in ring order, until the caller's array is full;
        only a walk that ends before that moves the ring on by one. */
    method Report(ready: Ready, max: nat) returns (fired: seq<Event>)
      requires Valid() && counts > 0 && max > 0 && |shape.used| > 0
      modifies this`usedList, this`shape
      ensures Valid() && events == old(events)
      ensures fired == Cut(old(AllFired(ready)), max)
      ensures shape == if |old(AllFired(ready))| < max then Rotated(old(shape)) else old(shape)
    {
      hide Ok, Ring, NoDup, Fired, Inside;
      RingOk(items[..], hashTable[..], usedList, freeList, counts, shape, events);
      RotateOk(items[..], hashTable[..], usedList, freeList, counts, shape, events);
      var full;
      fired, full := Collect(ready, max, shape.used);
      if !full {
        usedList := items[usedList].next;
        shape := Rotated(shape);
      }
    }

    /** What has fired, in the order of the ring. */
    ghost function AllFired(ready: Ready): seq<Event>
      requires Valid()
      reads this, items, hashTable
    {
      Fired(items[..], shape.used, ready)
    }

    method Collect(ready: Ready, max: nat, ghost u: seq<nat>) returns (fired: seq<Event>, full: bool)
      requires Inside(u, items.Length) && NoDup(u) && |u| > 0 && Ring(items[..], u, usedList) && max > 0
      ensures var all := Fired(items[..], u, ready);
              full == (|all| >= max) && fired == (if full then all[..max] else all)
    {
      hide Bits, Has, Fired;
      FiredStart(items[..], u, ready);
      var item := usedList;
      fired, full := [], false;
      ghost var i := 0;
      while true
        invariant i < |u| && item == u[i]
        invariant |fired| < max && fired == Fired(items[..], u[..i], ready)
        decreases |u| - i
      {
        assert items[..][u[i]].next == u[After(i, |u|)];
        FiredStep(items[..], u, i, ready);
        var event := Check(items[item], ready);
        if event != 0 {
          fired := fired + [Event(event, items[item].event.data)];
          if |fired| == max { return fired, true; }
        }
        item, i := items[item].next, i + 1;
        if item == usedList { break; }
      }
      assert u[..i] == u;
    }

    static method Check(x: Item, ready: Ready) returns (event: bv32)
      ensures event == Bits(x, ready)
    {
      event := 0;
      if Has(x.event, EVENT_IN) && x.fd in ready.ins { event := event | EVENT_IN; }
      if Has(x.event, EVENT_OUT) && x.fd in ready.outs { event := event | EVENT_OUT; }
      if Has(x.event, EVENT_ET) && x.fd in ready.ets { event := event | EVENT_ET; }
    }
  }

  // ----- what waiting reports -----

  const EVENT_IN: bv32 := 1
  const EVENT_OUT: bv32 := 2
  const EVENT_ET: bv32 := 4

  datatype Ready = Ready(ins: set<int>, outs: set<int>, ets: set<int>)

  function All(r: Ready): set<int> { r.ins + r.outs + r.ets }

  function Cut(s: seq<Event>, max: nat): seq<Event> { if |s| < max then s else s[..max] }

  /** select is asked only when some watched descriptor is not 0: one that watches descriptor 0 alone
      waits in vain. */
  ghost predicate Polled(events: map<int, Event>) {
    exists f :: f in All(Interests(events)) && f > 0
  }

  /** Something is watched and select is still not asked, exactly when 0 is the only watched descriptor. */
  lemma ZeroAloneIsNotPolled(events: map<int, Event>)
    requires forall f | f in events :: f >= 0
    ensures All(Interests(events)) != {} && !Polled(events) <==> All(Interests(events)) == {0}
  {
    hide Has;
    var w := All(Interests(events));
    if !Polled(events) {
      forall f | f in w ensures f == 0 { assert f in events && !(f > 0); }
      assert if 0 in w then w == {0} else w == {};
    }
    assert w == {0} ==> 0 in w;
  }

  /** The smallest such table: descriptor 0 alone, with any interest. */
  lemma ZeroAlone(e: Event)
    requires Has(e, EVENT_IN) || Has(e, EVENT_OUT) || Has(e, EVENT_ET)
    ensures All(Interests(map[0 := e])) == {0} && !Polled(map[0 := e])
  {
    hide Has;
    assert 0 in map[0 := e];
  }

  function Interests(events: map<int, Event>): Ready {
    Ready(Watched(events, EVENT_IN), Watched(events, EVENT_OUT), Watched(events, EVENT_ET))
  }

  lemma PolledMeans(events: map<int, Event>, maxSock: int)
    requires IsLargest(All(Interests(events)), maxSock)
    ensures Polled(events) <==> maxSock != 0
  {
  }

  predicate Has(e: Event, bit: bv32) { e.events & bit != 0 }

  /** The registered descriptors watched for a kind of event. */
  function Watched(events: map<int, Event>, bit: bv32): set<int> {
    set f | f in events && Has(events[f], bit)
  }

  function Kept(x: Item, bit: bv32): set<int> {
    if Has(x.event, bit) then {x.fd} else {}
  }

  /** The descriptors of the items of s that are watched for a kind of event. */
  function Gathered(items: seq<Item>, s: seq<nat>, bit: bv32): set<int>
    requires Inside(s, |items|)
  {
    if |s| == 0 then {} else Gathered(items, s[..|s| - 1], bit) + Kept(items[s[|s| - 1]], bit)
  }

  lemma RingHead(items: seq<Item>, u: seq<nat>, head: int)
    requires Inside(u, |items|) && Ring(items, u, head) && |u| > 0
    ensures u[0] == head
  {
  }

  /** The link of an item leads to the next one, and only that of the last to the head. */
  lemma RingNext(items: seq<Item>, u: seq<nat>, head: int, i: nat)
    requires Inside(u, |items|) && NoDup(u) && Ring(items, u, head) && i < |u|
    ensures if i + 1 < |u| then items[u[i]].next == u[i + 1] != head else items[u[i]].next == head
  {
    assert items[u[i]].next == u[After(i, |u|)];
  }

  lemma PrefixStep(u: seq<nat>, i: nat)
    requires i < |u|
    ensures u[..i + 1][..i] == u[..i] && u[..i + 1][i] == u[i] && u[..i + 1] + u[i + 1..] == u
  {
  }

  /** The largest of a set of descriptors, or 0 for none. */
  ghost predicate IsLargest(s: set<int>, m: int) {
    (m == 0 || m in s) && forall f | f in s :: 0 <= f <= m
  }

  lemma NoneLargest()
    ensures IsLargest(All(Ready({}, {}, {})), 0)
  {
  }

  function Bits(x: Item, ready: Ready): bv32 {
    (if Has(x.event, EVENT_IN) && x.fd in ready.ins then EVENT_IN else 0)
    | (if Has(x.event, EVENT_OUT) && x.fd in ready.outs then EVENT_OUT else 0)
    | (if Has(x.event, EVENT_ET) && x.fd in ready.ets then EVENT_ET else 0)
  }

  /** The events of the items of s that are both watched and ready, in order. */
  function Fired(items: seq<Item>, s: seq<nat>, ready: Ready): seq<Event>
    requires Inside(s, |items|)
  {
    if |s| == 0 then []
    else
      var x := items[s[|s| - 1]];
      Fired(items, s[..|s| - 1], ready) + if Bits(x, ready) != 0 then [Event(Bits(x, ready), x.event.data)] else []
  }

  lemma {:induction false} FiredAppend(items: seq<Item>, a: seq<nat>, b: seq<nat>, ready: Ready)
    requires Inside(a + b, |items|)
    ensures Inside(a, |items|) && Fired(items, a, ready) <= Fired(items, a + b, ready)
    decreases |b|
  {
    forall i | 0 <= i < |a| ensures a[i] == (a + b)[i] {}
    if |b| == 0 {
      assert a + b == a;
    } else {
      var b' := b[..|b| - 1];
      assert (a + b)[..|a + b| - 1] == a + b';
      FiredAppend(items, a, b', ready);
    }
  }

  lemma FiredStart(items: seq<Item>, u: seq<nat>, ready: Ready)
    ensures Fired(items, u[..0], ready) == []
  {
  }

  /** The walk over one more item. */
  lemma FiredStep(items: seq<Item>, u: seq<nat>, i: nat, ready: Ready)
    requires Inside(u, |items|) && i < |u|
    ensures Inside(u[..i], |items|) && Inside(u[..i + 1], |items|)
    ensures Fired(items, u[..i + 1], ready) == Fired(items, u[..i], ready)
              + if Bits(items[u[i]], ready) != 0 then [Event(Bits(items[u[i]], ready), items[u[i]].event.data)] else []
    ensures Fired(items, u[..i + 1], ready) <= Fired(items, u, ready)
  {
    hide Bits;
    PrefixStep(u, i);
    FiredAppend(items, u[..i + 1], u[i + 1..], ready);
  }

  lemma RingOk(items: seq<Item>, table: seq<int>, usedList: int, freeList: int, counts: nat, sh: Shape,
               events: map<int, Event>)
    requires Ok(items, table, usedList, freeList, counts, sh, events) && counts > 0
    ensures |sh.used| > 0 && usedList == sh.used[0] < |items| && Inside(sh.used, |items|) && NoDup(sh.used)
    ensures Ring(items, sh.used, usedList)
    ensures forall i | 0 <= i < |sh.used| :: items[sh.used[i]].fd >= 0
  {
    hide Complete, List;
    forall i | 0 <= i < |sh.used| ensures items[sh.used[i]].fd >= 0 { assert sh.owner[sh.used[i]] != NIL; }
  }

  /** An item of s with this descriptor is watched. */
  ghost predicate Keeps(items: seq<Item>, s: seq<nat>, bit: bv32, f: int)
    requires Inside(s, |items|)
  {
    exists i :: 0 <= i < |s| && items[s[i]].fd == f && Has(items[s[i]].event, bit)
  }

  lemma {:induction false} GatheredMeans(items: seq<Item>, s: seq<nat>, bit: bv32, f: int)
    requires Inside(s, |items|)
    ensures f in Gathered(items, s, bit) <==> Keeps(items, s, bit, f)
    decreases |s|
  {
    hide Has;
    if |s| > 0 {
      var r := s[..|s| - 1];
      GatheredMeans(items, r, bit, f);
      assert s == r + [s[|s| - 1]];
      if Keeps(items, s, bit, f) {
        var i :| 0 <= i < |s| && items[s[i]].fd == f && Has(items[s[i]].event, bit);
        if i < |r| { assert r[i] == s[i] && Keeps(items, r, bit, f); }
      } 
      if Keeps(items, r, bit, f) {
        var i :| 0 <= i < |r| && items[r[i]].fd == f && Has(items[r[i]].event, bit);
        assert s[i] == r[i];
      }
    }
  }

  /** Walking the ring gathers exactly the registered interest. */
  lemma GatheredIsWatched(items: seq<Item>, table: seq<int>, usedList: int, freeList: int, counts: nat, sh: Shape,
                          events: map<int, Event>, bit: bv32)
    requires Ok(items, table, usedList, freeList, counts, sh, events)
    ensures Inside(sh.used, |items|)
    ensures Gathered(items, sh.used, bit) == Watched(events, bit)
  {
    hide Linked, NoDup, Has, Gathered;
    forall f ensures f in Gathered(items, sh.used, bit) <==> f in Watched(events, bit) {
      GatheredMeans(items, sh.used, bit, f);
      KeepsIsWatched(items, |table|, sh, events, bit, f);
    }
  }

  lemma KeepsIsWatched(items: seq<Item>, hashSize: nat, sh: Shape, events: map<int, Event>, bit: bv32, f: int)
    requires Placed(sh, |items|, hashSize) && Keyed(items, hashSize, sh, events)
    ensures Keeps(items, sh.used, bit, f) <==> f in Watched(events, bit)
  {
    hide NoDup, Has;
    if Keeps(items, sh.used, bit, f) {
      var i :| 0 <= i < |sh.used| && items[sh.used[i]].fd == f && Has(items[sh.used[i]].event, bit);
      assert sh.owner[sh.used[i]] != NIL;
    }
    if f in events {
      var x := sh.place[f];
      assert sh.owner[x] != NIL && x in sh.used;
    }
  }

  // ----- creation and search -----

  function EmptyShape(n: nat, hashSize: nat): Shape {
    Shape([], seq(n, i requires 0 <= i < n => i), seq(hashSize, h requires 0 <= h < hashSize => []),
          seq(n, i requires 0 <= i < n => NIL), map[])
  }

  lemma EmptyOk(items: seq<Item>, table: seq<int>)
    requires |items| > 0 && |table| > 0
    requires forall i | 0 <= i < |items| :: items[i].hashNext == if i + 1 == |items| then NIL else i + 1
    requires forall h | 0 <= h < |table| :: table[h] == NIL
    ensures Ok(items, table, NIL, 0, 0, EmptyShape(|items|, |table|), map[])
  {
    var sh := EmptyShape(|items|, |table|);
    forall x | 0 <= x < |items| ensures x in sh.free { assert sh.free[x] == x; }
  }

  /** A chain leads from its table entry through items of the array. */
  lemma ChainOk(items: seq<Item>, table: seq<int>, usedList: int, freeList: int, counts: nat, sh: Shape,
                events: map<int, Event>, h: nat)
    requires Ok(items, table, usedList, freeList, counts, sh, events) && h < |table|
    ensures |sh.chains| == |table| && |sh.owner| == |items| && Inside(sh.chains[h], |items|)
    ensures List(items, sh.chains[h], table[h])
  {
    hide Complete, Keyed;
  }

  /** The chain holds an item for the descriptor. */
  ghost predicate InChain(items: seq<Item>, c: seq<nat>, fd: int)
    requires Inside(c, |items|)
  {
    exists i :: 0 <= i < |c| && items[c[i]].fd == fd
  }

  ghost predicate AllUsed(sh: Shape, c: seq<nat>)
    requires Inside(c, |sh.owner|)
  {
    forall i | 0 <= i < |c| :: sh.owner[c[i]] != NIL
  }

  /** A descriptor is registered exactly when its chain holds an item for it, and that item is used. */
  lemma Registered(items: seq<Item>, table: seq<int>, usedList: int, freeList: int, counts: nat, sh: Shape,
                   events: map<int, Event>, fd: int)
    requires Ok(items, table, usedList, freeList, counts, sh, events) && fd >= 0
    ensures |sh.chains| == |table| > 0 && |sh.owner| == |items|
    ensures Inside(sh.chains[fd % |table|], |items|)
    ensures fd in events <==> InChain(items, sh.chains[fd % |table|], fd)
    ensures AllUsed(sh, sh.chains[fd % |table|])
  {
    hide Linked;
    var h := fd % |table|;
    forall i | 0 <= i < |sh.chains[h]| ensures sh.owner[sh.chains[h][i]] == h && items[sh.chains[h][i]].fd in events {}
    if fd in events {
      var x := sh.place[fd];
      assert sh.owner[x] == h && x in sh.chains[h];
    }
  }

  /** Where a used item is, and what its links say about the ring. */
  lemma LocateUsed(items: seq<Item>, table: seq<int>, usedList: int, freeList: int, counts: nat, sh: Shape,
                   events: map<int, Event>, h: nat, k: nat) returns (j: nat)
    requires Ok(items, table, usedList, freeList, counts, sh, events)
    requires h < |table| && h < |sh.chains| && k < |sh.chains[h]|
    ensures |sh.owner| == |items| && |sh.chains| == |table|
    ensures var x := sh.chains[h][k];
            && Located(sh, x, h, k, j) && x < |items|
            && 0 <= items[x].prev < |items| && 0 <= items[x].next < |items|
            && (usedList == x <==> j == 0) && (|sh.used| == 1 <==> items[x].prev == x)
            && NIL <= Predecessor(sh.chains[h], k) < |items| && Predecessor(sh.chains[h], k) != x
            && (Predecessor(sh.chains[h], k) == NIL <==> k == 0)
  {
    hide Keyed, List;
    j := UsedIsLocated(sh, |items|, |table|, h, k);
    hide Complete;
    var u := sh.used;
    assert items[u[j]].prev == u[Before(j, |u|)] && items[u[j]].next == u[After(j, |u|)];
  }

  /** Where a new item goes. */
  lemma LocateFree(items: seq<Item>, table: seq<int>, usedList: int, freeList: int, counts: nat, sh: Shape,
                   events: map<int, Event>, h: nat)
    requires Ok(items, table, usedList, freeList, counts, sh, events) && h < |table| && freeList != NIL
    ensures |sh.chains| == |table| && |sh.owner| == |items|
    ensures |sh.free| > 0 && freeList == sh.free[0] < |items| && items[freeList].hashNext == At(sh.free, 1)
    ensures var save := Predecessor(sh.chains[h], |sh.chains[h]|);
            && NIL <= save < |items| && save != freeList
            && (if save == NIL then table[h] == NIL && |sh.chains[h]| == 0
                else items[save].hashNext == NIL && |sh.chains[h]| > 0)
    ensures usedList == At(sh.used, 0) && usedList != freeList
    ensures |sh.used| > 0 ==> usedList < |items| && items[usedList].prev == sh.used[|sh.used| - 1] < |items|
                              && items[usedList].prev != freeList
  {
    hide Keyed, Complete;
    var c, u := sh.chains[h], sh.used;
    assert List(items, c, table[h]);
    if |c| > 0 {
      assert items[c[|c| - 1]].hashNext == At(c, |c|) && sh.owner[c[|c| - 1]] == h;
    }
    if |u| > 0 {
      assert items[u[0]].prev == u[Before(0, |u|)] && sh.owner[u[0]] != NIL && sh.owner[u[|u| - 1]] != NIL;
    }
    assert items[sh.free[0]].hashNext == At(sh.free, 1);
  }

  /** netx_create refuses a poll for no descriptors. */
  method Create(maxCounts: nat) returns (poll: Poll?)
    ensures poll == null <==> maxCounts == 0
    ensures poll != null ==> fresh(poll) && fresh(poll.items) && fresh(poll.hashTable) && poll.Valid()
                             && poll.Value() == Table(if maxCounts > FD_SETSIZE then FD_SETSIZE else maxCounts, map[])
  {
    if maxCounts == 0 { return null; }
    poll := new Poll(maxCounts);
  }

  // ----- what refinement gives -----

  /** The used ring, the chains and the free list partition the items, and counts is the table's size. */
  lemma Partition(items: seq<Item>, table: seq<int>, usedList: int, freeList: int, counts: nat, sh: Shape,
                  events: map<int, Event>, x: nat)
    requires Ok(items, table, usedList, freeList, counts, sh, events) && x < |items|
    ensures counts == |events| <= |items|
    ensures x in sh.used <==> x !in sh.free
    ensures forall h | 0 <= h < |table| :: x in sh.chains[h] <==> x in sh.used && h == items[x].fd % |table|
  {
    hide Linked, NoDup;
    if x in sh.free { assert sh.owner[x] == NIL; }
    if x in sh.used { assert sh.owner[x] != NIL; }
    forall h | 0 <= h < |table| ensures x in sh.chains[h] <==> x in sh.used && h == items[x].fd % |table| {
      if x in sh.chains[h] { assert sh.owner[x] == h; }
    }
  }

  datatype Call = Call(operation: int, fd: int, event: Option<Event>)

  function ControlAll(t: Table, calls: seq<Call>): Table
    decreases |calls|
  {
    if |calls| == 0 then t
    else ControlAll(Control(t, calls[0].operation, calls[0].fd, calls[0].event).0, calls[1..])
  }

  /** Any sequence of calls on a poll does to its table what the map operations do. */
  method CtlAll(poll: Poll, calls: seq<Call>)
    requires poll.Valid()
    modifies poll, poll.items, poll.hashTable
    ensures poll.Valid() && poll.Value() == ControlAll(old(poll.Value()), calls)
  {
    var i: nat := 0;
    while i < |calls|
      invariant i <= |calls| && poll.Valid()
      invariant ControlAll(poll.Value(), calls[i..]) == ControlAll(old(poll.Value()), calls)
    {
      hide Ok, Control;
      assert calls[i..][0] == calls[i] && calls[i..][1..] == calls[i + 1..];
      var code := poll.Ctl(calls[i].operation, calls[i].fd, calls[i].event);
      i := i + 1;
    }
  }

  predicate SameEntry(t: Table, t': Table, fd: int) {
    (fd in t'.events <==> fd in t.events) && (fd in t.events ==> t'.events[fd] == t.events[fd])
  }

  /** Parameters that netx_ctl can do something with. */
  predicate CallOk(operation: int, fd: int, event: Option<Event>) {
    fd >= 0 && (operation == CTL_DEL || ((operation == CTL_ADD || operation == CTL_MOD) && event.Some?))
  }

  /** What netx_ctl returns: 0 for an addition of a new descriptor to a table with room and for a change or a
      deletion of a registered one, and a code of its own for each way to fail. */
  lemma ControlReturns(t: Table, operation: int, fd: int, event: Option<Event>)
    ensures var code := Control(t, operation, fd, event).1;
            && (code == -1 <==> !CallOk(operation, fd, event))
            && (code == -2 <==> CallOk(operation, fd, event) && operation == CTL_MOD && fd !in t.events)
            && (code == -3 <==> CallOk(operation, fd, event) && operation == CTL_DEL && fd !in t.events)
            && (code == -4 <==> CallOk(operation, fd, event) && operation == CTL_ADD && fd in t.events)
            && (code == -5 <==> CallOk(operation, fd, event) && operation == CTL_ADD && fd !in t.events
                                && |t.events| >= t.maxCounts)
            && -5 <= code <= 0
  {
  }

  /** What it does when it returns 0, and that it does nothing otherwise. */
  lemma ControlDoes(t: Table, operation: int, fd: int, event: Option<Event>, f: int)
    ensures var (t', code) := Control(t, operation, fd, event);
            && (code != 0 ==> t' == t)
            && (code == 0 && f != fd ==> SameEntry(t, t', f))
            && (code == 0 && operation == CTL_DEL ==> fd !in t'.events)
            && (code == 0 && operation != CTL_DEL ==> fd in t'.events && event == Some(t'.events[fd]))
  {
  }

  /** A descriptor that is added and deleted leaves no trace. */
  lemma DeleteUndoesAdd(t: Table, fd: int, event: Event)
    requires Control(t, CTL_ADD, fd, Some(event)).1 == 0
    ensures Control(Control(t, CTL_ADD, fd, Some(event)).0, CTL_DEL, fd, None) == (t, 0)
  {
    assert t.events[fd := event] - {fd} == t.events;
  }

  /** One call keeps the bound, and every entry but that of its own descriptor. */
  lemma ControlKeeps(t: Table, operation: int, cfd: int, event: Option<Event>, fd: int)
    requires |t.events| <= t.maxCounts
    ensures var t' := Control(t, operation, cfd, event).0;
            && t'.maxCounts == t.maxCounts && |t'.events| <= t'.maxCounts
            && (cfd != fd ==> SameEntry(t, t', fd))
  {
    if cfd in t.events {
      assert (t.events - {cfd}).Keys == t.events.Keys - {cfd};
      if event != None { MapSize(t.events, t.events[cfd := event.value]); }
    } else if event != None {
      assert t.events[cfd := event.value].Keys == t.events.Keys + {cfd};
    }
  }

  /** However many calls, the table never holds more than maxCounts descriptors, and a descriptor no
      call names keeps its entry. */
  lemma {:induction false} ControlAllKeeps(t: Table, calls: seq<Call>, fd: int)
    requires |t.events| <= t.maxCounts
    ensures var t' := ControlAll(t, calls);
            && t'.maxCounts == t.maxCounts && |t'.events| <= t'.maxCounts
            && ((forall c | c in calls :: c.fd != fd) ==> SameEntry(t, t', fd))
    decreases |calls|
  {
    if |calls| > 0 {
      var c := calls[0];
      hide Control;
      ControlKeeps(t, c.operation, c.fd, c.event, fd);
      ControlAllKeeps(Control(t, c.operation, c.fd, c.event).0, calls[1..], fd);
    }
  }
}

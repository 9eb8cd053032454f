/** Which events netx_wait reports, in terms of the registered interest and of what select answered. */
module NetxFired {
  import opened Common
  import opened NetxShape
  import opened Netx

  /** The registered descriptors that are ready for something they are watched for. */
  function FiredSet(events: map<int, Event>, ready: Ready): set<int> {
    var w := Interests(events);
    w.ins * ready.ins + w.outs * ready.outs + w.ets * ready.ets
  }

  /** e is the report for descriptor f: its own data, and a bit for each kind it is watched and ready for. */
  ghost predicate Reports(e: Event, events: map<int, Event>, ready: Ready, f: int) {
    var w := Interests(events);
    && f in events && e.data == events[f].data
    && (Has(e, EVENT_IN) <==> f in w.ins * ready.ins)
    && (Has(e, EVENT_OUT) <==> f in w.outs * ready.outs)
    && (Has(e, EVENT_ET) <==> f in w.ets * ready.ets)
    && e.events <= 7
  }

  /** The descriptors of the items of s. */
  function Fds(items: seq<Item>, s: seq<nat>): seq<int>
    requires Inside(s, |items|)
  {
    seq(|s|, i requires 0 <= i < |s| => items[s[i]].fd)
  }

  /** The members of a set among the elements of a list, in the order of the list. */
  function Picked(s: seq<int>, m: set<int>): seq<int> {
    if |s| == 0 then [] else Picked(s[..|s| - 1], m) + if s[|s| - 1] in m then [s[|s| - 1]] else []
  }

  lemma {:induction false} PickedMeans(s: seq<int>, m: set<int>, f: int)
    ensures f in Picked(s, m) <==> f in s && f in m
    decreases |s|
  {
    if |s| > 0 {
      PickedMeans(s[..|s| - 1], m, f);
      assert s == s[..|s| - 1] + [s[|s| - 1]];
    }
  }

  ghost predicate Distinct(s: seq<int>) { forall i, j | 0 <= i < j < |s| :: s[i] != s[j] }

  lemma {:induction false} PickedDistinct(s: seq<int>, m: set<int>)
    requires Distinct(s)
    ensures Distinct(Picked(s, m))
    decreases |s|
  {
    if |s| > 0 {
      PickedDistinct(s[..|s| - 1], m);
      PickedMeans(s[..|s| - 1], m, s[|s| - 1]);
    }
  }

  lemma {:induction false} DistinctSize(s: seq<int>, m: set<int>)
    requires Distinct(s) && forall f: int :: f in s <==> f in m
    ensures |s| == |m|
    decreases |s|
  {
    if |s| == 0 {
      forall f: int ensures f !in m { assert f !in s; }
    } else {
      var x, r := s[|s| - 1], s[..|s| - 1];
      assert s == r + [x];
      forall f: int ensures f in r <==> f in m - {x} {}
      DistinctSize(r, m - {x});
    }
  }

  // ----- the items of the ring -----

  /** Every item of s stands for a registered descriptor. */
  ghost predicate Stands(items: seq<Item>, s: seq<nat>, events: map<int, Event>)
    requires Inside(s, |items|)
  {
    forall i | 0 <= i < |s| :: items[s[i]].fd in events && events[items[s[i]].fd] == items[s[i]].event
  }

  lemma BitsAre(x: Item, ready: Ready)
    ensures (Bits(x, ready) & EVENT_IN != 0) <==> Has(x.event, EVENT_IN) && x.fd in ready.ins
    ensures (Bits(x, ready) & EVENT_OUT != 0) <==> Has(x.event, EVENT_OUT) && x.fd in ready.outs
    ensures (Bits(x, ready) & EVENT_ET != 0) <==> Has(x.event, EVENT_ET) && x.fd in ready.ets
    ensures Bits(x, ready) <= 7
    ensures Bits(x, ready) != 0 <==>
      || (Has(x.event, EVENT_IN) && x.fd in ready.ins) || (Has(x.event, EVENT_OUT) && x.fd in ready.outs)
      || (Has(x.event, EVENT_ET) && x.fd in ready.ets)
  {
    hide Has;
  }

  /** An item is reported exactly when its descriptor is in the set, and then correctly. */
  lemma ItemReports(x: Item, events: map<int, Event>, ready: Ready)
    requires x.fd in events && events[x.fd] == x.event
    ensures Bits(x, ready) != 0 <==> x.fd in FiredSet(events, ready)
    ensures Reports(Event(Bits(x, ready), x.event.data), events, ready, x.fd)
  {
    BitsAre(x, ready);
    hide Bits;
  }

  lemma {:induction false} FiredPicked(items: seq<Item>, s: seq<nat>, events: map<int, Event>, ready: Ready)
    requires Inside(s, |items|) && Stands(items, s, events)
    ensures var fds := Picked(Fds(items, s), FiredSet(events, ready));
            && |Fired(items, s, ready)| == |fds|
            && forall k | 0 <= k < |fds| :: Reports(Fired(items, s, ready)[k], events, ready, fds[k])
    decreases |s|
  {
    hide Bits, FiredSet, Reports;
    if |s| > 0 {
      var r, x := s[..|s| - 1], items[s[|s| - 1]];
      FiredPicked(items, r, events, ready);
      ItemReports(x, events, ready);
      assert Fds(items, s)[..|s| - 1] == Fds(items, r);
    }
  }

  lemma RingStands(items: seq<Item>, table: seq<int>, usedList: int, freeList: int, counts: nat, sh: Shape,
                   events: map<int, Event>)
    requires Ok(items, table, usedList, freeList, counts, sh, events)
    ensures Inside(sh.used, |items|) && Stands(items, sh.used, events)
    ensures Distinct(Fds(items, sh.used))
    ensures forall f: int :: f in Fds(items, sh.used) <==> f in events
  {
    hide Linked, List, Ring;
    var u := sh.used;
    forall i | 0 <= i < |u|
      ensures u[i] < |items| && items[u[i]].fd in events && events[items[u[i]].fd] == items[u[i]].event
      ensures sh.place[items[u[i]].fd] == u[i]
    {
      assert sh.owner[u[i]] != NIL;
    }
    forall f | f in events ensures f in Fds(items, u) {
      var x := sh.place[f];
      assert sh.owner[x] != NIL && x in u;
      var i :| 0 <= i < |u| && u[i] == x;
      assert Fds(items, u)[i] == f;
    }
    assert sh.place.Keys == events.Keys && NoDup(u);
    hide *;
    DistinctFds(items, u, sh.place);
  }

  lemma DistinctFds(items: seq<Item>, u: seq<nat>, place: map<int, nat>)
    requires Inside(u, |items|) && NoDup(u)
    requires forall i | 0 <= i < |u| :: items[u[i]].fd in place && place[items[u[i]].fd] == u[i]
    ensures Distinct(Fds(items, u))
    ensures forall f: int :: f in Fds(items, u) ==> f in place
  {
  }

  /** On a table in order, whatever select answers: the events that fire are one for each registered
      descriptor that is ready for something it is watched for, each with its data and exactly the bits of
      those kinds, in the order of the ring. */
  lemma FiredIsWatchedAndReady(items: seq<Item>, table: seq<int>, usedList: int, freeList: int, counts: nat, sh: Shape,
                               events: map<int, Event>, ready: Ready)
    requires Ok(items, table, usedList, freeList, counts, sh, events)
    ensures Inside(sh.used, |items|)
    ensures var all := Fired(items, sh.used, ready);
            var fds := Picked(Fds(items, sh.used), FiredSet(events, ready));
            && |all| == |fds| == |FiredSet(events, ready)|
            && Distinct(fds) && (forall f: int :: f in fds <==> f in FiredSet(events, ready))
            && (forall k | 0 <= k < |fds| :: Reports(all[k], events, ready, fds[k]))
  {
    RingStands(items, table, usedList, freeList, counts, sh, events);
    hide *;
    FiredPicked(items, sh.used, events, ready);
    PickedAll(Fds(items, sh.used), events, ready);
  }

  lemma PickedAll(s: seq<int>, events: map<int, Event>, ready: Ready)
    requires Distinct(s) && forall f: int :: f in s <==> f in events
    ensures var m := FiredSet(events, ready);
            var fds := Picked(s, m);
            |fds| == |m| && Distinct(fds) && forall f: int :: f in fds <==> f in m
  {
    var m := FiredSet(events, ready);
    assert forall f: int :: f in m ==> f in events by { hide Has; }
    hide FiredSet, Distinct;
    PickedDistinct(s, m);
    forall f: int ensures f in Picked(s, m) <==> f in m { PickedMeans(s, m, f); }
    DistinctSize(Picked(s, m), m);
  }

  /** netx_wait reports as many of them as the caller's array holds, from the front of the ring on. */
  lemma CutIs(s: seq<Event>, max: nat)
    ensures |Cut(s, max)| == (if |s| < max then |s| else max) && Cut(s, max) <= s
  {
  }

  // ----- taking turns -----

  function Turned(sh: Shape, n: nat): Shape
    requires |sh.used| > 0
    decreases n
  {
    if n == 0 then sh else Turned(Rotated(sh), n - 1)
  }

  /** As the ring moves on, every registered descriptor comes first in its turn. */
  lemma {:induction false} EveryTurn(sh: Shape, n: nat)
    requires n < |sh.used|
    ensures Turned(sh, n).used == sh.used[n..] + sh.used[..n]
    decreases n
  {
    if n == 0 {
      assert sh.used[0..] + sh.used[..0] == sh.used;
    } else {
      var u := Rotated(sh).used;
      EveryTurn(Rotated(sh), n - 1);
      assert u[n - 1..] + u[..n - 1] == sh.used[n..] + sh.used[..n];
    }
  }
}

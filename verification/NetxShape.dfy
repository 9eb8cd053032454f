/** The links of the poll table of netx.c as values: one array of items, threaded at the same time by
    hash chains, a circular doubly linked ring of used items and a free list sharing the hash link. */
module NetxShape {

  datatype Event = Event(events: bv32, data: int)

  /** An item; its links are positions in the item array, or NIL. */
  datatype Item = Item(hashNext: int, next: int, prev: int, fd: int, event: Event)

  const NIL := -1

  /** Where every item is: the order of the ring, of the free list and of each chain, for each item its
      chain, or NIL when it is free, and for each registered descriptor its item. */
  datatype Shape = Shape(used: seq<nat>, free: seq<nat>, chains: seq<seq<nat>>, owner: seq<int>, place: map<int, nat>)

  ghost predicate NoDup(s: seq<nat>) {
    forall i, j | 0 <= i < j < |s| :: s[i] != s[j]
  }

  ghost predicate Inside(s: seq<nat>, n: nat) {
    forall i | 0 <= i < |s| :: s[i] < n
  }

  /** The element at position i, or NIL past the end. */
  function At(s: seq<nat>, i: nat): int {
    if i < |s| then s[i] else NIL
  }

  function After(i: nat, n: nat): (j: nat)
    requires i < n
    ensures j < n
  {
    if i + 1 == n then 0 else i + 1
  }

  function Before(i: nat, n: nat): (j: nat)
    requires i < n
    ensures j < n
  {
    if i == 0 then n - 1 else i - 1
  }

  /** The hash links lead from head through s to NIL. */
  ghost predicate List(items: seq<Item>, s: seq<nat>, head: int)
    requires Inside(s, |items|)
  {
    head == At(s, 0) && forall i {:trigger items[s[i]]} | 0 <= i < |s| :: items[s[i]].hashNext == At(s, i + 1)
  }

  /** The next and prev links lead around s in both directions. */
  ghost predicate Ring(items: seq<Item>, s: seq<nat>, head: int)
    requires Inside(s, |items|)
  {
    && head == At(s, 0)
    && (forall i {:trigger items[s[i]]} | 0 <= i < |s| :: items[s[i]].next == s[After(i, |s|)])
    && (forall i {:trigger items[s[i]]} | 0 <= i < |s| :: items[s[i]].prev == s[Before(i, |s|)])
  }

  /** Each sequence holds an item at most once, and only items that belong there. */
  ghost predicate Owned(sh: Shape, n: nat, hashSize: nat) {
    && |sh.owner| == n && |sh.chains| == hashSize > 0
    && Inside(sh.used, n) && Inside(sh.free, n) && NoDup(sh.used) && NoDup(sh.free)
    && (forall h | 0 <= h < hashSize :: Inside(sh.chains[h], n) && NoDup(sh.chains[h]))
    && (forall i | 0 <= i < |sh.used| :: sh.owner[sh.used[i]] != NIL)
    && (forall i | 0 <= i < |sh.free| :: sh.owner[sh.free[i]] == NIL)
    && (forall h, i | 0 <= h < hashSize && 0 <= i < |sh.chains[h]| :: sh.owner[sh.chains[h][i]] == h)
  }

  /** Every item is where it belongs. */
  ghost predicate Complete(sh: Shape, n: nat, hashSize: nat)
    requires |sh.owner| == n && |sh.chains| == hashSize
  {
    forall x | 0 <= x < n :: if sh.owner[x] == NIL then x in sh.free
                             else 0 <= sh.owner[x] < hashSize && x in sh.used && x in sh.chains[sh.owner[x]]
  }

  /** Used items, free items and chains partition the array. */
  ghost predicate Placed(sh: Shape, n: nat, hashSize: nat) {
    Owned(sh, n, hashSize) && Complete(sh, n, hashSize) && |sh.used| + |sh.free| == n
  }

  ghost predicate Linked(items: seq<Item>, table: seq<int>, usedList: int, freeList: int, sh: Shape)
    requires Owned(sh, |items|, |table|)
  {
    && Ring(items, sh.used, usedList) && List(items, sh.free, freeList)
    && (forall h | 0 <= h < |table| :: List(items, sh.chains[h], table[h]))
  }

  /** The used items are the entries of the table, each in the chain of its descriptor. */
  ghost predicate Keyed(items: seq<Item>, hashSize: nat, sh: Shape, events: map<int, Event>)
    requires |sh.owner| == |items| && 0 < hashSize
  {
    && sh.place.Keys == events.Keys
    && (forall x | 0 <= x < |items| && sh.owner[x] != NIL ::
          0 <= items[x].fd && items[x].fd in events && events[items[x].fd] == items[x].event
          && sh.owner[x] == items[x].fd % hashSize && sh.place[items[x].fd] == x)
    && (forall f | f in sh.place ::
          sh.place[f] < |items| && sh.owner[sh.place[f]] != NIL && items[sh.place[f]].fd == f)
  }

  ghost predicate Ok(items: seq<Item>, table: seq<int>, usedList: int, freeList: int, counts: nat, sh: Shape,
                     events: map<int, Event>)
  {
    && Placed(sh, |items|, |table|)
    && Linked(items, table, usedList, freeList, sh)
    && Keyed(items, |table|, sh, events)
    && counts == |sh.used| == |events|
  }

  // ----- removing from a sequence -----

  function Without(s: seq<nat>, k: nat): (r: seq<nat>)
    requires k < |s|
    ensures |r| == |s| - 1
    ensures forall i | 0 <= i < |r| :: r[i] == s[if i < k then i else i + 1]
  {
    s[..k] + s[k + 1..]
  }

  lemma WithoutIs(s: seq<nat>, k: nat, n: nat)
    requires NoDup(s) && Inside(s, n) && k < |s|
    ensures NoDup(Without(s, k)) && Inside(Without(s, k), n)
    ensures forall i | 0 <= i < |s| - 1 :: Without(s, k)[i] != s[k]
    ensures forall x | x in s && x != s[k] :: x in Without(s, k)
  {
    forall x | x in s && x != s[k] ensures x in Without(s, k) {
      var i :| 0 <= i < |s| && s[i] == x;
      assert Without(s, k)[if i < k then i else i - 1] == x;
    }
  }

  // ----- add -----

  /** The first free item joins the end of chain h and the end of the ring. */
  function Added(sh: Shape, h: nat, fd: int): Shape
    requires |sh.free| > 0 && h < |sh.chains| && sh.free[0] < |sh.owner|
  {
    var x := sh.free[0];
    Shape(sh.used + [x], sh.free[1..], sh.chains[h := sh.chains[h] + [x]], sh.owner[x := h],
          sh.place[fd := x])
  }

  lemma AddedPlaced(sh: Shape, n: nat, hashSize: nat, h: nat, fd: int)
    requires Placed(sh, n, hashSize) && |sh.free| > 0 && h < hashSize
    ensures Placed(Added(sh, h, fd), n, hashSize)
  {
    var x := sh.free[0];
    var sh' := Added(sh, h, fd);
    forall y | 0 <= y < n
      ensures if sh'.owner[y] == NIL then y in sh'.free
              else 0 <= sh'.owner[y] < hashSize && y in sh'.used && y in sh'.chains[sh'.owner[y]]
    {
      if y != x && sh.owner[y] == NIL { assert y in sh.free; }
    }
  }

  /** What adding writes: x in front of the empty end of its chain, and between the ring's tail and head. */
  ghost predicate AddWrites(items: seq<Item>, items': seq<Item>, sh: Shape, h: nat, fd: int, event: Event)
    requires |items'| == |items| && h < |sh.chains| && |sh.free| > 0
  {
    var x, c, u := sh.free[0], sh.chains[h], sh.used;
    forall y | 0 <= y < |items| ::
      && items'[y].hashNext == (if y == x then NIL else if |c| > 0 && y == c[|c| - 1] then x else items[y].hashNext)
      && items'[y].next == (if y == x then (if |u| > 0 then u[0] else x)
                            else if |u| > 0 && y == u[|u| - 1] then x else items[y].next)
      && items'[y].prev == (if y == x then (if |u| > 0 then u[|u| - 1] else x)
                            else if |u| > 0 && y == u[0] then x else items[y].prev)
      && items'[y].fd == (if y == x then fd else items[y].fd)
      && items'[y].event == (if y == x then event else items[y].event)
  }

  lemma AddRing(items: seq<Item>, items': seq<Item>, s: seq<nat>, head: int, x: nat)
    requires |items'| == |items| && Inside(s, |items|) && x < |items|
    requires forall i | 0 <= i < |s| :: s[i] != x
    requires items'[x].next == (if |s| > 0 then s[0] else x) && items'[x].prev == (if |s| > 0 then s[|s| - 1] else x)
    requires forall i | 0 <= i < |s| ::
      && items'[s[i]].next == (if i + 1 == |s| then x else items[s[i]].next)
      && items'[s[i]].prev == (if i == 0 then x else items[s[i]].prev)
    requires NoDup(s) && Ring(items, s, head)
    ensures Ring(items', s + [x], if |s| == 0 then x else head)
  {
  }

  lemma AddChain(items: seq<Item>, items': seq<Item>, s: seq<nat>, head: int, x: nat)
    requires |items'| == |items| && Inside(s, |items|) && NoDup(s) && x < |items| && List(items, s, head)
    requires forall i | 0 <= i < |s| :: s[i] != x
    requires items'[x].hashNext == NIL
    requires forall i | 0 <= i < |s| :: items'[s[i]].hashNext == (if i + 1 == |s| then x else items[s[i]].hashNext)
    ensures List(items', s + [x], if |s| == 0 then x else head)
  {
  }

  lemma SameList(items: seq<Item>, items': seq<Item>, s: seq<nat>, head: int)
    requires |items'| == |items| && Inside(s, |items|) && List(items, s, head)
    requires forall i | 0 <= i < |s| :: items'[s[i]].hashNext == items[s[i]].hashNext
    ensures List(items', s, head)
  {
  }

  lemma AddedOwned(sh: Shape, n: nat, hashSize: nat, h: nat, fd: int)
    requires Owned(sh, n, hashSize) && |sh.free| > 0 && h < hashSize
    ensures Owned(Added(sh, h, fd), n, hashSize)
  {
  }

  lemma AddLinks(items: seq<Item>, items': seq<Item>, table: seq<int>, usedList: int, freeList: int, sh: Shape, h: nat,
                 fd: int, event: Event)
    requires Owned(sh, |items|, |table|) && Linked(items, table, usedList, freeList, sh)
    requires |items'| == |items| && h < |table| && |sh.free| > 0 && AddWrites(items, items', sh, h, fd, event)
    ensures Owned(Added(sh, h, fd), |items'|, |table|)
    ensures var table' := if |sh.chains[h]| == 0 then table[h := sh.free[0]] else table;
            Linked(items', table', if |sh.used| == 0 then sh.free[0] else usedList, At(sh.free, 1), Added(sh, h, fd))
  {
    AddedOwned(sh, |items|, |table|, h, fd);
    hide AddWrites, Ring, List, NoDup;
    AddLists(items, items', table, usedList, freeList, sh, h, fd, event);
    AddUsed(items, items', table, usedList, freeList, sh, h, fd, event);
  }

  lemma AddUsed(items: seq<Item>, items': seq<Item>, table: seq<int>, usedList: int, freeList: int, sh: Shape, h: nat,
                fd: int, event: Event)
    requires Owned(sh, |items|, |table|) && Linked(items, table, usedList, freeList, sh)
    requires |items'| == |items| && h < |table| && |sh.free| > 0 && AddWrites(items, items', sh, h, fd, event)
    requires Owned(Added(sh, h, fd), |items'|, |table|)
    ensures Ring(items', Added(sh, h, fd).used, if |sh.used| == 0 then sh.free[0] else usedList)
  {
    hide List;
    AddAroundRing(items, items', sh, h, fd, event, |table|);
    hide AddWrites, Ring;
    AddRing(items, items', sh.used, usedList, sh.free[0]);
  }

  lemma AddLists(items: seq<Item>, items': seq<Item>, table: seq<int>, usedList: int, freeList: int, sh: Shape, h: nat,
                 fd: int, event: Event)
    requires Owned(sh, |items|, |table|) && Linked(items, table, usedList, freeList, sh)
    requires |items'| == |items| && h < |table| && |sh.free| > 0 && AddWrites(items, items', sh, h, fd, event)
    requires Owned(Added(sh, h, fd), |items'|, |table|)
    ensures List(items', sh.free[1..], At(sh.free, 1))
    ensures forall g | 0 <= g < |table| ::
      List(items', Added(sh, h, fd).chains[g], if g == h && |sh.chains[h]| == 0 then sh.free[0] else table[g])
  {
    hide Ring;
    AddKeepsLinks(items, items', sh, h, fd, event, |table|);
    AddChain(items, items', sh.chains[h], table[h], sh.free[0]);
    forall g | 0 <= g < |table| && g != h
      ensures List(items', sh.chains[g], table[g])
    {
      SameList(items, items', sh.chains[g], table[g]);
    }
  }

  lemma AddAroundRing(items: seq<Item>, items': seq<Item>, sh: Shape, h: nat, fd: int, event: Event, hashSize: nat)
    requires Owned(sh, |items|, hashSize) && |items'| == |items| && h < hashSize && |sh.free| > 0
    requires AddWrites(items, items', sh, h, fd, event)
    ensures var x, u := sh.free[0], sh.used;
            items'[x].next == (if |u| > 0 then u[0] else x) && items'[x].prev == (if |u| > 0 then u[|u| - 1] else x)
    ensures forall i | 0 <= i < |sh.used| ::
      && sh.used[i] != sh.free[0]
      && items'[sh.used[i]].next == (if i + 1 == |sh.used| then sh.free[0] else items[sh.used[i]].next)
      && items'[sh.used[i]].prev == (if i == 0 then sh.free[0] else items[sh.used[i]].prev)
  {
    var u := sh.used;
    forall i | 0 <= i < |u|
      ensures (u[i] == u[|u| - 1] <==> i + 1 == |u|) && (u[i] == u[0] <==> i == 0) && u[i] != sh.free[0]
    {
      assert sh.owner[u[i]] != NIL;
    }
  }

  lemma AddKeepsLinks(items: seq<Item>, items': seq<Item>, sh: Shape, h: nat, fd: int, event: Event, hashSize: nat)
    requires Owned(sh, |items|, hashSize) && |items'| == |items| && h < hashSize && |sh.free| > 0
    requires AddWrites(items, items', sh, h, fd, event)
    ensures forall i | 1 <= i < |sh.free| :: items'[sh.free[i]].hashNext == items[sh.free[i]].hashNext
    ensures forall g, i | 0 <= g < hashSize && g != h && 0 <= i < |sh.chains[g]| ::
              items'[sh.chains[g][i]].hashNext == items[sh.chains[g][i]].hashNext
  {
    var x, c := sh.free[0], sh.chains[h];
    if |c| > 0 { assert sh.owner[c[|c| - 1]] == h; }
  }

  lemma AddKeyed(items: seq<Item>, items': seq<Item>, hashSize: nat, sh: Shape, events: map<int, Event>, h: nat,
                 fd: int, event: Event)
    requires Owned(sh, |items|, hashSize) && Keyed(items, hashSize, sh, events)
    requires |items'| == |items| && h < hashSize && |sh.free| > 0 && AddWrites(items, items', sh, h, fd, event)
    requires fd >= 0 && fd !in events && h == fd % hashSize
    ensures Keyed(items', hashSize, Added(sh, h, fd), events[fd := event])
  {
  }

  // ----- del -----

  /** The item at position j of the ring and position k of chain h becomes the first free one. */
  function Removed(sh: Shape, h: nat, k: nat, j: nat, fd: int): Shape
    requires h < |sh.chains| && k < |sh.chains[h]| && j < |sh.used| && sh.used[j] < |sh.owner|
  {
    Shape(Without(sh.used, j), [sh.used[j]] + sh.free, sh.chains[h := Without(sh.chains[h], k)],
          sh.owner[sh.used[j] := NIL], sh.place - {fd})
  }

  /** x is used: at position j of the ring and at position k of chain h. */
  ghost predicate Located(sh: Shape, x: nat, h: nat, k: nat, j: nat) {
    h < |sh.chains| && k < |sh.chains[h]| && j < |sh.used| && sh.used[j] == x == sh.chains[h][k]
  }

  lemma RemovedOwned(sh: Shape, n: nat, hashSize: nat, x: nat, h: nat, k: nat, j: nat, fd: int)
    requires Owned(sh, n, hashSize) && Located(sh, x, h, k, j)
    ensures Owned(Removed(sh, h, k, j, fd), n, hashSize)
  {
    WithoutIs(sh.used, j, n);
    WithoutIs(sh.chains[h], k, n);
    hide Without;
    var sh' := Removed(sh, h, k, j, fd);
    assert sh.owner[sh.chains[h][k]] == h;
    forall g, i | 0 <= g < hashSize && 0 <= i < |sh'.chains[g]| ensures sh'.owner[sh'.chains[g][i]] == g {
      assert g != h ==> sh.owner[sh.chains[g][i]] == g;
    }
  }

  lemma RemovedPlaced(sh: Shape, n: nat, hashSize: nat, x: nat, h: nat, k: nat, j: nat, fd: int)
    requires Placed(sh, n, hashSize) && Located(sh, x, h, k, j)
    ensures Placed(Removed(sh, h, k, j, fd), n, hashSize)
  {
    RemovedOwned(sh, n, hashSize, x, h, k, j, fd);
    WithoutIs(sh.used, j, n);
    WithoutIs(sh.chains[h], k, n);
    hide Without, Owned;
    var sh' := Removed(sh, h, k, j, fd);
    assert sh'.free[0] == x;
    forall y | 0 <= y < n
      ensures if sh'.owner[y] == NIL then y in sh'.free
              else 0 <= sh'.owner[y] < hashSize && y in sh'.used && y in sh'.chains[sh'.owner[y]]
    {
      if y != x && sh.owner[y] == NIL { assert y in sh.free; }
    }
  }

  /** What deleting writes: its neighbours in the ring and its predecessor in the chain skip x. */
  ghost predicate DelWrites(items: seq<Item>, items': seq<Item>, x: nat, before: int, freeList: int)
    requires |items'| == |items| && x < |items|
  {
    forall y | 0 <= y < |items| ::
      && items'[y].hashNext == (if y == x then freeList
                                else if y == before then items[x].hashNext else items[y].hashNext)
      && items'[y].next == (if y == x then NIL else if y == items[x].prev then items[x].next else items[y].next)
      && items'[y].prev == (if y == x then NIL else if y == items[x].next then items[x].prev else items[y].prev)
      && items'[y].fd == (if y == x then 0 else items[y].fd)
      && (y != x ==> items'[y].event == items[y].event)
  }

  lemma DelRing(items: seq<Item>, items': seq<Item>, s: seq<nat>, head: int, j: nat)
    requires |items'| == |items| && Inside(s, |items|) && NoDup(s) && j < |s| && Ring(items, s, head)
    requires forall y {:trigger items'[y]} | 0 <= y < |items| && y != s[j] ::
      && items'[y].next == (if y == items[s[j]].prev then items[s[j]].next else items[y].next)
      && items'[y].prev == (if y == items[s[j]].next then items[s[j]].prev else items[y].prev)
    ensures Inside(Without(s, j), |items|)
    ensures Ring(items', Without(s, j), if |s| == 1 then NIL else if j == 0 then items[s[j]].next else head)
  {
    WithoutIs(s, j, |items|);
    var n, r := |s|, Without(s, j);
    hide Ring, NoDup, Inside;
    forall i | 0 <= i < |r|
      ensures r[i] < |items| && items'[r[i]].next == r[After(i, |r|)] && items'[r[i]].prev == r[Before(i, |r|)]
    {
      DelLink(items, items', s, head, j, i);
    }
    hide After, Before;
    DelHead(items, s, head, j);
    if |r| > 0 { IsRing(items', r); } else { NoRing(items'); }
  }

  /** The links of an item that stays. */
  lemma DelLink(items: seq<Item>, items': seq<Item>, s: seq<nat>, head: int, j: nat, i: nat)
    requires |items'| == |items| && Inside(s, |items|) && NoDup(s) && j < |s| && Ring(items, s, head) && i + 1 < |s|
    requires forall y {:trigger items'[y]} | 0 <= y < |items| && y != s[j] ::
      && items'[y].next == (if y == items[s[j]].prev then items[s[j]].next else items[y].next)
      && items'[y].prev == (if y == items[s[j]].next then items[s[j]].prev else items[y].prev)
    ensures var r := Without(s, j);
            r[i] < |items| && items'[r[i]].next == r[After(i, |r|)] && items'[r[i]].prev == r[Before(i, |r|)]
  {
    hide Ring, After, Before, NoDup, Skip;
    var n, p := |s|, Skip(i, j);
    WithoutAt(s, j, i);
    SkipCircle(i, j, n);
    LinksAt(items, s, head, j);
    LinksAt(items, s, head, p);
    SameItem(s, p, j);
    SameItem(s, p, Before(j, n));
    SameItem(s, p, After(j, n));
    NeighboursAt(s, j, i);
    hide Without;
  }

  lemma WithoutAt(s: seq<nat>, j: nat, i: nat)
    requires j < |s| && i + 1 < |s|
    ensures |Without(s, j)| == |s| - 1 && Skip(i, j) < |s| && Without(s, j)[i] == s[Skip(i, j)]
  {
  }

  lemma NeighboursAt(s: seq<nat>, j: nat, i: nat)
    requires j < |s| && i + 1 < |s|
    ensures var r, n := Without(s, j), |s| - 1;
            && |r| == n && Skip(After(i, n), j) < |s| && Skip(Before(i, n), j) < |s|
            && r[After(i, n)] == s[Skip(After(i, n), j)] && r[Before(i, n)] == s[Skip(Before(i, n), j)]
  {
    hide After, Before;
    WithoutAt(s, j, After(i, |s| - 1));
    WithoutAt(s, j, Before(i, |s| - 1));
  }

  lemma SameItem(s: seq<nat>, p: nat, q: nat)
    requires NoDup(s) && p < |s| && q < |s|
    ensures s[p] == s[q] <==> p == q
  {
  }

  lemma DelHead(items: seq<Item>, s: seq<nat>, head: int, j: nat)
    requires Inside(s, |items|) && j < |s| && Ring(items, s, head)
    ensures At(Without(s, j), 0) == if |s| == 1 then NIL else if j == 0 then items[s[j]].next else head
  {
    LinksAt(items, s, head, j);
  }

  lemma NoRing(items: seq<Item>)
    ensures Ring(items, [], NIL)
  {
  }

  /** Position i of a sequence with position j removed is this position of the whole one. */
  function Skip(i: nat, j: nat): nat { if i < j then i else i + 1 }

  /** Around the circle without j, the neighbours of j are next to each other. */
  lemma SkipCircle(i: nat, j: nat, n: nat)
    requires j < n && i + 1 < n
    ensures var p := Skip(i, j);
            && p != j && p < n
            && Skip(After(i, n - 1), j) == (if p == Before(j, n) then After(j, n) else After(p, n))
            && Skip(Before(i, n - 1), j) == (if p == After(j, n) then Before(j, n) else Before(p, n))
  {
  }

  lemma DelChain(items: seq<Item>, items': seq<Item>, s: seq<nat>, head: int, k: nat)
    requires |items'| == |items| && Inside(s, |items|) && NoDup(s) && k < |s| && List(items, s, head)
    requires forall y {:trigger items'[y]} | 0 <= y < |items| && y != s[k] ::
      items'[y].hashNext == (if k > 0 && y == s[k - 1] then items[s[k]].hashNext else items[y].hashNext)
    ensures Inside(Without(s, k), |items|)
    ensures List(items', Without(s, k), if k == 0 then items[s[k]].hashNext else head)
  {
    WithoutIs(s, k, |items|);
    var r := Without(s, k);
    assert items[s[k]].hashNext == At(s, k + 1);
    forall i | 0 <= i < |r|
      ensures items'[r[i]].hashNext == At(r, i + 1)
    {
      var p := if i < k then i else i + 1;
      assert r[i] == s[p] && p != k && s[p] != s[k];
      assert items[s[p]].hashNext == At(s, p + 1);
      assert k > 0 ==> (s[p] == s[k - 1] <==> p == k - 1);
    }
  }

  lemma DelFree(items: seq<Item>, items': seq<Item>, free: seq<nat>, freeList: int, x: nat)
    requires |items'| == |items| && Inside(free, |items|) && List(items, free, freeList) && x < |items|
    requires items'[x].hashNext == freeList
    requires forall i | 0 <= i < |free| :: items'[free[i]].hashNext == items[free[i]].hashNext
    ensures Inside([x] + free, |items|) && List(items', [x] + free, x)
  {
    var r := [x] + free;
    forall i | 0 <= i < |r| ensures items'[r[i]].hashNext == At(r, i + 1) {
      if i > 0 { assert r[i] == free[i - 1] && items[free[i - 1]].hashNext == At(free, i); }
    }
  }

  /** Which links deleting leaves alone. */
  lemma DelKeeps(items: seq<Item>, items': seq<Item>, hashSize: nat, sh: Shape, x: nat, h: nat, k: nat, j: nat,
                 freeList: int)
    requires Owned(sh, |items|, hashSize) && Located(sh, x, h, k, j) && |items'| == |items| && h < hashSize
    requires DelWrites(items, items', x, Predecessor(sh.chains[h], k), freeList)
    ensures items'[x].hashNext == freeList
    ensures forall i | 0 <= i < |sh.free| :: items'[sh.free[i]].hashNext == items[sh.free[i]].hashNext
    ensures forall g, i | 0 <= g < hashSize && g != h && 0 <= i < |sh.chains[g]| ::
              items'[sh.chains[g][i]].hashNext == items[sh.chains[g][i]].hashNext
  {
    var c := sh.chains[h];
    assert sh.owner[c[k]] == h;
    if k > 0 { assert sh.owner[c[k - 1]] == h; }
  }

  /** The item whose hash link leads to position k of a chain, or NIL for the table itself. */
  function Predecessor(c: seq<nat>, k: nat): int { if k == 0 then NIL else At(c, k - 1) }

  lemma DelLinks(items: seq<Item>, items': seq<Item>, table: seq<int>, usedList: int, freeList: int, sh: Shape,
                 x: nat, h: nat, k: nat, j: nat, fd: int)
    requires Owned(sh, |items|, |table|) && Linked(items, table, usedList, freeList, sh)
    requires Located(sh, x, h, k, j) && |items'| == |items| && h < |table|
    requires DelWrites(items, items', x, Predecessor(sh.chains[h], k), freeList)
    ensures Owned(Removed(sh, h, k, j, fd), |items'|, |table|)
    ensures var table' := if k == 0 then table[h := items[x].hashNext] else table;
            var usedList' := if |sh.used| == 1 then NIL else if j == 0 then items[x].next else usedList;
            Linked(items', table', usedList', x, Removed(sh, h, k, j, fd))
  {
    RemovedOwned(sh, |items|, |table|, x, h, k, j, fd);
    DelKeeps(items, items', |table|, sh, x, h, k, j, freeList);
    DelRing(items, items', sh.used, usedList, j);
    DelFree(items, items', sh.free, freeList, x);
    DelChain(items, items', sh.chains[h], table[h], k);
    hide DelWrites, Ring, List, Without;
    forall g | 0 <= g < |table| && g != h
      ensures List(items', sh.chains[g], table[g])
    {
      SameList(items, items', sh.chains[g], table[g]);
    }
  }

  lemma DelKeyed(items: seq<Item>, items': seq<Item>, hashSize: nat, sh: Shape, events: map<int, Event>,
                 x: nat, h: nat, k: nat, j: nat, before: int, freeList: int)
    requires Owned(sh, |items|, hashSize) && Keyed(items, hashSize, sh, events)
    requires Located(sh, x, h, k, j) && |items'| == |items| && DelWrites(items, items', x, before, freeList)
    ensures Keyed(items', hashSize, Removed(sh, h, k, j, items[x].fd), events - {items[x].fd})
  {
    assert sh.owner[x] != NIL && sh.place[items[x].fd] == x;
  }

  // ----- mod and rotation -----

  lemma SameLinks(items: seq<Item>, items': seq<Item>, table: seq<int>, usedList: int, freeList: int, sh: Shape)
    requires Owned(sh, |items|, |table|) && Linked(items, table, usedList, freeList, sh) && |items'| == |items|
    requires forall y | 0 <= y < |items| ::
      items'[y].hashNext == items[y].hashNext && items'[y].next == items[y].next && items'[y].prev == items[y].prev
    ensures Linked(items', table, usedList, freeList, sh)
  {
    forall h | 0 <= h < |table| ensures List(items', sh.chains[h], table[h]) {
      SameList(items, items', sh.chains[h], table[h]);
    }
  }

  lemma ModKeyed(items: seq<Item>, hashSize: nat, sh: Shape, events: map<int, Event>, x: nat, event: Event)
    requires |sh.owner| == |items| && 0 < hashSize && Keyed(items, hashSize, sh, events) && x < |items|
      && sh.owner[x] != NIL
    ensures Keyed(items[x := items[x].(event := event)], hashSize, sh, events[items[x].fd := event])
    ensures |events[items[x].fd := event]| == |events|
  {
    MapSize(events, events[items[x].fd := event]);
  }

  /** Replacing the event of a used item. */
  lemma ModOk(items: seq<Item>, table: seq<int>, usedList: int, freeList: int, counts: nat, sh: Shape,
              events: map<int, Event>, x: nat, event: Event)
    requires Ok(items, table, usedList, freeList, counts, sh, events) && x < |items| && sh.owner[x] != NIL
    ensures Ok(items[x := items[x].(event := event)], table, usedList, freeList, counts, sh,
               events[items[x].fd := event])
  {
    hide Complete, Linked, Keyed;
    SameLinks(items, items[x := items[x].(event := event)], table, usedList, freeList, sh);
    ModKeyed(items, |table|, sh, events, x, event);
  }

  lemma AddOk(items: seq<Item>, items': seq<Item>, table: seq<int>, usedList: int, freeList: int, counts: nat,
              sh: Shape, events: map<int, Event>, h: nat, fd: int, event: Event)
    requires Ok(items, table, usedList, freeList, counts, sh, events)
    requires |items'| == |items| && |sh.free| > 0 && fd >= 0 && fd !in events && h == fd % |table|
    requires AddWrites(items, items', sh, h, fd, event)
    ensures var table' := if |sh.chains[h]| == 0 then table[h := sh.free[0]] else table;
            Ok(items', table', if |sh.used| == 0 then sh.free[0] else usedList, At(sh.free, 1), counts + 1,
              Added(sh, h, fd), events[fd := event])
  {
    hide Linked, Keyed, Complete, AddWrites;
    AddedPlaced(sh, |items|, |table|, h, fd);
    AddLinks(items, items', table, usedList, freeList, sh, h, fd, event);
    AddKeyed(items, items', |table|, sh, events, h, fd, event);
  }

  lemma DelOk(items: seq<Item>, items': seq<Item>, table: seq<int>, usedList: int, freeList: int, counts: nat,
              sh: Shape, events: map<int, Event>, x: nat, h: nat, k: nat, j: nat)
    requires Ok(items, table, usedList, freeList, counts, sh, events)
    requires Located(sh, x, h, k, j) && |items'| == |items| && h < |table| && items[x].fd in events
    requires DelWrites(items, items', x, Predecessor(sh.chains[h], k), freeList)
    ensures var table' := if k == 0 then table[h := items[x].hashNext] else table;
            var usedList' := if |sh.used| == 1 then NIL else if j == 0 then items[x].next else usedList;
            counts > 0 && Ok(items', table', usedList', x, counts - 1, Removed(sh, h, k, j, items[x].fd),
                           events - {items[x].fd})
  {
    hide Linked, Keyed, Complete, DelWrites;
    RemovedPlaced(sh, |items|, |table|, x, h, k, j, items[x].fd);
    DelLinks(items, items', table, usedList, freeList, sh, x, h, k, j, items[x].fd);
    DelKeyed(items, items', |table|, sh, events, x, h, k, j, Predecessor(sh.chains[h], k), freeList);
    assert (events - {items[x].fd}).Keys == events.Keys - {items[x].fd};
  }

  /** Where the parts of a used item are, from its search. */
  lemma UsedIsLocated(sh: Shape, n: nat, hashSize: nat, h: nat, k: nat) returns (j: nat)
    requires Placed(sh, n, hashSize) && h < hashSize && k < |sh.chains[h]|
    ensures Located(sh, sh.chains[h][k], h, k, j)
  {
    var x := sh.chains[h][k];
    assert sh.owner[x] == h && x in sh.used;
    j :| 0 <= j < |sh.used| && sh.used[j] == x;
  }

  /** The same ring, from its second item on. */
  function Rotated(sh: Shape): Shape
    requires |sh.used| > 0
  {
    sh.(used := sh.used[1..] + [sh.used[0]])
  }

  lemma RotateOk(items: seq<Item>, table: seq<int>, usedList: int, freeList: int, counts: nat, sh: Shape,
                 events: map<int, Event>)
    requires Ok(items, table, usedList, freeList, counts, sh, events) && |sh.used| > 0
    ensures Ok(items, table, items[sh.used[0]].next, freeList, counts, Rotated(sh), events)
  {
    hide List, Ring;
    RotateRing(items, sh.used, usedList);
    RotateComplete(sh, |items|, |table|);
  }

  lemma RotateComplete(sh: Shape, n: nat, hashSize: nat)
    requires Placed(sh, n, hashSize) && |sh.used| > 0
    ensures Placed(Rotated(sh), n, hashSize)
  {
    var s, r := sh.used, Rotated(sh).used;
    forall i | 0 <= i < |r| ensures r[i] == s[After(i, |s|)] {}
    forall y | y in s ensures y in r {
      var i :| 0 <= i < |s| && s[i] == y;
      assert r[Before(i, |s|)] == y;
    }
  }

  lemma RotateRing(items: seq<Item>, s: seq<nat>, head: int)
    requires Inside(s, |items|) && Ring(items, s, head) && |s| > 0
    ensures var r := s[1..] + [s[0]]; Inside(r, |items|) && Ring(items, r, items[s[0]].next)
  {
    hide Ring;
    var r := s[1..] + [s[0]];
    forall i | 0 <= i < |r|
      ensures r[i] < |items| && items[r[i]].next == r[After(i, |r|)] && items[r[i]].prev == r[Before(i, |r|)]
    {
      RotatedAt(s, i);
      LinksAt(items, s, head, After(i, |s|));
    }
    hide After, Before;
    RotatedAt(s, 0);
    LinksAt(items, s, head, 0);
    IsRing(items, r);
  }

  lemma LinksAt(items: seq<Item>, s: seq<nat>, head: int, i: nat)
    requires Inside(s, |items|) && Ring(items, s, head) && i < |s|
    ensures s[i] < |items| && items[s[i]].next == s[After(i, |s|)] && items[s[i]].prev == s[Before(i, |s|)]
  {
  }

  lemma IsRing(items: seq<Item>, r: seq<nat>)
    requires |r| > 0
    requires forall i | 0 <= i < |r| ::
      r[i] < |items| && items[r[i]].next == r[After(i, |r|)] && items[r[i]].prev == r[Before(i, |r|)]
    ensures Inside(r, |items|) && Ring(items, r, r[0])
  {
  }

  lemma RotatedAt(s: seq<nat>, i: nat)
    requires i < |s|
    ensures var r, p := s[1..] + [s[0]], After(i, |s|);
            r[i] == s[p] && r[After(i, |s|)] == s[After(p, |s|)] && r[Before(i, |s|)] == s[Before(p, |s|)]
              && r[0] == s[After(0, |s|)]
  {
  }

  lemma MapSize(m: map<int, Event>, m': map<int, Event>)
    requires m.Keys == m'.Keys
    ensures |m| == |m'|
  {
    assert |m| == |m.Keys| && |m'| == |m'.Keys|;
  }
}

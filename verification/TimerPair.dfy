/**
 The two containers themselves, side by side: a min-heap and a sorted list that receive the
 same calls stay related, and their ticks run the callbacks of the same timers.
 */
module TimerPair {
  import opened Lists
  import opened TimerSpec
  import opened SortedListSpec
  import opened MinHeapTimer
  import opened TimerEquivalence
  import SL = SortedListTimer

  /** `items` under other names. */
  ghost function Named<A, B>(items: seq<Item<A>>, twin: map<A, B>): (r: seq<Item<B>>)
    requires forall i :: 0 <= i < |items| ==> items[i].id in twin
    ensures |r| == |items|
    ensures forall i :: 0 <= i < |r| ==> r[i] == Item(twin[items[i].id], items[i].expire)
  {
    seq(|items|, i requires 0 <= i < |items| => Item(twin[items[i].id], items[i].expire))
  }

  lemma SortedNamed<A, B>(items: seq<Item<A>>, twin: map<A, B>)
    requires forall i :: 0 <= i < |items| ==> items[i].id in twin
    ensures Sorted(items) <==> Sorted(Named(items, twin))
  {
    var s := Named(items, twin);
    assert forall i :: 0 <= i < |items| ==> items[i].expire == s[i].expire;
  }

  lemma NamedInsert<A, B>(items: seq<Item<A>>, twin: map<A, B>, a: A, e: int)
    requires forall i :: 0 <= i < |items| ==> items[i].id in twin
    requires Sorted(items) && a in twin
    ensures forall i :: 0 <= i < |Insert(items, a, e)| ==> Insert(items, a, e)[i].id in twin
    ensures Named(Insert(items, a, e), twin) == Insert(Named(items, twin), twin[a], e)
  {
    hide UpTo, Sorted;
    var p, r, named := UpTo(items, e), Insert(items, a, e), Named(items, twin);
    SortedNamed(items, twin);
    UpToIs(named, e, p);
    assert forall i :: 0 <= i < |r| ==> r[i] == if i < p then items[i] else if i == p then Item(a, e) else items[i - 1];
    assert Named(r, twin) == named[..p] + [Item(twin[a], e)] + named[p..];
  }

  lemma NamedRemove<A, B>(items: seq<Item<A>>, twin: map<A, B>, k: nat)
    requires forall i :: 0 <= i < |items| ==> items[i].id in twin
    requires k < |items|
    ensures forall i :: 0 <= i < |Without(items, k)| ==> Without(items, k)[i].id in twin
    ensures Named(Without(items, k), twin) == Without(Named(items, twin), k)
  {
  }

  /** The list holds exactly the heap's timers that still have a callback, each as its twin. */
  ghost predicate Paired(heap: TimeHeap, list: SL.SortTimerLst, twin: map<SL.UtilTimer, HeapTimer>)
    reads heap, heap.arr, heap.timers, list, list.nodes
  {
    && heap.Valid() && heap.capacity > 0
    && list.Valid()
    && (forall i :: 0 <= i < |list.items| ==> list.items[i].id in twin)
    && Same(heap.entries, Named(list.items, twin))
  }

  lemma EmptyPaired(heap: TimeHeap, list: SL.SortTimerLst)
    requires heap.Valid() && heap.capacity > 0 && heap.entries == map[] && list.Valid() && list.items == []
    ensures Paired(heap, list, map[])
  {
    assert Named<SL.UtilTimer, HeapTimer>(list.items, map[]) == [];
  }

  /** A new timer for both. */
  method Add(heap: TimeHeap, list: SL.SortTimerLst, now: int, delay: int, ghost twin: map<SL.UtilTimer, HeapTimer>)
    returns (h: HeapTimer, u: SL.UtilTimer, ghost twin': map<SL.UtilTimer, HeapTimer>)
    requires Paired(heap, list, twin)
    modifies heap, heap.arr, heap.timers, list, list.nodes
    ensures fresh(h) && fresh(u) && twin' == twin[u := h] && Paired(heap, list, twin')
    ensures heap.arr == old(heap.arr) || fresh(heap.arr)
    ensures HeapStep(old(heap.entries), Op.Add(h, now + delay), [], heap.entries)
    ensures list.items == Insert(old(list.items), u, now + delay)
  {
    hide Same, Sorted, Insert, TimeHeap.Valid, SL.SortTimerLst.Valid;
    ItemsAreNodes(list);
    h, u := NewTimers(now, delay);
    twin' := twin[u := h];
    AddPaired(heap.entries, list.items, twin, h, u, now + delay);
    heap.AddTimer(h);
    var _ := list.AddTimer(u);
  }

  /** The two objects that stand for a new timer. */
  method NewTimers(now: int, delay: int) returns (h: HeapTimer, u: SL.UtilTimer)
    ensures fresh(h) && h.expire == now + delay && h.callback
    ensures fresh(u) && u.expire == now + delay && u.next == u.prev == null
  {
    h := new HeapTimer(now, delay);
    h.callback := true;
    u := new SL.UtilTimer();
    u.expire := now + delay;
  }

  /** Stable insertion under one name matches adding under the other. */
  lemma AddPaired<A, B>(m: map<B, Entry>, items: seq<Item<A>>, twin: map<A, B>, h: B, u: A, e: int)
    requires forall i :: 0 <= i < |items| ==> items[i].id in twin && items[i].id != u
    requires Sorted(items) && Same(m, Named(items, twin)) && h !in m
    ensures forall i :: 0 <= i < |Insert(items, u, e)| ==> Insert(items, u, e)[i].id in twin[u := h]
    ensures Same(m[h := Entry(e, true)], Named(Insert(items, u, e), twin[u := h]))
  {
    hide Same, Sorted, Insert;
    assert Named(items, twin[u := h]) == Named(items, twin);
    NamedInsert(items, twin[u := h], u, e);
    InsertSame(m, Named(items, twin), h, e);
  }

  /** The list's node `u` and the heap's timer `h` stand for the same timer. */
  lemma Twins(heap: TimeHeap, list: SL.SortTimerLst, twin: map<SL.UtilTimer, HeapTimer>, u: SL.UtilTimer, k: nat)
    requires Paired(heap, list, twin) && k < |list.nodes| && list.nodes[k] == u
    ensures |list.items| == |list.nodes| && list.items[k] == Item(u, u.expire) && u in twin
    ensures var h := twin[u];
      && h in heap.timers && h.expire == u.expire && h.callback
      && h in heap.entries && heap.entries[h] == Entry(u.expire, true)
      && StandsAt(Named(list.items, twin), h, k)
  {
    hide Sorted, Distinct;
    assert Named(list.items, twin)[k] == Item(twin[u], u.expire);
  }

  /** A pending timer is put off in both. */
  method Postpone(heap: TimeHeap, list: SL.SortTimerLst, h: HeapTimer, u: SL.UtilTimer, expire: int,
                  ghost k: nat, ghost twin: map<SL.UtilTimer, HeapTimer>)
    requires Paired(heap, list, twin) && k < |list.nodes| && list.nodes[k] == u
    requires u in twin && twin[u] == h && expire >= u.expire
    modifies heap, heap.arr, heap.timers, list, list.nodes
    ensures Paired(heap, list, twin)
    ensures HeapStep(old(heap.entries), Op.Postpone(h, expire), [], heap.entries)
    ensures list.items == Insert(Without(old(list.items), k), u, expire)
  {
    hide Same, Sorted, Insert, Without, TimeHeap.Valid, SL.SortTimerLst.Valid;
    Twins(heap, list, twin, u, k);
    ghost var m: map<HeapTimer, Entry>, items: seq<Item<SL.UtilTimer>> := heap.entries, list.items;
    NamedRemove(items, twin, k);
    RemoveSame(m, Named(items, twin), h, k);
    ItemsAreNodes(list);
    RemoveSorted(items, k);
    NamedInsert(Without(items, k), twin, u, expire);
    InsertSame(m[h := Entry(m[h].expire, false)], Named(Without(items, k), twin), h, expire);
    assert m[h := Entry(m[h].expire, false)][h := Entry(expire, true)] == m[h := Entry(expire, true)];
    heap.Postpone(h, expire);
    var _, _ := list.Postpone(u, expire, k);
  }

  /** A pending timer is deleted: lazily in the heap, at once in the list. */
  method Delete(heap: TimeHeap, list: SL.SortTimerLst, h: HeapTimer, u: SL.UtilTimer,
                ghost k: nat, ghost twin: map<SL.UtilTimer, HeapTimer>)
    requires Paired(heap, list, twin) && k < |list.nodes| && list.nodes[k] == u
    requires u in twin && twin[u] == h
    modifies heap, heap.arr, heap.timers, list, list.nodes
    ensures Paired(heap, list, twin)
    ensures HeapStep(old(heap.entries), Op.Delete(h), [], heap.entries)
    ensures list.items == Without(old(list.items), k)
  {
    hide Same, Sorted, Without, TimeHeap.Valid, SL.SortTimerLst.Valid;
    Twins(heap, list, twin, u, k);
    NamedRemove(list.items, twin, k);
    RemoveSame(heap.entries, Named(list.items, twin), h, k);
    heap.DelTimer(h);
    list.DelTimer(u, k);
  }

  ghost function Twinned(us: seq<SL.UtilTimer>, twin: map<SL.UtilTimer, HeapTimer>): (r: seq<HeapTimer>)
    requires forall u :: u in us ==> u in twin
    ensures |r| == |us|
  {
    seq(|us|, i requires 0 <= i < |us| => twin[us[i]])
  }

  /** What the list fires and keeps, under the heap's names, is a step of the named list. */
  lemma NamedTick(nodes: seq<SL.UtilTimer>, items: seq<Item<SL.UtilTimer>>, twin: map<SL.UtilTimer, HeapTimer>, cur: int)
    requires forall i :: 0 <= i < |items| ==> items[i].id in twin
    requires |nodes| == |items| && Sorted(items) && forall i :: 0 <= i < |nodes| ==> items[i].id == nodes[i]
    ensures forall u :: u in nodes ==> u in twin
    ensures var p := UpTo(items, cur);
      ListStep(Named(items, twin), Op.Tick(cur), Twinned(nodes[..p], twin), Named(items[p..], twin))
  {
    hide UpTo;
    UpToIs(Named(items, twin), cur, UpTo(items, cur));
  }

  lemma ItemsAreNodes(list: SL.SortTimerLst)
    requires list.Valid()
    ensures |list.nodes| == |list.items| && Sorted(list.items)
    ensures forall i :: 0 <= i < |list.nodes| ==> list.items[i].id == list.nodes[i]
  {
  }

  /** Every deadline on record is the one in the object, on either side. */
  lemma Deadlines(heap: TimeHeap, list: SL.SortTimerLst, twin: map<SL.UtilTimer, HeapTimer>)
    requires Paired(heap, list, twin)
    ensures forall t :: t in heap.entries ==> heap.entries[t].expire == t.expire
    ensures forall u :: u in list.nodes ==>
      u in twin && twin[u] in heap.entries && heap.entries[twin[u]].expire == u.expire
  {
    heap.TimersAre();
    forall u | u in list.nodes
      ensures u in twin && twin[u] in heap.entries && heap.entries[twin[u]].expire == u.expire
    {
      var k: nat :| k < |list.nodes| && list.nodes[k] == u;
      Twins(heap, list, twin, u, k);
    }
  }

  lemma AlikeTwins(m: map<HeapTimer, Entry>, f: seq<HeapTimer>, g: seq<SL.UtilTimer>, twin: map<SL.UtilTimer, HeapTimer>)
    requires (forall u :: u in g ==> u in twin) && Alike(m, f, Twinned(g, twin))
    ensures |f| == |g|
    ensures forall j :: 0 <= j < |f| ==> f[j] in m && twin[g[j]] in m && m[f[j]].expire == m[twin[g[j]]].expire
    ensures forall t :: t in f <==> exists j :: 0 <= j < |g| && g[j] in twin && twin[g[j]] == t
  {
    var h := Twinned(g, twin);
    assert forall j :: 0 <= j < |g| ==> h[j] == twin[g[j]];
    assert forall t :: t in f <==> t in h;
  }

  /** A tick of both runs the callbacks of the same timers, deadline by deadline. */
  method Tick(heap: TimeHeap, list: SL.SortTimerLst, cur: int, ghost twin: map<SL.UtilTimer, HeapTimer>)
    returns (ghost f: seq<HeapTimer>, ghost g: seq<SL.UtilTimer>)
    requires Paired(heap, list, twin)
    modifies heap, heap.arr, heap.timers`index, list, list.nodes`prev
    ensures Paired(heap, list, twin)
    ensures heap.fired == old(heap.fired) + f && list.fired == old(list.fired) + g
    ensures forall u :: u in g ==> u in twin
    ensures Alike(old(heap.entries), f, Twinned(g, twin))
    ensures HeapStep(old(heap.entries), Op.Tick(cur), f, heap.entries)
    ensures |f| == |g| && forall j :: 0 <= j < |f| ==> f[j].expire == g[j].expire
    ensures forall t :: t in f <==> exists j :: 0 <= j < |g| && g[j] in twin && twin[g[j]] == t
  {
    hide Paired, Alike, HeapStep, Twinned;
    Deadlines(heap, list, twin);
    ghost var m: map<HeapTimer, Entry> := heap.entries;
    f, g := TickBoth(heap, list, cur, twin);
    AlikeTwins(m, f, g, twin);
  }

  method TickBoth(heap: TimeHeap, list: SL.SortTimerLst, cur: int, ghost twin: map<SL.UtilTimer, HeapTimer>)
    returns (ghost f: seq<HeapTimer>, ghost g: seq<SL.UtilTimer>)
    requires Paired(heap, list, twin)
    modifies heap, heap.arr, heap.timers`index, list, list.nodes`prev
    ensures Paired(heap, list, twin)
    ensures heap.fired == old(heap.fired) + f && list.fired == old(list.fired) + g
    ensures forall u :: u in g ==> u in twin && u in old(list.nodes)
    ensures Alike(old(heap.entries), f, Twinned(g, twin))
    ensures HeapStep(old(heap.entries), Op.Tick(cur), f, heap.entries)
  {
    hide Same, Sorted, Alike, Fires, UpTo, TimeHeap.Valid, SL.SortTimerLst.Valid;
    ghost var m: map<HeapTimer, Entry>, items: seq<Item<SL.UtilTimer>> := heap.entries, list.items;
    ghost var nodes: seq<SL.UtilTimer> := list.nodes;
    ItemsAreNodes(list);
    NamedTick(nodes, items, twin, cur);
    heap.Tick(cur);
    var _ := list.Tick(cur);
    f := heap.fired[|old(heap.fired)|..];
    g := nodes[..UpTo(items, cur)];
    TickSame(m, Named(items, twin), cur, f, heap.entries, Twinned(g, twin), Named(list.items, twin));
  }
}

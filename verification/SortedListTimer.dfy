/** timer/list_timer.h: an ascending doubly linked list of timers. */
module SortedListTimer {
  import opened Lists
  import opened TimerSpec
  import opened SortedListSpec

  class UtilTimer {
    var expire: int
    var user: int
    var prev: UtilTimer?
    var next: UtilTimer?

    constructor ()
      ensures prev == next == null
    {
      prev, next := null, null;
    }
  }

  ghost function At(list: seq<UtilTimer>, i: int): UtilTimer? {
    if 0 <= i < |list| then list[i] else null
  }

  ghost predicate Chain(list: seq<UtilTimer>)
    reads list`next, list`prev
  {
    && (forall i {:trigger list[i].next} :: 0 <= i < |list| ==> list[i].next == At(list, i + 1))
    && (forall i {:trigger list[i].prev} :: 0 <= i < |list| ==> list[i].prev == At(list, i - 1))
  }

  /** `pos` finds every node of `list`, which therefore has no repetition. */
  ghost predicate Indexed(list: seq<UtilTimer>, pos: map<UtilTimer, int>) {
    forall i :: 0 <= i < |list| ==> list[i] in pos && pos[list[i]] == i
  }

  lemma Positions(list: seq<UtilTimer>) returns (pos: map<UtilTimer, int>)
    requires Distinct(list)
    ensures Indexed(list, pos) && pos.Keys == set t | t in list
  {
    pos := map t | t in list :: var i :| 0 <= i < |list| && list[i] == t; i;
  }

  /** A node linked in between its two neighbours completes the chain. */
  lemma ChainBetween(list: seq<UtilTimer>, p: nat, t: UtilTimer)
    requires 0 < p < |list|
    requires forall i {:trigger list[i].next} :: 0 <= i < |list| ==> list[i].next == if i == p - 1 then t else At(list, i + 1)
    requires forall i {:trigger list[i].prev} :: 0 <= i < |list| ==> list[i].prev == if i == p then t else At(list, i - 1)
    requires t.prev == list[p - 1] && t.next == list[p]
    ensures Chain(InsertedAt(list, p, t))
  {
    var l := InsertedAt(list, p, t);
    assert forall i :: 0 <= i < |l| ==> l[i] == if i < p then list[i] else if i == p then t else list[i - 1];
  }

  lemma InsertedLast(list: seq<UtilTimer>, t: UtilTimer)
    ensures InsertedAt(list, |list|, t) == list + [t]
  {
  }

  lemma WithoutEnds(list: seq<UtilTimer>)
    requires list != []
    ensures Without(list, 0) == list[1..] && Without(list, |list| - 1) == list[..|list| - 1]
    ensures |list| == 1 ==> Chain(Without(list, 0))
  {
    WithoutFirst(list);
    WithoutLast(list);
  }

  /** `items` are `nodes` with their deadlines. */
  ghost predicate Dates(nodes: seq<UtilTimer>, items: seq<Item<UtilTimer>>)
    reads nodes`expire
  {
    && |items| == |nodes|
    && forall i :: 0 <= i < |nodes| ==> items[i] == Item(nodes[i], nodes[i].expire)
  }

  /** Inserting a node and its item at the same position keeps them in step. */
  lemma InsertInStep(nodes: seq<UtilTimer>, items: seq<Item<UtilTimer>>, p: nat, t: UtilTimer)
    requires Dates(nodes, items) && p <= |nodes| && Distinct(nodes) && t !in nodes && Sorted(items)
    requires p > 0 ==> items[p - 1].expire <= t.expire
    requires p < |items| ==> items[p].expire > t.expire
    ensures Dates(InsertedAt(nodes, p, t), Insert(items, t, t.expire))
    ensures Distinct(InsertedAt(nodes, p, t)) && Sorted(Insert(items, t, t.expire))
  {
    hide UpTo, Sorted, Distinct;
    UpToIs(items, t.expire, p);
    InsertSorted(items, t, t.expire);
    DistinctInsert(nodes, p, t);
  }

  lemma DistinctInsert(nodes: seq<UtilTimer>, p: nat, t: UtilTimer)
    requires p <= |nodes| && Distinct(nodes) && t !in nodes
    ensures Distinct(InsertedAt(nodes, p, t))
  {
  }

  lemma WithoutInStep(nodes: seq<UtilTimer>, items: seq<Item<UtilTimer>>, k: nat)
    requires Dates(nodes, items) && k < |nodes| && Distinct(nodes)
    ensures Dates(Without(nodes, k), Without(items, k)) && Distinct(Without(nodes, k))
    ensures nodes[k] !in Without(nodes, k) && forall t :: t in Without(nodes, k) ==> t in nodes
  {
    var rest := Without(nodes, k);
    assert forall i :: 0 <= i < |rest| ==> rest[i] == nodes[if i < k then i else i + 1];
    assert forall i :: 0 <= i < |rest| ==> Without(items, k)[i] == items[if i < k then i else i + 1];
  }

  /** `items` carry the identities of `nodes`. */
  ghost predicate InStep(nodes: seq<UtilTimer>, items: seq<Item<UtilTimer>>) {
    |items| == |nodes| && forall i :: 0 <= i < |nodes| ==> items[i].id == nodes[i]
  }

  /** Stable insertion, seen on the nodes. */
  lemma NodesInserted(nodes: seq<UtilTimer>, items: seq<Item<UtilTimer>>, t: UtilTimer, e: int,
                      nodes': seq<UtilTimer>, items': seq<Item<UtilTimer>>) returns (p: nat)
    requires InStep(nodes, items) && InStep(nodes', items') && Sorted(items) && items' == Insert(items, t, e)
    ensures p <= |nodes| && nodes' == nodes[..p] + [t] + nodes[p..]
    ensures forall i :: 0 <= i < p ==> items[i].expire <= e
    ensures forall i :: p <= i < |nodes| ==> items[i].expire > e
  {
    p := UpTo(items, e);
    hide UpTo;
    assert forall i :: 0 <= i < |nodes'| ==> nodes'[i] == if i < p then nodes[i] else if i == p then t else nodes[i - 1];
  }

  class SortTimerLst {
    var head: UtilTimer?
    var tail: UtilTimer?
    ghost var nodes: seq<UtilTimer>
    ghost var items: seq<Item<UtilTimer>> // the nodes with their deadlines
    ghost var fired: seq<UtilTimer>       // every callback run so far, in order

    /** `nodes` form one doubly linked list. `tail` means something only while there is a head. */
    ghost predicate Linked()
      reads `head, `tail, `nodes, nodes`next, nodes`prev
    {
      && head == At(nodes, 0)
      && (nodes != [] ==> tail == nodes[|nodes| - 1])
      && Distinct(nodes)
      && Chain(nodes)
    }

    ghost predicate Valid()
      reads `head, `tail, `nodes, `items, nodes`next, nodes`prev, nodes`expire
    {
      Linked() && Dates(nodes, items) && Sorted(items)
    }

    constructor ()
      ensures Valid() && items == [] && nodes == [] && fired == []
    {
      head, tail := null, null;
      nodes, items, fired := [], [], [];
    }

    /** An earlier timer goes in front of the head and becomes the head. */
    method LinkFirst(timer: UtilTimer, ghost list: seq<UtilTimer>, ghost pos: map<UtilTimer, int>)
      requires Chain(list) && Indexed(list, pos) && list != [] && head == list[0]
      requires timer !in list && timer.prev == null
      modifies this`head, list`prev, timer`next
      ensures Chain([timer] + list) && head == timer
    {
      timer.next := head;
      head.prev := timer;
      head := timer;
    }

    /** Links `timer` in between `prev` and its successor `tmp`. */
    static method LinkBetween(timer: UtilTimer, prev: UtilTimer, tmp: UtilTimer,
                              ghost list: seq<UtilTimer>, ghost pos: map<UtilTimer, int>, ghost j: nat)
      requires Chain(list) && Indexed(list, pos) && timer !in list
      requires j + 1 < |list| && prev == list[j] && tmp == list[j + 1]
      modifies list`next, list`prev, timer`next, timer`prev
      ensures Chain(InsertedAt(list, j + 1, timer))
    {
      hide InsertedAt;
      prev.next := timer;
      timer.next := tmp;
      timer.prev := prev;
      tmp.prev := timer;
      ChainBetween(list, j + 1, timer);
    }

    /** Links `timer` in behind the last node and makes it the tail. */
    method LinkLast(timer: UtilTimer, prev: UtilTimer, ghost list: seq<UtilTimer>, ghost pos: map<UtilTimer, int>)
      requires Chain(list) && Indexed(list, pos) && timer !in list && list != [] && prev == list[|list| - 1]
      modifies this`tail, list`next, timer`next, timer`prev
      ensures Chain(list + [timer]) && tail == timer
    {
      prev.next := timer;
      timer.prev := prev;
      timer.next := null;
      tail := timer;
    }

    /** The bookkeeping once `timer` is linked in at position `p`. */
    ghost method Place(timer: UtilTimer, p: nat)
      requires Dates(nodes, items) && Sorted(items) && Distinct(nodes) && timer !in nodes && p <= |nodes|
      requires Chain(InsertedAt(nodes, p, timer))
      requires head == (if p == 0 then timer else nodes[0])
      requires tail == (if p == |nodes| then timer else nodes[|nodes| - 1])
      requires p > 0 ==> items[p - 1].expire <= timer.expire
      requires p < |items| ==> items[p].expire > timer.expire
      modifies this`nodes, this`items
      ensures Valid() && items == Insert(old(items), timer, timer.expire)
      ensures nodes == InsertedAt(old(nodes), p, timer)
    {
      hide Distinct, Sorted, Insert;
      InsertInStep(nodes, items, p, timer);
      nodes, items := InsertedAt(nodes, p, timer), Insert(items, timer, timer.expire);
    }

    /** A timer handed in is freshly made: it is in no list. */
    method AddTimer(timer: UtilTimer?) returns (ghost p: nat)
      requires Valid()
      requires timer != null ==> timer !in nodes && timer.next == timer.prev == null
      modifies this`head, this`tail, this`nodes, this`items, nodes`next, nodes`prev, {timer}
      ensures Valid() && (timer != null ==> timer.expire == old(timer.expire) && timer.user == old(timer.user))
      ensures timer == null ==> items == old(items)
      ensures timer != null ==> items == Insert(old(items), timer, timer.expire)
      ensures timer == null ==> nodes == old(nodes)
      ensures timer != null ==>
        && p <= |old(nodes)| && nodes == old(nodes)[..p] + [timer] + old(nodes)[p..]
        && (forall i :: 0 <= i < p ==> old(nodes)[i].expire <= timer.expire)
        && (forall i :: p <= i < |old(nodes)| ==> old(nodes)[i].expire > timer.expire)
    {
      p := 0;
      if timer == null {
        return;
      }
      Enter(timer);
      p := NodesInserted(old(nodes), old(items), timer, timer.expire, nodes, items);
      hide Insert;
    }

    /** The cases of add_timer for a timer that is not null. */
    method Enter(timer: UtilTimer)
      requires Valid() && timer !in nodes && timer.next == timer.prev == null
      modifies this`head, this`tail, this`nodes, this`items, nodes`next, nodes`prev, timer`next, timer`prev
      ensures Valid() && items == Insert(old(items), timer, timer.expire)
    {
      hide Distinct, Sorted, Insert;
      ghost var pos := Positions(nodes);
      if head == null {
        head, tail := timer, timer;
        Place(timer, 0);
        return;
      }
      if timer.expire < head.expire {
        LinkFirst(timer, nodes, pos);
        assert InsertedAt(nodes, 0, timer) == [timer] + nodes;
        Place(timer, 0);
        return;
      }
      AddAfter(timer, head, 0);
    }

    /** The private add_timer: searches from `lstHead`, which is not later than `timer`. */
    method AddAfter(timer: UtilTimer, lstHead: UtilTimer, ghost k: nat)
      requires Valid() && timer !in nodes
      requires k < |nodes| && nodes[k] == lstHead && lstHead.expire <= timer.expire
      modifies this`tail, this`nodes, this`items, nodes`next, nodes`prev, timer`next, timer`prev
      ensures Valid() && items == Insert(old(items), timer, timer.expire)
    {
      hide Distinct, Sorted, Insert, InsertedAt;
      var prev := lstHead;
      var tmp := prev.next;
      ghost var list, j := nodes, k;
      ghost var pos := Positions(list);
      while tmp != null
        invariant Valid() && nodes == list && items == old(items)
        invariant k <= j < |list| && prev == list[j] && tmp == At(list, j + 1)
        invariant prev.expire <= timer.expire
        decreases |list| - j
      {
        if timer.expire < tmp.expire {
          LinkBetween(timer, prev, tmp, list, pos, j);
          break;
        }
        prev := tmp;
        tmp := prev.next;
        j := j + 1;
      }
      if tmp == null {
        LinkLast(timer, prev, list, pos);
        InsertedLast(list, timer);
      }
      Place(timer, j + 1);
    }

    /** The second node becomes the head; the old head keeps its own links. */
    method UnlinkFirst(ghost list: seq<UtilTimer>, ghost pos: map<UtilTimer, int>)
      requires Chain(list) && Indexed(list, pos) && |list| > 1 && head == list[0]
      modifies this`head, list`prev
      ensures Chain(list[1..]) && head == list[1]
    {
      head := head.next;
      head.prev := null;
    }

    /** Joins the neighbours of an inner node, which keeps its own links. */
    static method UnlinkMiddle(timer: UtilTimer, ghost list: seq<UtilTimer>, ghost pos: map<UtilTimer, int>, ghost k: nat)
      requires Chain(list) && Indexed(list, pos) && 0 < k < |list| - 1 && timer == list[k]
      modifies list`next, list`prev
      ensures Chain(Without(list, k)) && timer.next == old(timer.next)
    {
      timer.prev.next := timer.next;
      timer.next.prev := timer.prev;
    }

    /** The last node but one becomes the tail. */
    method UnlinkLast(ghost list: seq<UtilTimer>, ghost pos: map<UtilTimer, int>)
      requires Chain(list) && Indexed(list, pos) && |list| > 1 && tail == list[|list| - 1]
      modifies this`tail, list`next
      ensures Chain(list[..|list| - 1]) && tail == list[|list| - 2]
    {
      tail := tail.prev;
      tail.next := null;
    }

    /** The bookkeeping once node `k` is linked out. */
    ghost method Drop(k: nat)
      requires k < |nodes| && Dates(nodes, items) && Distinct(nodes) && Sorted(Without(items, k))
      requires Chain(Without(nodes, k))
      requires |nodes| > 1 ==> head == (if k == 0 then nodes[1] else nodes[0])
      requires |nodes| > 1 ==> tail == (if k == |nodes| - 1 then nodes[|nodes| - 2] else nodes[|nodes| - 1])
      requires |nodes| == 1 ==> head == null
      modifies this`nodes, this`items
      ensures Valid() && items == Without(old(items), k) && nodes == Without(old(nodes), k)
      ensures old(nodes)[k] !in nodes && forall t :: t in nodes ==> t in old(nodes)
    {
      hide Distinct, Sorted;
      WithoutInStep(nodes, items, k);
      nodes, items := Without(nodes, k), Without(items, k);
    }

    /** Re-files a timer whose deadline was changed; the others are in order. */
    method AdjustTimer(timer: UtilTimer?, ghost k: nat)
      requires Linked() && Dates(nodes, items)
      requires timer != null ==> k < |nodes| && nodes[k] == timer && Sorted(Without(items, k))
      modifies this`head, this`tail, this`nodes, this`items, nodes`next, nodes`prev
      ensures Linked() && Dates(nodes, items)
      ensures timer == null ==> items == old(items)
      ensures timer != null ==> items == Adjusted(old(items), k)
    {
      if timer == null {
        return;
      }
      var tmp := timer.next;
      if tmp == null || timer.expire < tmp.expire {
        return;
      }
      if timer == head {
        MoveFirst(timer, k);
      } else {
        MoveInner(timer, k);
      }
    }

    /** A head that is no longer earliest is taken out and filed again from the new head on. */
    method MoveFirst(timer: UtilTimer, ghost k: nat)
      requires Linked() && Dates(nodes, items) && timer == head
      requires k + 1 < |nodes| && nodes[k] == timer && Sorted(Without(items, k))
      requires items[k + 1].expire <= timer.expire
      modifies this`head, this`tail, this`nodes, this`items, nodes`next, nodes`prev
      ensures Valid() && items == Insert(Without(old(items), k), timer, timer.expire)
    {
      hide Distinct, Sorted, Insert, Without;
      ghost var pos := Positions(nodes);
      assert pos[nodes[0]] == 0 && pos[nodes[k]] == k;
      UnlinkFirst(nodes, pos);
      WithoutEnds(nodes);
      Drop(0);
      timer.next := null;
      AddAfter(timer, head, 0);
    }

    /** An inner node that is now too late is taken out and filed again behind its old successor. */
    method MoveInner(timer: UtilTimer, ghost k: nat)
      requires Linked() && Dates(nodes, items) && timer != head
      requires k + 1 < |nodes| && nodes[k] == timer && Sorted(Without(items, k))
      requires items[k + 1].expire <= timer.expire
      modifies this`tail, this`nodes, this`items, nodes`next, nodes`prev
      ensures Valid() && items == Insert(Without(old(items), k), timer, timer.expire)
    {
      hide Distinct, Sorted, Insert;
      ghost var pos := Positions(nodes);
      UnlinkMiddle(timer, nodes, pos, k);
      Drop(k);
      AddAfter(timer, timer.next, k);
    }

    /** How the driver puts a deadline off: `expire` is raised, then the list adjusted. */
    method Postpone(timer: UtilTimer, expire: int, ghost k: nat) returns (ghost p: nat, ghost rest: seq<UtilTimer>)
      requires Valid() && k < |nodes| && nodes[k] == timer && expire >= timer.expire
      modifies this`head, this`tail, this`nodes, this`items, nodes`next, nodes`prev, timer`expire
      ensures Valid() && items == Insert(Without(old(items), k), timer, expire)
      ensures timer.expire == expire && rest == old(nodes)[..k] + old(nodes)[k + 1..]
      ensures p <= |rest| && nodes == rest[..p] + [timer] + rest[p..]
      ensures forall i :: 0 <= i < p ==> rest[i].expire <= expire
      ensures forall i :: p <= i < |rest| ==> rest[i].expire > expire
    {
      hide Distinct, Sorted, Insert, Without, Adjusted, Dates, InStep;
      rest := nodes[..k] + nodes[k + 1..];
      Others(k, rest);
      ghost var others := Without(items, k);
      ItemFacts(k);
      RaisedAdjusts(items, k, expire);
      Redate(timer, expire, k);
      AdjustTimer(timer, k);
      AllInStep();
      p := NodesInserted(rest, others, timer, expire, nodes, items);
    }

    /** The other nodes next to the other items. */
    lemma Others(k: nat, rest: seq<UtilTimer>)
      requires Valid() && k < |nodes| && rest == nodes[..k] + nodes[k + 1..]
      ensures |items| == |nodes| && |Without(items, k)| == |rest|
      ensures InStep(rest, Without(items, k)) && Sorted(Without(items, k))
      ensures forall i :: 0 <= i < |rest| ==> rest[i] != nodes[k] && Without(items, k)[i].expire == rest[i].expire
    {
      RemoveSorted(items, k);
      hide Sorted;
      var others := Without(items, k);
      assert forall i :: 0 <= i < |rest| ==> others[i] == items[if i < k then i else i + 1];
      assert forall i :: 0 <= i < |rest| ==> rest[i] == nodes[if i < k then i else i + 1];
    }

    lemma AllInStep()
      requires Valid()
      ensures InStep(nodes, items) && forall i :: 0 <= i < |nodes| ==> items[i].expire == nodes[i].expire
    {
    }

    lemma ItemFacts(k: nat)
      requires Valid() && k < |nodes|
      ensures |items| == |nodes| && items[k] == Item(nodes[k], nodes[k].expire) && Sorted(items)
    {
    }

    /** The new deadline is written before the list is put in order again. */
    method Redate(timer: UtilTimer, expire: int, ghost k: nat)
      requires Valid() && k < |nodes| && nodes[k] == timer
      modifies this`items, timer`expire
      ensures Linked() && Dates(nodes, items) && timer.expire == expire
      ensures k < |items| == |old(items)| && old(items)[k].id == timer
      ensures items == old(items)[k := Item(timer, expire)]
    {
      hide Sorted;
      timer.expire := expire;
      items := items[k := Item(timer, expire)];
    }

    /** The caller passes null or a timer of this list. */
    method DelTimer(timer: UtilTimer?, ghost k: nat)
      requires Valid()
      requires timer != null ==> k < |nodes| && nodes[k] == timer
      modifies this`head, this`tail, this`nodes, this`items, nodes`next, nodes`prev
      ensures Valid()
      ensures items == if timer == null then old(items) else Without(old(items), k)
      ensures nodes == if timer == null then old(nodes) else old(nodes)[..k] + old(nodes)[k + 1..]
    {
      if timer == null {
        return;
      }
      RemoveSorted(items, k);
      UnlinkAny(timer, k);
      Drop(k);
    }

    /** Takes a node out of the chain: the only one, the head, the tail or an inner one. */
    method UnlinkAny(timer: UtilTimer, ghost k: nat)
      requires Linked() && k < |nodes| && nodes[k] == timer
      modifies this`head, this`tail, nodes`next, nodes`prev
      ensures Chain(Without(nodes, k))
      ensures |nodes| == 1 ==> head == null
      ensures |nodes| > 1 ==> head == (if k == 0 then nodes[1] else nodes[0])
      ensures |nodes| > 1 ==> tail == (if k == |nodes| - 1 then nodes[|nodes| - 2] else nodes[|nodes| - 1])
    {
      hide Distinct, Chain, Without;
      ghost var pos := Positions(nodes);
      assert pos[nodes[0]] == 0 && pos[nodes[k]] == k && pos[nodes[|nodes| - 1]] == |nodes| - 1;
      WithoutEnds(nodes);
      if timer == head && timer == tail {
        head, tail := null, null;
      } else if timer == head {
        UnlinkFirst(nodes, pos);
      } else if timer == tail {
        UnlinkLast(nodes, pos);
      } else {
        UnlinkMiddle(timer, nodes, pos, k);
      }
    }

    /** Moves the head on past an expired node. */
    method PopFirst(tmp: UtilTimer, ghost list: seq<UtilTimer>, ghost pos: map<UtilTimer, int>)
      requires Chain(list) && Indexed(list, pos) && list != [] && tmp == list[0]
      modifies this`head, list`prev
      ensures Chain(list[1..]) && head == At(list, 1)
    {
      head := tmp.next;
      if head != null {
        head.prev := null;
      }
    }

    /** Fires and removes every leading timer due at `cur`. */
    method Tick(cur: int) returns (ghost n: nat)
      requires Valid()
      modifies this`head, this`nodes, this`items, this`fired, nodes`prev
      ensures Valid()
      ensures items == old(items)[UpTo(old(items), cur)..]
      ensures fired == old(fired) + old(nodes)[..UpTo(old(items), cur)]
      ensures n <= |old(nodes)| && nodes == old(nodes)[n..] && fired == old(fired) + old(nodes)[..n]
      ensures forall i :: 0 <= i < n ==> old(nodes)[i].expire <= cur
      ensures forall i :: n <= i < |old(nodes)| ==> old(nodes)[i].expire > cur
    {
      hide Distinct, Sorted, UpTo, Linked, Dates;
      n := 0;
      AllInStep();
      HeadFacts();
      if head != null {
        var tmp := head;
        while tmp != null
          invariant n <= |old(nodes)| == |old(items)| && nodes == old(nodes)[n..] && items == old(items)[n..]
          invariant Valid() && tmp == head
          invariant n > 0 ==> old(items)[n - 1].expire <= cur
          invariant fired == old(fired) + old(nodes)[..n]
          decreases |nodes|
        {
          HeadFacts();
          if cur < tmp.expire {
            break;
          }
          fired := fired + [tmp];
          PopOne(tmp);
          tmp := head;
          n := n + 1;
        }
        HeadFacts();
      }
      UpToIs(old(items), cur, n);
      UpToSplits(old(items), cur);
    }

    lemma HeadFacts()
      requires Valid()
      ensures |items| == |nodes| && head == At(nodes, 0) && (head != null ==> items[0].expire == head.expire)
    {
    }

    method PopOne(tmp: UtilTimer)
      requires Valid() && tmp == head
      modifies this`head, this`nodes, this`items, nodes`prev
      ensures Valid() && old(nodes) != [] && nodes == old(nodes)[1..] && items == old(items)[1..]
    {
      hide Distinct, Sorted, Dates, Chain, Without;
      HeadFacts();
      ghost var pos := Positions(nodes);
      ItemFacts(0);
      RemoveSorted(items, 0);
      WithoutFirst(nodes);
      WithoutFirst(items);
      PopFirst(tmp, nodes, pos);
      Drop(0);
    }
  }
}

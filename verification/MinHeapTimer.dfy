/** timer/min_heap_timer.h: a binary min-heap of timers with back-pointers and lazy deletion. */
module MinHeapTimer {
  import opened Lists
  import opened TimerSpec
  import opened HeapMath

  class HeapTimer {
    var expire: int
    var callback: bool // whether `cb_func` is non-null
    var user: int      // the connection `user_data` points to
    var index: int

    /** Only `expire` is initialised; the caller sets the rest. `now` is the clock reading. */
    constructor (now: int, delay: int)
      ensures expire == now + delay
    {
      expire := now + delay;
    }
  }

  class TimeHeap {
    var arr: array<HeapTimer?>
    var capacity: int
    var curSize: int
    ghost var timers: set<HeapTimer>         // the timers stored in arr[..curSize]
    ghost var entries: map<HeapTimer, Entry> // their deadlines and callbacks
    ghost var keys: seq<int>                 // the deadlines in array order
    ghost var fired: seq<HeapTimer>          // every callback run so far, in order
    ghost var shifts: nat                    // how many times a timer moved to another position

    /** The array holds exactly `timers`, each knowing its own position. */
    ghost predicate Linked()
      reads `arr, `capacity, `curSize, `timers, `keys, arr, timers`index, timers`expire
    {
      && arr.Length == capacity
      && 0 <= curSize <= capacity
      && |keys| == curSize
      && (forall i :: 0 <= i < curSize ==>
            arr[i] != null && arr[i] in timers && arr[i].index == i && arr[i].expire == keys[i])
      && (forall t :: t in timers ==> 0 <= t.index < curSize && arr[t.index] == t)
    }

    /** `entries` records the deadline and callback of every scheduled timer. */
    ghost predicate Described()
      reads `timers, `entries, timers`expire, timers`callback
    {
      entries.Keys == timers && forall t :: t in timers ==> entries[t] == Entry(t.expire, t.callback)
    }

    ghost predicate Valid()
      reads `arr, `capacity, `curSize, `timers, `entries, `keys, arr
      reads timers`index, timers`expire, timers`callback
    {
      Linked() && Described() && OrderedFrom(keys, 0)
    }

    /** Like `Linked`, while `tmp` is held in a variable and position `hole` is stale. */
    ghost predicate Holding(hole: int, tmp: HeapTimer)
      reads `arr, `capacity, `curSize, `timers, `keys, arr, timers`index, timers`expire, tmp`expire
    {
      && arr.Length == capacity
      && 0 <= curSize <= capacity
      && |keys| == curSize
      && 0 <= hole < capacity
      && (hole < curSize ==> tmp in timers && keys[hole] == tmp.expire)
      && (forall i :: 0 <= i < curSize && i != hole ==>
            && arr[i] != null && arr[i] in timers && arr[i] != tmp
            && arr[i].index == i && arr[i].expire == keys[i])
      && (forall t :: t in timers && t != tmp ==> 0 <= t.index < curSize && t.index != hole && arr[t.index] == t)
    }

    lemma TimersAre()
      requires Valid()
      ensures entries.Keys == timers && forall t :: t in timers ==> entries[t] == Entry(t.expire, t.callback)
      ensures Empty() <==> entries == map[]
    {
      if Empty() {
        assert timers == {};
      } else {
        assert arr[0] in entries;
      }
    }

    constructor (cap: int)
      requires cap >= 0
      ensures Valid() && fresh(arr) && capacity == cap == arr.Length
      ensures entries == map[] && fired == [] && curSize == 0 && shifts == 0
    {
      capacity, curSize := cap, 0;
      arr := new HeapTimer?[cap](_ => null);
      timers, entries, keys, fired, shifts := {}, map[], [], [], 0;
    }

    predicate Empty()
      reads this
    {
      curSize == 0
    }

    /** The earliest timer, deleted or not. */
    method Top() returns (t: HeapTimer?)
      requires Valid()
      ensures t == null <==> entries == map[]
      ensures t != null ==> t in entries && forall u :: u in entries ==> entries[t].expire <= entries[u].expire
    {
      if Empty() {
        return null;
      }
      RootIsMin();
      return arr[0];
    }

    lemma RootIsMin()
      requires Valid() && curSize > 0
      ensures arr[0] != null && arr[0] in entries && entries[arr[0]] == Entry(arr[0].expire, arr[0].callback)
      ensures forall t :: t in entries ==> entries[arr[0]].expire <= entries[t].expire
    {
      forall t | t in timers
        ensures arr[0].expire <= t.expire
      {
        RootLeast(keys, t.index);
      }
    }

    /** What the array holds next to the stale position. */
    lemma KeyAt(i: int, hole: int, tmp: HeapTimer)
      requires Holding(hole, tmp) && 0 <= i < curSize && i != hole
      ensures i < arr.Length && arr[i] != null && arr[i].expire == keys[i]
    {
    }

    /** The stale position moves from `hole` to `from`, whose timer takes the old one. */
    method Shift(from: int, hole: int, ghost tmp: HeapTimer)
      requires Holding(hole, tmp) && hole < curSize
      requires 0 <= from < curSize && from != hole
      modifies this`keys, this`shifts, arr, timers`index
      ensures Holding(from, tmp)
      ensures keys == Swapped(old(keys), hole, from) && shifts == old(shifts) + 1
    {
      arr[hole] := arr[from];
      arr[hole].index := hole;
      keys := Swapped(keys, hole, from);
      shifts := shifts + 1;
    }

    /** The timer held in `tmp` fills the stale position. */
    method Settle(hole: int, tmp: HeapTimer)
      requires Holding(hole, tmp)
      requires hole < curSize || tmp !in timers
      modifies arr, tmp`index
      ensures Linked()
    {
      arr[hole] := tmp;
      arr[hole].index := hole;
    }

    /** The earlier child of `hole`, the left one on a tie. */
    method EarlierChild(hole: int, ghost tmp: HeapTimer) returns (child: int)
      requires Holding(hole, tmp) && 2 * hole + 1 < curSize
      ensures |keys| == curSize && 2 * hole + 1 <= child <= 2 * hole + 2 && child < curSize
      ensures child < arr.Length && arr[child] != null && arr[child].expire == keys[child]
      ensures keys[child] <= keys[2 * hole + 1] && (2 * hole + 2 < curSize ==> keys[child] <= keys[2 * hole + 2])
    {
      child := hole * 2 + 1;
      if child < curSize - 1 && arr[child + 1].expire < arr[child].expire {
        child := child + 1;
      }
    }

    /** Moves the timer at `hole` down until neither child is earlier. An emptied heap may be
        passed with hole 0, as pop_timer does. */
    method PercolateDown(hole: int, ghost lo: int)
      requires Linked()
      requires 0 <= lo <= hole
      requires hole < curSize || (hole == 0 < capacity && arr[0] != null && timers == {})
      requires OrderedExceptBelow(keys, lo, hole)
      modifies this`keys, this`shifts, arr, timers`index, {arr[hole]}`index
      ensures Linked() && OrderedFrom(keys, lo)
      ensures shifts <= old(shifts) + Height(hole, curSize)
    {
      var tmp := arr[hole];
      assert Holding(hole, tmp);
      SiftDown(hole, tmp, lo);
    }

    /** The loop of percolate_down, with the moving timer already in `tmp`. */
    method SiftDown(hole: int, tmp: HeapTimer, ghost lo: int)
      requires Holding(hole, tmp) && |keys| == curSize
      requires 0 <= lo <= hole
      requires if hole < curSize then keys[hole] == tmp.expire else hole == curSize == 0 && tmp !in timers
      requires OrderedExceptBelow(keys, lo, hole)
      modifies this`keys, this`shifts, arr, timers`index, tmp`index
      ensures Linked() && OrderedFrom(keys, lo)
      ensures shifts <= old(shifts) + Height(hole, curSize)
    {
      hide Linked, Holding, OrderedExceptBelow, OrderedFrom, Height;
      var h, child := hole, 0;
      while h * 2 + 1 <= curSize - 1
        invariant lo <= h && (h < curSize || h == curSize == 0)
        invariant Holding(h, tmp) && |keys| == curSize
        invariant h < curSize ==> keys[h] == tmp.expire
        invariant OrderedExceptBelow(keys, lo, h)
        invariant shifts + Height(h, curSize) <= old(shifts) + Height(hole, curSize)
        decreases curSize - h
      {
        child := EarlierChild(h, tmp);
        if arr[child].expire < tmp.expire {
          StepDown(keys, lo, h, child);
          HeightDrops(h, child, curSize);
          Shift(child, h, tmp);
          h := child;
        } else {
          break;
        }
      }
      StopDown(keys, lo, h);
      Settle(h, tmp);
    }

    lemma Stored(i: int)
      requires Linked() && 0 <= i < curSize
      ensures i < arr.Length && arr[i] != null && arr[i] in timers && arr[i].index == i && curSize <= capacity
    {
    }

    /** `tmp[i]->index = i`, which it already was. */
    method Reindex(timer: HeapTimer, i: int)
      requires Linked() && timer in timers && timer.index == i
      modifies timer`index
      ensures Linked()
    {
      timer.index := i;
    }

    /** Doubles the capacity, which makes room unless there was none at all. */
    method Resize()
      requires Linked()
      modifies this`arr, this`capacity, timers`index
      ensures Linked() && fresh(arr)
      ensures capacity == 2 * old(capacity) && (old(capacity) > 0 ==> curSize < capacity)
      ensures arr[..curSize] == old(arr[..curSize])
    {
      var tmp := new HeapTimer?[2 * capacity](_ => null);
      CopyInto(tmp);
      capacity := 2 * capacity;
      arr := tmp;
    }

    /** The loop of resize. */
    method CopyInto(tmp: array<HeapTimer?>)
      requires Linked() && tmp != arr && 0 <= curSize <= tmp.Length
      modifies tmp, timers`index
      ensures Linked() && forall k :: 0 <= k < curSize ==> tmp[k] == arr[k]
    {
      hide Linked;
      for i := 0 to curSize
        invariant Linked()
        invariant forall k :: 0 <= k < i ==> k < arr.Length && tmp[k] == arr[k]
      {
        Stored(i);
        tmp[i] := arr[i];
        Reindex(tmp[i], i);
      }
    }

    /** A heap that was made without any capacity cannot grow: doubling leaves no room. */
    method AddTimer(timer: HeapTimer?)
      requires Valid()
      requires timer !in timers
      requires timer != null ==> capacity > 0
      modifies this`arr, this`capacity, this`curSize, this`timers, this`entries, this`keys, this`shifts
      modifies arr, timers`index, {timer}`index
      ensures Valid() && (arr == old(arr) || fresh(arr)) && capacity >= old(capacity)
      ensures timer == null ==> entries == old(entries)
      ensures timer != null ==> entries == old(entries)[timer := Entry(timer.expire, timer.callback)]
    {
      hide Linked, Described, Holding, OrderedFrom, OrderedExceptAbove;
      if timer == null {
        return;
      }
      if curSize >= capacity {
        Resize();
      }
      var hole := OpenLast(timer);
      LastAbove(keys, old(keys));
      SiftUp(hole, timer);
    }

    /** `hole = cur_size++`: a new, still stale, last position for `timer`. */
    method OpenLast(timer: HeapTimer) returns (hole: int)
      requires Linked() && Described() && curSize < capacity && timer !in timers
      modifies this`curSize, this`timers, this`entries, this`keys
      ensures Holding(hole, timer) && Described()
      ensures hole == old(curSize) == curSize - 1
      ensures timers == old(timers) + {timer} && entries == old(entries)[timer := Entry(timer.expire, timer.callback)]
      ensures keys == old(keys) + [timer.expire] && |keys| == curSize
    {
      hole := curSize;
      curSize := curSize + 1;
      timers := timers + {timer};
      entries := entries[timer := Entry(timer.expire, timer.callback)];
      keys := keys + [timer.expire];
    }

    /** The loop of add_timer: `timer` moves up from the new last position. */
    method SiftUp(last: int, timer: HeapTimer)
      requires Holding(last, timer) && |keys| == curSize
      requires 0 <= last < curSize && timer in timers && keys[last] == timer.expire
      requires OrderedExceptAbove(keys, last)
      modifies this`keys, this`shifts, arr, timers`index
      ensures Linked() && OrderedFrom(keys, 0)
    {
      hide Linked, Holding, OrderedExceptAbove, OrderedFrom;
      var hole, parent := last, 0;
      while hole > 0
        invariant 0 <= hole < curSize == |keys|
        invariant Holding(hole, timer) && keys[hole] == timer.expire
        invariant OrderedExceptAbove(keys, hole)
      {
        parent := (hole - 1) / 2;
        KeyAt(parent, hole, timer);
        if arr[parent].expire <= timer.expire {
          break;
        }
        StepUp(keys, hole);
        Shift(parent, hole, timer);
        hole := parent;
      }
      StopUp(keys, hole);
      Settle(hole, timer);
    }

    /** Lazy deletion: only the callback is dropped, the timer stays in the heap. */
    method DelTimer(timer: HeapTimer?)
      requires Valid()
      modifies this`entries, {timer}`callback
      ensures Valid()
      ensures timer in old(entries) ==> entries == old(entries)[timer := Entry(timer.expire, false)]
      ensures timer !in old(entries) ==> entries == old(entries)
      ensures timer != null ==> !timer.callback
    {
      hide OrderedFrom;
      if timer == null {
        return;
      }
      timer.callback := false;
      if timer in entries {
        entries := entries[timer := Entry(timer.expire, false)];
      }
    }

    /** How the driver (inactive_timer.cc, lines 214-216) puts a deadline off: it raises
        `expire` in place and percolates down from the stored index. */
    method Postpone(timer: HeapTimer, expire: int)
      requires Valid() && timer in timers && expire >= timer.expire
      modifies this`keys, this`entries, this`shifts, arr, timers`index, timer`expire
      ensures Valid()
      ensures entries == old(entries)[timer := Entry(expire, timer.callback)]
    {
      hide Linked, Described, OrderedFrom, OrderedExceptBelow, Height;
      Redate(timer, expire);
      Raised(old(keys), timer.index, expire);
      PercolateDown(timer.index, 0);
    }

    /** `timer->expire = cur + 3*DEFAULT_TIME`, before the order is restored. */
    method Redate(timer: HeapTimer, expire: int)
      requires Linked() && Described() && timer in timers
      modifies this`keys, this`entries, timer`expire
      ensures Linked() && Described() && timer.expire == expire
      ensures entries == old(entries)[timer := Entry(expire, timer.callback)]
      ensures 0 <= timer.index < curSize == |keys| && timer.index < arr.Length
      ensures |keys| == |old(keys)| && old(keys)[timer.index] == old(timer.expire)
      ensures keys == old(keys)[timer.index := expire]
    {
      timer.expire := expire;
      keys := keys[timer.index := expire];
      entries := entries[timer := Entry(expire, timer.callback)];
    }

    /** Removes the root. When the heap empties, the index of the removed timer is reset too. */
    method PopTimer()
      requires Valid()
      modifies this`curSize, this`timers, this`entries, this`keys, this`shifts, arr, timers`index
      ensures Valid()
      ensures timers <= old(timers)
      ensures old(curSize) == 0 ==> entries == old(entries) && curSize == 0
      ensures old(curSize) > 0 ==> entries == old(entries) - {old(arr[0])} && curSize == old(curSize) - 1
    {
      hide OrderedFrom, OrderedExceptBelow, Height, LastToRoot;
      if Empty() {
        return;
      }
      if arr[0] != null {
        RootReplaced(keys);
        ghost var root: HeapTimer := arr[0];
        LastReplacesRoot(root);
        entries := entries - {root};
        assert Described();
        PercolateDown(0, 0);
      }
    }

    /** `array[0] = array[--cur_size]; array[0]->index = 0` */
    method LastReplacesRoot(ghost root: HeapTimer)
      requires Linked() && curSize > 0 && arr[0] == root
      modifies this`curSize, this`timers, this`keys, arr, timers`index
      ensures Linked() && arr[0] != null && arr[0] in old(timers)
      ensures timers == old(timers) - {root}
      ensures keys == LastToRoot(old(keys)) && curSize == old(curSize) - 1
      ensures curSize > 0 ==> arr[..curSize] == old(arr[..curSize - 1])[0 := old(arr[curSize - 1])]
    {
      timers := timers - {root};
      keys := LastToRoot(keys);
      curSize := curSize - 1;
      arr[0] := arr[curSize];
      arr[0].index := 0;
    }

    /** Runs the root's callback, unless it was deleted. */
    method RunRoot() returns (ghost root: HeapTimer)
      requires Valid() && curSize > 0
      modifies this`fired
      ensures root == arr[0] && root in entries && entries[root].expire == root.expire
      ensures fired == old(fired) + (if entries[root].live then [root] else [])
      ensures forall t :: t in entries ==> entries[root].expire <= entries[t].expire
    {
      RootIsMin();
      root := arr[0];
      if arr[0].callback {
        fired := fired + [arr[0]];
      }
    }

    /** Pops every timer due at `cur`, running the callbacks that are still set. */
    method Tick(cur: int)
      requires Valid() && capacity > 0
      modifies this`curSize, this`timers, this`entries, this`keys, this`fired, this`shifts, arr, timers`index
      ensures Valid()
      ensures entries == Unexpired(old(entries), cur)
      ensures old(fired) <= fired
      ensures Fires(old(entries), cur, fired[|old(fired)|..])
      ensures forall t :: t in entries <==> t in old(entries) && old(entries)[t].expire > cur
      ensures forall t :: t in entries ==> entries[t] == old(entries)[t]
      ensures var ran := fired[|old(fired)|..];
        && (forall t :: t in ran <==> t in old(entries) && old(entries)[t].live && old(entries)[t].expire <= cur)
        && (forall i, j :: 0 <= i < j < |ran| ==>
              ran[i] != ran[j] && old(entries)[ran[i]].expire <= old(entries)[ran[j]].expire)
    {
      hide TickProgress, Unexpired, Fires, OrderedFrom, Described;
      var tmp := arr[0];
      ghost var ran: seq<HeapTimer> := [];
      TickBegins(entries, cur);
      assert arr.Length >= 1 && curSize >= 0;
      hide Linked;
      while !Empty()
        invariant Valid() && curSize >= 0
        invariant curSize > 0 ==> tmp == arr[0]
        invariant timers <= old(timers)
        invariant fired == old(fired) + ran
        invariant TickProgress(old(entries), entries, cur, ran)
        decreases curSize
      {
        if tmp == null {
          break;
        }
        if tmp.expire > cur {
          break;
        }
        ghost var root := RunRoot();
        TickPops(old(entries), entries, cur, ran, root);
        ran := ran + (if entries[root].live then [root] else []);
        PopTimer();
        tmp := arr[0];
      }
      NothingDue(cur, tmp);
      TickEnds(old(entries), entries, cur, ran);
      assert fired[|old(fired)|..] == ran;
      TickInPlain(old(entries), cur, entries, ran);
    }

    /** The root decides whether anything is due. */
    lemma NothingDue(cur: int, tmp: HeapTimer?)
      requires Valid()
      requires curSize == 0 || (tmp == arr[0] && (tmp == null || tmp.expire > cur))
      ensures forall t :: t in entries ==> entries[t].expire > cur
    {
      if curSize > 0 {
        RootIsMin();
      }
    }

    static ghost function Describe(ts: seq<HeapTimer>): map<HeapTimer, Entry>
      reads ts
    {
      map t | t in ts :: Entry(t.expire, t.callback)
    }

    /** The bulk constructor. The source throws when `size` exceeds `cap`: null here. */
    static method FromArray(init: array<HeapTimer>, size: int, cap: int) returns (heap: TimeHeap?)
      requires 0 <= size <= init.Length
      requires Distinct(init[..size])
      modifies (set t | t in init[..size])`index
      ensures heap == null <==> cap < size
      ensures heap != null ==> fresh(heap) && fresh(heap.arr) && heap.Valid()
      ensures heap != null ==> heap.entries == (map t | t in init[..size] :: Entry(t.expire, t.callback))
      ensures heap != null ==> heap.capacity == cap && heap.curSize == size && heap.fired == []
      ensures heap != null && size > 0 ==> heap.shifts < size
    {
      hide Distinct, TimeHeap.Linked, TimeHeap.Described, OrderedFrom;
      if cap < size {
        return null;
      }
      heap := new TimeHeap(cap);
      if size != 0 {
        heap.Fill(init, size);
        heap.Record(init[..size]);
        heap.Heapify();
      }
    }

    /** Copies the initial timers in, still unordered. */
    method Fill(init: array<HeapTimer>, size: int)
      requires 0 < size <= capacity == arr.Length && size <= init.Length
      requires Distinct(init[..size]) && arr as object != init as object
      modifies this`curSize, this`timers, this`keys, arr, (set t | t in init[..size])`index
      ensures curSize == size && Linked() && timers == set t | t in init[..size]
    {
      curSize := size;
      for i := 0 to size
        invariant curSize == size && forall k :: 0 <= k < i ==> arr[k] == init[k] && init[k].index == k
      {
        assert forall k :: 0 <= k < i ==> init[..size][k] == init[k];
        arr[i] := init[i];
        arr[i].index := i;
      }
      timers := set t | t in init[..size];
      keys := seq(size, i requires 0 <= i < size reads init, init[..size] => init[i].expire);
      assert forall k :: 0 <= k < size ==> init[..size][k] == init[k];
    }

    ghost method Record(ts: seq<HeapTimer>)
      requires timers == set t | t in ts
      modifies this`entries
      ensures Described() && entries == Describe(ts)
    {
      entries := Describe(ts);
    }

    /** One inner position, once everything below it is in order. */
    method HeapifyAt(i: int)
      requires Linked() && Described() && 0 <= i < curSize && OrderedFrom(keys, i + 1)
      modifies this`keys, this`shifts, arr, timers`index
      ensures Linked() && Described() && OrderedFrom(keys, i)
      ensures shifts + HeightSum(i, curSize) <= old(shifts) + HeightSum(i + 1, curSize)
    {
      hide Linked, Described, OrderedFrom, OrderedExceptBelow, Height, HeightSum;
      Stored(i);
      OneLevelUp(keys, i, curSize);
      PercolateDown(i, i);
    }

    lemma LeavesOrdered()
      requires Linked() && curSize > 0
      ensures OrderedFrom(keys, (curSize - 1) / 2 + 1)
    {
      NothingBelow(keys, (curSize - 1) / 2 + 1);
    }

    /** The bottom-up pass over the inner positions. */
    method Heapify()
      requires Linked() && Described() && curSize > 0
      modifies this`keys, this`shifts, arr, timers`index
      ensures Valid() && shifts < old(shifts) + curSize
    {
      hide Linked, Described, OrderedFrom, HeightSum;
      var i := (curSize - 1) / 2;
      ghost var k := i + 1;
      LeavesOrdered();
      HeightSumBound(k, curSize);
      while i >= 0
        invariant -1 <= i < k && i < curSize
        invariant Linked() && Described() && OrderedFrom(keys, i + 1)
        invariant shifts + HeightSum(i + 1, curSize) <= old(shifts) + HeightSum(k, curSize)
      {
        HeapifyAt(i);
        i := i - 1;
      }
    }
  }
}

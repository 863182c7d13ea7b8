/**
 timer/inactive_timer.cc: the event loop that closes idle connections, run on the min-heap.
 Each method is one branch of the loop; `st` is the state it leaves in `ServerSpec`.
 */
module InactiveServer {
  import opened TimerSpec
  import opened Wrappers
  import opened MinHeapTimer
  import opened ServerSpec

  datatype Signal = SIGALRM | SIGTERM

  /** The program's tables and effects agree with the state: users[] for every open descriptor,
      `user_data` for every timer made so far, and the descriptors closed, in order. */
  ghost predicate Wired(users: map<int, HeapTimer>, closed: seq<int>, s: Server<HeapTimer>)
    reads s.owner.Keys`user
  {
    && (forall fd :: fd in s.conn ==> fd in users && users[fd] == s.conn[fd])
    && (forall t :: t in s.owner ==> t.user == s.owner[t])
    && |closed| == |s.closings|
    && (forall i :: 0 <= i < |closed| ==> s.closings[i].timer in s.owner && closed[i] == s.owner[s.closings[i].timer])
  }

  lemma AcceptWired(users: map<int, HeapTimer>, closed: seq<int>, s: Server<HeapTimer>, fd: int, timer: HeapTimer, at: int)
    requires Wired(users, closed, s) && timer.user == fd && timer !in s.owner
    ensures Wired(users[fd := timer], closed, Effect(s, Accept(fd, timer, at)))
    ensures var e := Effect(s, Accept(fd, timer, at));
      e.pending == s.pending[timer := Entry(at + IDLE_LIMIT, true)] && e.timeout == s.timeout && e.armed == s.armed
  {
  }

  lemma DataWired(users: map<int, HeapTimer>, closed: seq<int>, s: Server<HeapTimer>, fd: int, at: int)
    requires Wired(users, closed, s) && Inv(s) && fd in s.conn
    ensures fd in users && users[fd] in s.pending && s.pending[users[fd]].live
    ensures s.pending[users[fd]].expire <= s.now + IDLE_LIMIT
    ensures Wired(users, closed, Effect(s, Data(fd, at)))
    ensures Wired(users, closed + [fd], Effect(s, Close(fd, at)))
    ensures var e := Effect(s, Data(fd, at));
      e.pending == s.pending[users[fd] := Entry(at + IDLE_LIMIT, true)] && e.timeout == s.timeout && e.armed == s.armed
    ensures var e := Effect(s, Close(fd, at));
      && e.pending == s.pending[users[fd] := Entry(s.pending[users[fd]].expire, false)]
      && e.timeout == s.timeout && e.armed == s.armed
  {
  }

  /** The descriptors a handler closes, in the order of its callbacks. */
  ghost function Users(ran: seq<HeapTimer>): seq<int>
    reads ran
  {
    seq(|ran|, i requires 0 <= i < |ran| reads ran => ran[i].user)
  }

  lemma HandleWired(users: map<int, HeapTimer>, closed: seq<int>, s: Server<HeapTimer>, cur: int, cur2: int, ran: seq<HeapTimer>)
    requires Wired(users, closed, s) && Inv(s) && Possible(s, Handle(cur, cur2, ran))
    ensures Wired(users, closed + Users(ran), Effect(s, Handle(cur, cur2, ran)))
  {
    hide Inv, Owned, ClosedOnce, Fires, Unexpired;
    var n, s' := |closed|, Effect(s, Handle(cur, cur2, ran));
    assert forall u :: u in ran ==> u in s.owner by {
      HandleRan(s, cur, cur2, ran);
    }
    forall i | 0 <= i < n + |ran|
      ensures s'.closings[i].timer in s.owner && (closed + Users(ran))[i] == s.owner[s'.closings[i].timer]
    {
      if i >= n {
        assert s'.closings[i].timer == ran[i - n] && ran[i - n] in ran;
      }
    }
  }

  lemma HandleRan(s: Server<HeapTimer>, cur: int, cur2: int, ran: seq<HeapTimer>)
    requires Inv(s) && Possible(s, Handle(cur, cur2, ran))
    ensures forall u :: u in ran ==> u in s.owner
  {
    HandleOwned(s, cur, cur2, ran);
  }

  class Loop {
    var heap: TimeHeap
    var users: map<int, HeapTimer> // users[fd].timer, never reset when fd is closed
    var timeout: bool
    var stopServer: bool
    var armed: Option<int>         // the kernel's alarm for this process
    ghost var closed: seq<int>     // the descriptors cb_func has closed so far
    ghost var st: Server<HeapTimer>

    ghost predicate Valid()
      reads this, heap, heap.arr, heap.timers`index, heap.timers`expire, heap.timers`callback, st.owner.Keys`user
    {
      && heap.Valid() && heap.capacity > 0
      && Inv(st)
      && st.pending == heap.entries
      && st.timeout == timeout
      && st.armed == armed
      && Wired(users, closed, st)
    }

    constructor (start: int)
      ensures Valid() && fresh(heap) && fresh(heap.arr) && heap.capacity == 20 && st == Initial(start)
      ensures armed == Some(start + 1) && heap.entries == map[] && users == map[] && closed == []
      ensures !timeout && !stopServer
    {
      heap := new TimeHeap(20);
      users, timeout, stopServer := map[], false, false;
      armed := Alarm(start, TIMESLOT);
      st, closed := Initial(start), [];
    }

    /** What the loop's state means once the code of event `ev` has run. */
    ghost method Record(ev: Event<HeapTimer>)
      requires heap.Valid() && heap.capacity > 0 && Inv(st) && Possible(st, ev) && !ev.Handle?
      requires var e := Effect(st, ev);
        e.pending == heap.entries && e.timeout == timeout && e.armed == armed && Wired(users, closed, e)
      modifies this`st
      ensures Valid() && Next(old(st), ev, st) && st == Effect(old(st), ev)
    {
      hide Inv, Wired, TimeHeap.Valid;
      var was := st;
      st := Effect(st, ev);
      InvKept(was, ev, st);
    }

    /** The branch for the listening socket: `connfd` is what accept returned at time `now`. */
    method Accept(connfd: int, now: int) returns (timer: HeapTimer)
      requires Valid() && connfd !in st.conn && st.now <= now
      modifies this`users, this`st, heap, heap.arr, heap.timers`index
      ensures Valid() && fresh(timer) && (heap.arr == old(heap.arr) || fresh(heap.arr))
      ensures Next(old(st), Event.Accept(connfd, timer, now), st)
      ensures heap.entries == old(heap.entries)[timer := Entry(now + 15, true)] && heap.fired == old(heap.fired)
      ensures users == old(users)[connfd := timer] && timer.user == connfd
    {
      hide Inv, Next, Wired, TimeHeap.Valid;
      timer := MakeTimer(connfd, now);
      assert timer !in st.owner && timer !in heap.timers;
      File(connfd, timer, now);
    }

    /** `new heap_timer(3*DEFAULT_TIME)`, with its user data and callback. */
    static method MakeTimer(connfd: int, now: int) returns (timer: HeapTimer)
      ensures fresh(timer) && timer.expire == now + 15 && timer.user == connfd && timer.callback
    {
      timer := new HeapTimer(now, IDLE_LIMIT);
      timer.user := connfd;
      timer.callback := true;
    }

    /** The new connection's timer goes into the table and the heap. */
    method File(connfd: int, timer: HeapTimer, now: int)
      requires Valid() && connfd !in st.conn && st.now <= now
      requires timer !in st.owner && timer !in heap.timers
      requires timer.expire == now + 15 && timer.user == connfd && timer.callback
      modifies this`users, this`st, heap, heap.arr, heap.timers`index, timer`index
      ensures Valid() && (heap.arr == old(heap.arr) || fresh(heap.arr))
      ensures Next(old(st), Event.Accept(connfd, timer, now), st)
      ensures heap.entries == old(heap.entries)[timer := Entry(now + 15, true)] && heap.fired == old(heap.fired)
      ensures users == old(users)[connfd := timer]
    {
      hide Inv, Next, Wired, TimeHeap.Valid;
      AcceptWired(users, closed, st, connfd, timer, now);
      users := users[connfd := timer];
      heap.AddTimer(timer);
      Record(Event.Accept(connfd, timer, now));
    }

    /** The branch for a readable client: `ret` is what recv returned, at time `now`. */
    method Readable(sockfd: int, ret: int, again: bool, now: int)
      requires Valid() && sockfd in st.conn && st.now <= now
      modifies this`st, this`closed, heap, heap.arr, heap.timers`index, heap.timers`expire, heap.timers`callback
      ensures Valid() && heap.arr == old(heap.arr)
      ensures Next(old(st), if ret > 0 then Data(sockfd, now) else if ret < 0 && again then NoData(sockfd) else Close(sockfd, now), st)
      ensures heap.fired == old(heap.fired)
      ensures ret < 0 && again ==> st == old(st) && heap.entries == old(heap.entries) && closed == old(closed)
      ensures sockfd in users && users[sockfd] == old(st).conn[sockfd] && users[sockfd] in old(heap.entries)
      ensures ret > 0 ==>
        && closed == old(closed)
        && heap.entries == old(heap.entries)[users[sockfd] := Entry(now + 15, true)]
      ensures ret == 0 || (ret < 0 && !again) ==>
        && closed == old(closed) + [sockfd] && sockfd !in st.conn
        && heap.entries == old(heap.entries)[users[sockfd] := Entry(old(heap.entries)[users[sockfd]].expire, false)]
    {
      TimerOf(sockfd);
      hide Inv, Wired, Next, TimeHeap.Valid;
      if ret < 0 {
        if !again {
          Drop(sockfd, now);
        } else {
          Record(NoData(sockfd));
        }
      } else if ret == 0 {
        Drop(sockfd, now);
      } else {
        Touch(sockfd, now);
      }
    }

    /** An open descriptor's entry in the table is the timer it owns. */
    lemma TimerOf(sockfd: int)
      requires Valid() && sockfd in st.conn
      ensures sockfd in users && users[sockfd] == st.conn[sockfd] && users[sockfd] in heap.entries
      ensures st == Effect(st, NoData(sockfd))
    {
      DataWired(users, closed, st, sockfd, st.now);
    }

    /** The close action, then the lazy deletion of the connection's timer. */
    method Drop(sockfd: int, now: int)
      requires Valid() && sockfd in st.conn && st.now <= now
      modifies this`st, this`closed, heap, heap.timers`callback
      ensures Valid() && heap.arr == old(heap.arr)
      ensures Next(old(st), Close(sockfd, now), st)
      ensures sockfd in users && users[sockfd] in old(heap.entries) && heap.fired == old(heap.fired)
      ensures closed == old(closed) + [sockfd] && sockfd !in st.conn
      ensures heap.entries == old(heap.entries)[users[sockfd] := Entry(old(heap.entries)[users[sockfd]].expire, false)]
    {
      hide Inv, Next, TimeHeap.Valid;
      DataWired(users, closed, st, sockfd, now);
      heap.TimersAre();
      var timer := if sockfd in users then users[sockfd] else null;
      CbFunc(sockfd);
      if timer != null {
        heap.DelTimer(timer);
      }
      Record(Close(sockfd, now));
    }

    /** Data arrived: the connection's deadline is put off. */
    method Touch(sockfd: int, now: int)
      requires Valid() && sockfd in st.conn && st.now <= now
      modifies this`st, heap, heap.arr, heap.timers`index, heap.timers`expire
      ensures Valid() && heap.arr == old(heap.arr)
      ensures Next(old(st), Data(sockfd, now), st)
      ensures sockfd in users && heap.fired == old(heap.fired)
      ensures heap.entries == old(heap.entries)[users[sockfd] := Entry(now + 15, true)]
    {
      hide Inv, Next, TimeHeap.Valid;
      DataWired(users, closed, st, sockfd, now);
      heap.TimersAre();
      var timer := if sockfd in users then users[sockfd] else null;
      if timer != null {
        heap.Postpone(timer, now + IDLE_LIMIT);
      }
      Record(Data(sockfd, now));
    }

    /** The close action. */
    method CbFunc(user: int)
      modifies this`closed
      ensures closed == old(closed) + [user]
    {
      closed := closed + [user];
    }

    /** The branch for the signal pipe: one byte per signal. */
    method Signals(sigs: seq<Signal>)
      requires Valid() && (SIGALRM in sigs <==> st.queued)
      modifies this`timeout, this`stopServer, this`st
      ensures Valid()
      ensures if SIGALRM in sigs then Next(old(st), ReadSignals, st) else st == old(st)
      ensures stopServer <==> old(stopServer) || SIGTERM in sigs
      ensures timeout <==> old(timeout) || SIGALRM in sigs
    {
      hide Inv, TimeHeap.Valid;
      for i := 0 to |sigs|
        invariant timeout <==> old(timeout) || SIGALRM in sigs[..i]
        invariant stopServer <==> old(stopServer) || SIGTERM in sigs[..i]
        invariant st == old(st)
      {
        assert sigs[..i + 1] == sigs[..i] + [sigs[i]];
        match sigs[i]
        case SIGALRM => timeout := true;
        case SIGTERM => stopServer := true;
      }
      assert sigs[..|sigs|] == sigs;
      if st.queued {
        Record(ReadSignals);
      }
    }

    /** The kernel delivers SIGALRM: the signal handler puts it into the pipe. */
    method AlarmRings(at: int)
      requires Valid() && armed.Some? && st.now <= at && armed.value <= at
      modifies this`armed, this`st
      ensures Valid() && Next(old(st), Event.AlarmRings(at), st) && armed == None
    {
      hide Inv, TimeHeap.Valid;
      armed := None;
      Record(Event.AlarmRings(at));
    }

    /** timer_handler and the statements around it; `cur` and `cur2` are the clock readings of
        the tick and of the re-arming. */
    method TimerHandler(cur: int, cur2: int) returns (ghost ran: seq<HeapTimer>, ghost top: HeapTimer?)
      requires Valid() && timeout && st.now <= cur <= cur2
      modifies this`timeout, this`armed, this`closed, this`st, heap, heap.arr, heap.timers`index
      ensures Valid() && heap.arr == old(heap.arr)
      ensures heap.fired == old(heap.fired) + ran
      ensures Next(old(st), Handle(cur, cur2, ran), st) && !timeout
      ensures forall t :: t in heap.entries <==> t in old(heap.entries) && old(heap.entries)[t].expire > cur
      ensures forall t :: t in ran <==> t in old(heap.entries) && old(heap.entries)[t].live && old(heap.entries)[t].expire <= cur
      ensures |closed| == |old(closed)| + |ran| && old(closed) <= closed
      ensures forall i :: 0 <= i < |ran| ==> closed[|old(closed)| + i] == ran[i].user
      ensures top == null <==> heap.entries == map[]
      ensures top == null ==> armed == Some(cur2 + 1)
      ensures top != null ==>
        && top in heap.entries && (forall u :: u in heap.entries ==> heap.entries[top].expire <= heap.entries[u].expire)
        && (heap.entries[top].expire > cur2 ==> armed == Some(heap.entries[top].expire))
        && (heap.entries[top].expire == cur2 ==> armed == None)
        && (heap.entries[top].expire < cur2 ==> armed == Some(heap.entries[top].expire + 4294967296))
    {
      hide Inv, Wired, Fires, Unexpired, Rearmed, Users, TimeHeap.Valid;
      ran := RunTick(cur);
      HandleWired(users, old(closed), st, cur, cur2, ran);
      top := SetAlarm(cur2);
      timeout := false;
      RecordHandle(Handle(cur, cur2, ran));
    }

    /** `h_timer.tick()`: the callbacks it runs are close actions. */
    method RunTick(cur: int) returns (ghost ran: seq<HeapTimer>)
      requires heap.Valid() && heap.capacity > 0
      modifies this`closed, heap, heap.arr, heap.timers`index
      ensures heap.Valid() && heap.capacity > 0 && heap.arr == old(heap.arr)
      ensures heap.fired == old(heap.fired) + ran && closed == old(closed) + Users(ran)
      ensures heap.entries == Unexpired(old(heap.entries), cur) && Fires(old(heap.entries), cur, ran)
      ensures forall t :: t in heap.entries <==> t in old(heap.entries) && old(heap.entries)[t].expire > cur
      ensures forall t :: t in ran <==> t in old(heap.entries) && old(heap.entries)[t].live && old(heap.entries)[t].expire <= cur
      ensures |closed| == |old(closed)| + |ran| && old(closed) <= closed
      ensures forall i :: 0 <= i < |ran| ==> closed[|old(closed)| + i] == ran[i].user
    {
      hide Fires, Unexpired, TimeHeap.Valid;
      heap.Tick(cur);
      ran := heap.fired[|old(heap.fired)|..];
      closed := closed + Users(ran);
    }

    /** Re-arms the alarm for `top`, an earliest timer, deleted or not. */
    method SetAlarm(cur2: int) returns (ghost top: HeapTimer?)
      requires heap.Valid()
      modifies this`armed
      ensures Rearmed(heap.entries, cur2, armed)
      ensures top == null <==> heap.entries == map[]
      ensures top == null ==> armed == Some(cur2 + 1)
      ensures top != null ==>
        && top in heap.entries && (forall u :: u in heap.entries ==> heap.entries[top].expire <= heap.entries[u].expire)
        && (heap.entries[top].expire > cur2 ==> armed == Some(heap.entries[top].expire))
        && (heap.entries[top].expire == cur2 ==> armed == None)
        && (heap.entries[top].expire < cur2 ==> armed == Some(heap.entries[top].expire + 4294967296))
    {
      hide TimeHeap.Valid, Rearmed, Alarm;
      var timeslot: int;
      timeslot, top := TimeLeft(cur2);
      armed := Alarm(cur2, timeslot);
      if top != null {
        Rearms<HeapTimer>(heap.entries, cur2, top);
        RearmedFor<HeapTimer>(heap.entries, cur2, armed, top);
      } else {
        RearmsIdle<HeapTimer>(heap.entries, cur2);
        RearmedIdle<HeapTimer>(heap.entries, cur2, armed);
      }
    }

    /** The seconds until `top` is due, or one time slot when nothing is left. */
    method TimeLeft(cur2: int) returns (timeslot: int, ghost top: HeapTimer?)
      requires heap.Valid()
      ensures top == null <==> heap.entries == map[]
      ensures top == null ==> timeslot == 1
      ensures top != null ==>
        && top in heap.entries && (forall u :: u in heap.entries ==> heap.entries[top].expire <= heap.entries[u].expire)
        && timeslot == heap.entries[top].expire - cur2
    {
      hide TimeHeap.Valid;
      heap.TimersAre();
      timeslot, top := TIMESLOT, null;
      if !heap.Empty() {
        var first := heap.Top();
        timeslot, top := first.expire - cur2, first;
      }
    }

    ghost method RecordHandle(ev: Event<HeapTimer>)
      requires heap.Valid() && heap.capacity > 0 && Inv(st) && Possible(st, ev) && ev.Handle?
      requires heap.entries == Unexpired(st.pending, ev.cur) && Rearmed(heap.entries, ev.cur2, armed) && !timeout
      requires Wired(users, closed, Effect(st, ev))
      modifies this`st
      ensures Valid() && Next(old(st), ev, st)
    {
      hide Inv, Rearmed, TimeHeap.Valid;
      var was := st;
      st := Effect(st, ev).(armed := armed);
      InvKept(was, ev, st);
    }
  }
}

/**
 The event loop of timer/inactive_timer.cc as a state machine: accepts, client data, closing
 peers, alarms and the timer handler, over an abstract heap of timers. `T` is the identity
 of a timer; every accept makes a new one, so it also names the connection it was made for.
 */
module ServerSpec {
  import opened Lists
  import opened TimerSpec
  import opened Wrappers

  const IDLE_LIMIT := 15 // 3 * DEFAULT_TIME
  const TIMESLOT := 1

  datatype Cause = PeerClosed | Expired

  /** One run of the close action. */
  datatype Closing<T> = Closing(timer: T, cause: Cause, at: int)

  datatype Server<T> = Server(
    pending: map<T, Entry>,      // the heap
    owner: map<T, int>,          // the descriptor behind `user_data` of every timer made so far
    conn: map<int, T>,           // users[fd].timer of every open descriptor
    last: map<T, int>,           // when the timer's connection was accepted or last sent data
    closings: seq<Closing<T>>,
    armed: Option<int>,          // when the pending alarm(2) rings
    queued: bool,                // SIGALRM is in the pipe
    timeout: bool,
    now: int)

  datatype Event<T> =
    | Accept(fd: int, timer: T, at: int)
    | Data(fd: int, at: int)
    | Close(fd: int, at: int)        // recv returned 0 or failed
    | NoData(fd: int)                // recv failed with EAGAIN
    | AlarmRings(at: int)
    | ReadSignals
    | Handle(cur: int, cur2: int, ran: seq<T>) // the two clock readings and the callbacks run

  /** What the kernel guarantees, with a clock that does not go back. */
  ghost predicate Possible<T>(s: Server<T>, ev: Event<T>) {
    match ev
    case Accept(fd, t, at) => fd !in s.conn && t !in s.owner && s.now <= at
    case Data(fd, at) => fd in s.conn && s.now <= at
    case Close(fd, at) => fd in s.conn && s.now <= at
    case NoData(fd) => fd in s.conn
    case AlarmRings(at) => s.armed.Some? && s.now <= at && s.armed.value <= at
    case ReadSignals => s.queued
    case Handle(cur, cur2, ran) => s.timeout && s.now <= cur <= cur2 && Fires(s.pending, cur, ran)
  }

  /** alarm(2) takes an unsigned argument: zero cancels, a negative value wraps around. */
  function Alarm(cur: int, slot: int): Option<int> {
    if slot == 0 then None
    else if slot < 0 then Some(cur + slot + 0x1_0000_0000)
    else Some(cur + slot)
  }

  /** How the handler re-arms the alarm: for the earliest timer left, or the next time slot. */
  ghost predicate Rearmed<T>(pending: map<T, Entry>, cur2: int, armed: Option<int>) {
    if pending == map[] then armed == Alarm(cur2, TIMESLOT)
    else exists t :: t in pending && Earliest(pending, t) && armed == Alarm(cur2, pending[t].expire - cur2)
  }

  ghost predicate Earliest<T>(pending: map<T, Entry>, t: T)
    requires t in pending
  {
    forall u :: u in pending ==> pending[t].expire <= pending[u].expire
  }

  ghost function Expirings<T>(ran: seq<T>, at: int): (c: seq<Closing<T>>) {
    seq(|ran|, i requires 0 <= i < |ran| => Closing(ran[i], Expired, at))
  }

  /** Everything one event changes, but for the alarm the handler sets. */
  ghost function Effect<T>(s: Server<T>, ev: Event<T>): Server<T> {
    match ev
    case Accept(fd, t, at) =>
      s.(pending := s.pending[t := Entry(at + IDLE_LIMIT, true)], owner := s.owner[t := fd],
         conn := s.conn[fd := t], last := s.last[t := at], now := at)
    case Data(fd, at) =>
      if fd in s.conn && s.conn[fd] in s.pending then
        var t := s.conn[fd];
        s.(pending := s.pending[t := Entry(at + IDLE_LIMIT, s.pending[t].live)], last := s.last[t := at], now := at)
      else s.(now := at)
    case Close(fd, at) =>
      if fd in s.conn && s.conn[fd] in s.pending then
        var t := s.conn[fd];
        s.(pending := s.pending[t := Entry(s.pending[t].expire, false)], conn := s.conn - {fd},
           closings := s.closings + [Closing(t, PeerClosed, at)], now := at)
      else s.(now := at)
    case NoData(_) => s
    case AlarmRings(at) => s.(armed := None, queued := true, now := at)
    case ReadSignals => s.(queued := false, timeout := true)
    case Handle(cur, cur2, ran) =>
      s.(pending := Unexpired(s.pending, cur),
         conn := map fd | fd in s.conn && s.conn[fd] !in ran :: s.conn[fd],
         closings := s.closings + Expirings(ran, cur), timeout := false, now := cur2)
  }

  ghost predicate Next<T>(s: Server<T>, ev: Event<T>, s': Server<T>) {
    && Possible(s, ev)
    && s' == Effect(s, ev).(armed := s'.armed)
    && if ev.Handle? then Rearmed(s'.pending, ev.cur2, s'.armed) else s'.armed == Effect(s, ev).armed
  }

  ghost predicate Open<T>(s: Server<T>, t: T) {
    t in s.owner && s.owner[t] in s.conn && s.conn[s.owner[t]] == t
  }

  /** Every open connection owns exactly one live timer, due a fixed time after its last
      activity, and no two live timers share a connection. */
  ghost predicate Owned<T>(s: Server<T>) {
    && s.last.Keys == s.owner.Keys
    && (forall t :: t in s.last ==> s.last[t] <= s.now)
    && (forall fd :: fd in s.conn ==>
          var t := s.conn[fd];
          && t in s.owner && s.owner[t] == fd
          && t in s.pending && s.pending[t] == Entry(s.last[t] + IDLE_LIMIT, true))
    && (forall t :: t in s.pending ==>
          t in s.owner && s.pending[t].expire == s.last[t] + IDLE_LIMIT && (s.pending[t].live ==> Open(s, t)))
  }

  /** The close action ran once for every connection that is no longer open, never for an open
      one, and for an idle one only after its time was up. */
  ghost predicate ClosedOnce<T>(s: Server<T>) {
    && (forall i, j :: 0 <= i < j < |s.closings| ==> s.closings[i].timer != s.closings[j].timer)
    && (forall i :: 0 <= i < |s.closings| ==>
          var c := s.closings[i];
          && c.timer in s.last && c.timer in s.owner && !Open(s, c.timer)
          && (c.cause == Expired ==> c.at >= s.last[c.timer] + IDLE_LIMIT))
    && (forall t :: t in s.owner && !Open(s, t) ==> Closes(s.closings, t))
  }

  ghost predicate Closes<T>(closings: seq<Closing<T>>, t: T) {
    exists i :: 0 <= i < |closings| && closings[i].timer == t
  }

  ghost predicate Inv<T>(s: Server<T>) {
    Owned(s) && ClosedOnce(s)
  }

  ghost function Initial<T>(start: int): Server<T> {
    Server(map[], map[], map[], map[], [], Alarm(start, TIMESLOT), false, false, start)
  }

  lemma AcceptOwned<T>(s: Server<T>, fd: int, t: T, at: int)
    requires Owned(s) && Possible(s, Accept(fd, t, at))
    ensures Owned(Effect(s, Accept(fd, t, at)))
    ensures forall u :: Open(Effect(s, Accept(fd, t, at)), u) <==> Open(s, u) || u == t
  {
    assert s.conn[fd := t].Keys == s.conn.Keys + {fd};
  }

  lemma AcceptKeeps<T>(s: Server<T>, fd: int, t: T, at: int)
    requires Inv(s) && Possible(s, Accept(fd, t, at))
    ensures Inv(Effect(s, Accept(fd, t, at)))
  {
    AcceptOwned(s, fd, t, at);
    hide Open;
  }

  lemma DataKeeps<T>(s: Server<T>, fd: int, at: int)
    requires Inv(s) && Possible(s, Data(fd, at))
    ensures Inv(Effect(s, Data(fd, at)))
    ensures forall u :: u in s.pending && u != s.conn[fd] ==>
      u in Effect(s, Data(fd, at)).pending && Effect(s, Data(fd, at)).pending[u] == s.pending[u]
  {
    var s' := Effect(s, Data(fd, at));
    assert Open(s, s.conn[fd]);
    assert forall u :: Open(s', u) <==> Open(s, u);
  }

  lemma CloseOwned<T>(s: Server<T>, fd: int, at: int)
    requires Owned(s) && Possible(s, Close(fd, at))
    ensures Owned(Effect(s, Close(fd, at))) && Open(s, s.conn[fd])
    ensures forall u :: Open(Effect(s, Close(fd, at)), u) <==> Open(s, u) && u != s.conn[fd]
  {
    var t, s' := s.conn[fd], Effect(s, Close(fd, at));
    assert s.owner[t] == fd && Open(s, t);
    assert forall u :: Open(s', u) <==> Open(s, u) && u != t;
    assert forall u :: u in s'.pending && s'.pending[u].live ==> s.pending[u].live && Open(s, u) && u != t;
  }

  lemma OpenIsOwned<T>(s: Server<T>, u: T)
    requires Open(s, u)
    ensures u in s.owner
  {
  }

  /** Appending closings of timers just closed keeps the record exact. */
  lemma ClosingsGrow<T>(s: Server<T>, s': Server<T>, more: seq<Closing<T>>)
    requires ClosedOnce(s) && s'.closings == s.closings + more
    requires s'.owner == s.owner && s'.last == s.last && s.owner.Keys == s.last.Keys
    requires forall u :: Open(s', u) ==> Open(s, u)
    requires forall i, j :: 0 <= i < j < |more| ==> more[i].timer != more[j].timer
    requires forall i :: 0 <= i < |more| ==> Open(s, more[i].timer) && !Open(s', more[i].timer)
    requires forall i :: 0 <= i < |more| && more[i].cause == Expired ==> more[i].timer in s.last && more[i].at >= s.last[more[i].timer] + IDLE_LIMIT
    requires forall u :: Open(s, u) && !Open(s', u) ==> Closes(more, u)
    ensures ClosedOnce(s')
  {
    hide Open, Closes;
    forall i | 0 <= i < |more|
      ensures more[i].timer in s.owner
    {
      OpenIsOwned(s, more[i].timer);
    }
    var n := |s.closings|;
    assert forall i :: 0 <= i < n ==> s'.closings[i] == s.closings[i];
    assert forall i :: n <= i < |s'.closings| ==> s'.closings[i] == more[i - n] && Open(s, more[i - n].timer);
    forall u | u in s'.owner && !Open(s', u)
      ensures Closes(s'.closings, u)
    {
      ClosesEither(s.closings, more, u);
    }
  }

  lemma ClosesEither<T>(a: seq<Closing<T>>, b: seq<Closing<T>>, u: T)
    ensures Closes(a + b, u) <==> Closes(a, u) || Closes(b, u)
  {
    if Closes(a, u) {
      var i :| 0 <= i < |a| && a[i].timer == u;
      assert (a + b)[i].timer == u;
    }
    if Closes(b, u) {
      var i :| 0 <= i < |b| && b[i].timer == u;
      assert (a + b)[|a| + i].timer == u;
    }
  }

  lemma CloseKeeps<T>(s: Server<T>, fd: int, at: int)
    requires Inv(s) && Possible(s, Close(fd, at))
    ensures Inv(Effect(s, Close(fd, at)))
  {
    CloseOwned(s, fd, at);
    hide Open, ClosedOnce;
    var more := [Closing(s.conn[fd], PeerClosed, at)];
    assert more[0].timer == s.conn[fd];
    ClosingsGrow(s, Effect(s, Close(fd, at)), more);
  }

  lemma HandleOwned<T>(s: Server<T>, cur: int, cur2: int, ran: seq<T>)
    requires Owned(s) && Possible(s, Handle(cur, cur2, ran))
    ensures Owned(Effect(s, Handle(cur, cur2, ran)))
    ensures forall u :: u in ran ==> Open(s, u) && u in s.last && s.last[u] + IDLE_LIMIT <= cur
    ensures forall u :: Open(Effect(s, Handle(cur, cur2, ran)), u) <==> Open(s, u) && u !in ran
    ensures forall u :: Open(s, u) ==> (u in ran <==> u in s.last && s.last[u] + IDLE_LIMIT <= cur)
  {
    forall u | Open(s, u)
      ensures u in ran <==> u in s.last && s.last[u] + IDLE_LIMIT <= cur
    {
      var fd := s.owner[u];
      assert fd in s.conn && s.conn[fd] == u;
      assert u in s.pending && s.pending[u] == Entry(s.last[u] + IDLE_LIMIT, true);
    }
  }

  lemma HandleKeeps<T>(s: Server<T>, cur: int, cur2: int, ran: seq<T>)
    requires Inv(s) && Possible(s, Handle(cur, cur2, ran))
    ensures Inv(Effect(s, Handle(cur, cur2, ran)))
  {
    HandleOwned(s, cur, cur2, ran);
    hide Open, ClosedOnce, Owned, Fires;
    var more := Expirings(ran, cur);
    assert Distinct(ran) && s.owner.Keys == s.last.Keys by { HandleFacts(s, cur, cur2, ran); }
    forall u | u in ran
      ensures Closes(more, u)
    {
      var i :| 0 <= i < |ran| && ran[i] == u;
      assert more[i].timer == u;
    }
    ClosingsGrow(s, Effect(s, Handle(cur, cur2, ran)), more);
  }

  lemma HandleFacts<T>(s: Server<T>, cur: int, cur2: int, ran: seq<T>)
    requires Owned(s) && Possible(s, Handle(cur, cur2, ran))
    ensures Distinct(ran) && s.owner.Keys == s.last.Keys
  {
  }

  /** Every step of the loop keeps the invariant. */
  lemma InvKept<T>(s: Server<T>, ev: Event<T>, s': Server<T>)
    requires Inv(s) && Next(s, ev, s')
    ensures Inv(s')
  {
    match ev
    case Accept(fd, t, at) => AcceptKeeps(s, fd, t, at);
    case Data(fd, at) => DataKeeps(s, fd, at);
    case Close(fd, at) => CloseKeeps(s, fd, at);
    case NoData(_) =>
    case AlarmRings(_) => SameConnections(s, Effect(s, ev));
    case ReadSignals => SameConnections(s, Effect(s, ev));
    case Handle(cur, cur2, ran) => HandleKeeps(s, cur, cur2, ran);
    SameConnections(Effect(s, ev), s');
  }

  /** The alarm, the signal pipe, the flag and a later clock do not matter to `Inv`. */
  lemma SameConnections<T>(s: Server<T>, s': Server<T>)
    requires Inv(s) && s'.pending == s.pending && s'.owner == s.owner && s'.conn == s.conn
    requires s'.last == s.last && s'.closings == s.closings && s.now <= s'.now
    ensures Inv(s')
  {
    assert forall u :: Open(s', u) <==> Open(s, u);
  }

  ghost predicate Run<T>(ss: seq<Server<T>>, evs: seq<Event<T>>) {
    && |ss| == |evs| + 1
    && forall i :: 0 <= i < |evs| ==> Next(ss[i], evs[i], ss[i + 1])
  }

  /** Over every run: exactly one live timer per open connection, due a fixed time after its
      last activity, and every closed connection closed exactly once. */
  lemma {:induction false} RunKeepsInv<T>(start: int, ss: seq<Server<T>>, evs: seq<Event<T>>, n: nat)
    requires Run(ss, evs) && ss[0] == Initial(start) && n <= |evs|
    ensures Inv(ss[n])
  {
    if n > 0 {
      RunKeepsInv(start, ss, evs, n - 1);
      InvKept(ss[n - 1], evs[n - 1], ss[n]);
    }
  }

  /** What that means, connection by connection and close action by close action. */
  lemma ReachableInPlain<T>(start: int, ss: seq<Server<T>>, evs: seq<Event<T>>, n: nat)
    requires Run(ss, evs) && ss[0] == Initial(start) && n <= |evs|
    ensures forall fd :: fd in ss[n].conn ==>
      var t := ss[n].conn[fd];
      && t in ss[n].owner && ss[n].owner[t] == fd && t in ss[n].last
      && t in ss[n].pending && ss[n].pending[t] == Entry(ss[n].last[t] + 15, true)
    ensures forall t :: t in ss[n].pending && ss[n].pending[t].live ==>
      t in ss[n].owner && ss[n].owner[t] in ss[n].conn && ss[n].conn[ss[n].owner[t]] == t
    ensures forall i, j :: 0 <= i < j < |ss[n].closings| ==> ss[n].closings[i].timer != ss[n].closings[j].timer
    ensures forall i :: 0 <= i < |ss[n].closings| ==>
      var c := ss[n].closings[i];
      && c.timer in ss[n].owner && c.timer in ss[n].last
      && !(ss[n].owner[c.timer] in ss[n].conn && ss[n].conn[ss[n].owner[c.timer]] == c.timer)
      && (c.cause == Expired ==> c.at >= ss[n].last[c.timer] + 15)
    ensures forall t :: t in ss[n].owner && !(ss[n].owner[t] in ss[n].conn && ss[n].conn[ss[n].owner[t]] == t) ==>
      exists i :: 0 <= i < |ss[n].closings| && ss[n].closings[i].timer == t
  {
    RunKeepsInv(start, ss, evs, n);
    PlainInv(ss[n]);
    hide Inv;
  }

  lemma PlainInv<T>(s: Server<T>)
    requires Inv(s)
    ensures forall fd :: fd in s.conn ==>
      var t := s.conn[fd];
      && t in s.owner && s.owner[t] == fd && t in s.last
      && t in s.pending && s.pending[t] == Entry(s.last[t] + 15, true)
    ensures forall t :: t in s.pending && s.pending[t].live ==>
      t in s.owner && s.owner[t] in s.conn && s.conn[s.owner[t]] == t
    ensures forall i, j :: 0 <= i < j < |s.closings| ==> s.closings[i].timer != s.closings[j].timer
    ensures forall i :: 0 <= i < |s.closings| ==>
      var c := s.closings[i];
      && c.timer in s.owner && c.timer in s.last
      && !(s.owner[c.timer] in s.conn && s.conn[s.owner[c.timer]] == c.timer)
      && (c.cause == Expired ==> c.at >= s.last[c.timer] + 15)
    ensures forall t :: t in s.owner && !(s.owner[t] in s.conn && s.conn[s.owner[t]] == t) ==>
      exists i :: 0 <= i < |s.closings| && s.closings[i].timer == t
  {
    assert forall t :: t in s.owner ==> (Open(s, t) <==> s.owner[t] in s.conn && s.conn[s.owner[t]] == t);
    assert forall t :: Closes(s.closings, t) ==> exists i :: 0 <= i < |s.closings| && s.closings[i].timer == t;
  }

  /** The handler closes exactly the connections whose time is up at its first clock reading. */
  lemma HandlerClosesIdle<T>(s: Server<T>, cur: int, cur2: int, ran: seq<T>, s': Server<T>, fd: int)
    requires Inv(s) && Next(s, Handle(cur, cur2, ran), s') && fd in s.conn
    ensures fd in s'.conn <==> s.conn[fd] in s.last && s.last[s.conn[fd]] + IDLE_LIMIT > cur
  {
    assert Open(s, s.conn[fd]);
    HandleOwned(s, cur, cur2, ran);
  }

  /** A connection stops being open in two ways only: its peer closes, or a handler calls its
      timer. It starts to be in one: an accept. */
  lemma OnlyTwoWaysToClose<T>(s: Server<T>, ev: Event<T>, s': Server<T>)
    requires Inv(s) && Next(s, ev, s')
    ensures forall fd :: fd in s.conn ==>
      (fd in s'.conn && s'.conn[fd] == s.conn[fd] <==>
        !(ev.Close? && ev.fd == fd) && !(ev.Handle? && s.conn[fd] in ev.ran))
    ensures forall fd :: fd in s'.conn && fd !in s.conn ==> ev.Accept? && ev.fd == fd && ev.timer == s'.conn[fd]
    ensures ev.Accept? ==> ev.fd in s'.conn && s'.conn[ev.fd] == ev.timer
  {
    hide ClosedOnce, Fires, Unexpired, Rearmed, Expirings;
    match ev
    case Accept(_, _, _) =>
    case Data(_, _) =>
    case Close(_, _) =>
    case NoData(_) =>
    case AlarmRings(_) =>
    case ReadSignals =>
    case Handle(_, _, _) =>
  }

  /** Exactly these two events run close actions: one for the connection whose peer closed, and
      one for every timer the handler calls, in order. */
  lemma ClosingsMove<T>(s: Server<T>, ev: Event<T>, s': Server<T>)
    requires Inv(s) && Next(s, ev, s')
    ensures ev.Close? ==> s'.closings == s.closings + [Closing(s.conn[ev.fd], PeerClosed, ev.at)]
    ensures ev.Handle? ==> |s'.closings| == |s.closings| + |ev.ran| && s.closings <= s'.closings
    ensures ev.Handle? ==> forall i :: 0 <= i < |ev.ran| ==> s'.closings[|s.closings| + i] == Closing(ev.ran[i], Expired, ev.cur)
    ensures !ev.Close? && !ev.Handle? ==> s'.closings == s.closings
  {
    hide ClosedOnce, Fires, Unexpired, Rearmed;
  }

  /** What each event does to the timers in the heap, in numbers. */
  lemma TimersMove<T>(s: Server<T>, ev: Event<T>, s': Server<T>)
    requires Inv(s) && Next(s, ev, s')
    ensures ev.Accept? ==> s'.pending == s.pending[ev.timer := Entry(ev.at + 15, true)]
    ensures ev.Data? ==> s'.pending == s.pending[s.conn[ev.fd] := Entry(ev.at + 15, true)]
    ensures ev.Close? ==>
      && s.conn[ev.fd] in s.pending
      && s'.pending == s.pending[s.conn[ev.fd] := Entry(s.pending[s.conn[ev.fd]].expire, false)]
    ensures ev.NoData? ==> s' == s
    ensures ev.AlarmRings? || ev.ReadSignals? ==> s'.pending == s.pending
    ensures ev.Handle? ==> forall t :: t in s'.pending <==> t in s.pending && s.pending[t].expire > ev.cur
    ensures ev.Handle? ==> forall t :: t in s'.pending ==> s'.pending[t] == s.pending[t]
  {
  }

  /** Over every run an open connection's timer is due exactly 15 after the last event that
      accepted the connection or brought it data. */
  lemma {:induction false} DeadlineFromTrace<T>(start: int, ss: seq<Server<T>>, evs: seq<Event<T>>, n: nat, fd: int) returns (i: nat)
    requires Run(ss, evs) && ss[0] == Initial(start) && n <= |evs| && fd in ss[n].conn
    ensures i < n && (evs[i].Accept? || evs[i].Data?) && evs[i].fd == fd
    ensures ss[n].conn[fd] in ss[n].pending && ss[n].pending[ss[n].conn[fd]] == Entry(evs[i].at + 15, true)
    ensures forall j :: i < j < n ==> !((evs[j].Accept? || evs[j].Data? || evs[j].Close?) && evs[j].fd == fd)
    decreases n
  {
    hide Next, Inv, Initial;
    if n == 0 {
      NoneOpenAtFirst<T>(start);
      assert false;
    }
    var ev := evs[n - 1];
    RunKeepsInv(start, ss, evs, n - 1);
    RunKeepsInv(start, ss, evs, n);
    DeadlineStep(ss[n - 1], ev, ss[n], fd);
    if (ev.Accept? || ev.Data?) && ev.fd == fd {
      i := n - 1;
    } else {
      i := DeadlineFromTrace(start, ss, evs, n - 1, fd);
    }
  }

  lemma NoneOpenAtFirst<T>(start: int)
    ensures Initial<T>(start).conn == map[]
  {
  }

  lemma DeadlineStep<T>(s: Server<T>, ev: Event<T>, s': Server<T>, fd: int)
    requires Inv(s) && Inv(s') && Next(s, ev, s') && fd in s'.conn
    ensures s'.conn[fd] in s'.pending
    ensures (ev.Accept? || ev.Data?) && ev.fd == fd ==> s'.pending[s'.conn[fd]] == Entry(ev.at + 15, true)
    ensures !((ev.Accept? || ev.Data?) && ev.fd == fd) ==>
      && !(ev.Close? && ev.fd == fd)
      && fd in s.conn && s.conn[fd] == s'.conn[fd]
      && s.conn[fd] in s.pending && s'.pending[s.conn[fd]] == s.pending[s.conn[fd]]
  {
    OnlyTwoWaysToClose(s, ev, s');
    TimersMove(s, ev, s');
    hide Next;
  }

  /** The pending alarm rings no later than any timer is due. */
  ghost predicate AlarmCovers<T>(s: Server<T>) {
    Covers(s.pending, s.armed)
  }

  ghost predicate Covers<T>(pending: map<T, Entry>, armed: Option<int>) {
    armed.Some? && forall t :: t in pending ==> armed.value <= pending[t].expire
  }

  /** The re-armed alarm is early enough exactly when every deadline is still to come. */
  lemma RearmedCovers<T>(pending: map<T, Entry>, cur2: int, armed: Option<int>)
    requires Rearmed(pending, cur2, armed)
    ensures Covers(pending, armed) <==> forall t :: t in pending ==> pending[t].expire > cur2
  {
    if pending != map[] {
      var t :| t in pending && Earliest(pending, t) && armed == Alarm(cur2, pending[t].expire - cur2);
    }
  }

  /** Setting the alarm for an earliest timer re-arms it. */
  lemma Rearms<T>(pending: map<T, Entry>, cur2: int, t: T)
    requires t in pending && forall u :: u in pending ==> pending[t].expire <= pending[u].expire
    ensures Rearmed(pending, cur2, Alarm(cur2, pending[t].expire - cur2))
  {
    assert Earliest(pending, t);
  }

  lemma RearmsIdle<T>(pending: map<T, Entry>, cur2: int)
    requires pending == map[]
    ensures Rearmed(pending, cur2, Alarm(cur2, 1))
  {
  }

  /** How the handler re-arms the alarm, in numbers: for an earliest timer `t` ... */
  lemma RearmedFor<T>(pending: map<T, Entry>, cur2: int, armed: Option<int>, t: T)
    requires Rearmed(pending, cur2, armed)
    requires t in pending && forall u :: u in pending ==> pending[t].expire <= pending[u].expire
    ensures pending[t].expire > cur2 ==> armed == Some(pending[t].expire)
    ensures pending[t].expire == cur2 ==> armed == None
    ensures pending[t].expire < cur2 ==> armed == Some(pending[t].expire + 4294967296)
  {
    assert pending != map[];
    var w :| w in pending && Earliest(pending, w) && armed == Alarm(cur2, pending[w].expire - cur2);
    assert pending[w].expire == pending[t].expire;
  }

  /** ... and without any timer. */
  lemma RearmedIdle<T>(pending: map<T, Entry>, cur2: int, armed: Option<int>)
    requires Rearmed(pending, cur2, armed) && pending == map[]
    ensures armed == Some(cur2 + 1)
  {
  }

  /** No sleeping past a deadline: the handler is about to run, or the alarm is early enough. */
  ghost predicate Awake<T>(s: Server<T>) {
    s.timeout || s.queued || AlarmCovers(s)
  }

  /** The handler sets an early enough alarm exactly when no deadline passed between its two
      readings of the clock: a reading equal to the first deadline cancels the alarm, and a
      later one makes it ring after a wrap-around. */
  lemma HandlerAlarm<T>(s: Server<T>, cur: int, cur2: int, ran: seq<T>, s': Server<T>)
    requires Next(s, Handle(cur, cur2, ran), s')
    ensures AlarmCovers(s') <==> forall t :: t in s'.pending ==> s'.pending[t].expire > cur2
  {
    hide Rearmed, Effect, Possible, Covers;
    RearmedCovers(s'.pending, cur2, s'.armed);
  }

  /** With a clock that stands still inside the handler the alarm is always early enough. */
  lemma StillClockAlarm<T>(s: Server<T>, cur: int, ran: seq<T>, s': Server<T>)
    requires Next(s, Handle(cur, cur, ran), s')
    ensures AlarmCovers(s')
  {
    HandlerAlarm(s, cur, cur, ran, s');
  }

  /** The alarm stays within one idle limit of the clock, so new and postponed timers are not
      due before it; the flag and the pipe carry it until the handler runs. */
  ghost predicate AlarmInv<T>(s: Server<T>) {
    && Awake(s)
    && (s.armed.Some? ==> s.armed.value <= s.now + IDLE_LIMIT)
  }

  /** The handler's second clock reading comes before every deadline it leaves. */
  ghost predicate InTime<T>(s: Server<T>, ev: Event<T>) {
    ev.Handle? ==> forall t :: t in s.pending && s.pending[t].expire > ev.cur ==> s.pending[t].expire > ev.cur2
  }

  lemma AlarmInvKept<T>(s: Server<T>, ev: Event<T>, s': Server<T>)
    requires Inv(s) && AlarmInv(s) && Next(s, ev, s') && InTime(s, ev)
    ensures AlarmInv(s')
  {
    match ev
    case Accept(fd, t, at) =>
    case Data(fd, at) =>
    case Close(fd, at) =>
    case NoData(_) =>
    case AlarmRings(_) =>
    case ReadSignals =>
    case Handle(cur, cur2, ran) =>
      HandlerAlarm(s, cur, cur2, ran, s');
  }

  lemma StartsAwake<T>(start: int)
    ensures AlarmInv(Initial<T>(start))
  {
  }

  /** Over every run whose handlers read the clock in time the server never oversleeps. */
  lemma {:induction false} RunStaysAwake<T>(start: int, ss: seq<Server<T>>, evs: seq<Event<T>>, n: nat)
    requires Run(ss, evs) && ss[0] == Initial(start) && n <= |evs|
    requires forall i :: 0 <= i < |evs| ==> InTime(ss[i], evs[i])
    ensures AlarmInv(ss[n])
  {
    hide Inv, AlarmInv, Next, InTime, Initial;
    if n == 0 {
      StartsAwake<T>(start);
    } else {
      RunStaysAwake(start, ss, evs, n - 1);
      RunKeepsInv(start, ss, evs, n - 1);
      AlarmInvKept(ss[n - 1], evs[n - 1], ss[n]);
    }
  }

  /** An alarm is in one place at a time: set, in the pipe, or noted by the flag. */
  ghost predicate OneAlarm<T>(s: Server<T>) {
    && (s.queued ==> !s.timeout && s.armed.None?)
    && (s.timeout ==> !s.queued && s.armed.None?)
  }

  lemma {:induction false} RunHasOneAlarm<T>(start: int, ss: seq<Server<T>>, evs: seq<Event<T>>, n: nat)
    requires Run(ss, evs) && ss[0] == Initial(start) && n <= |evs|
    ensures OneAlarm(ss[n])
  {
    if n > 0 {
      RunHasOneAlarm(start, ss, evs, n - 1);
      assert Next(ss[n - 1], evs[n - 1], ss[n]);
    }
  }

  /** A handler whose second reading is too late leaves the server asleep past a deadline. */
  lemma LateHandlerSleeps<T>(s: Server<T>, ev: Event<T>, s': Server<T>)
    requires OneAlarm(s) && Next(s, ev, s') && !InTime(s, ev)
    ensures !Awake(s')
  {
    HandlerAlarm(s, ev.cur, ev.cur2, ev.ran, s');
    var t :| t in s.pending && s.pending[t].expire > ev.cur && s.pending[t].expire <= ev.cur2;
    assert t in s'.pending;
  }

  /** Main result on the alarm: over every run, the server is awake in every state if and only
      if every handler's second clock reading comes before every deadline it leaves. */
  lemma AwakeExactlyInTime<T>(start: int, ss: seq<Server<T>>, evs: seq<Event<T>>)
    requires Run(ss, evs) && ss[0] == Initial(start)
    ensures (forall n :: 0 <= n <= |evs| ==> Awake(ss[n])) <==> (forall i :: 0 <= i < |evs| ==> InTime(ss[i], evs[i]))
  {
    hide Next, Awake, InTime, OneAlarm;
    if forall i :: 0 <= i < |evs| ==> InTime(ss[i], evs[i]) {
      forall n | 0 <= n <= |evs|
        ensures Awake(ss[n])
      {
        RunStaysAwake(start, ss, evs, n);
      }
    } else {
      var i :| 0 <= i < |evs| && !InTime(ss[i], evs[i]);
      RunHasOneAlarm(start, ss, evs, i);
      LateHandlerSleeps(ss[i], evs[i], ss[i + 1]);
    }
  }

  /** The same with every notion spelled out. */
  lemma AwakeInPlain<T>(start: int, ss: seq<Server<T>>, evs: seq<Event<T>>)
    requires Run(ss, evs) && ss[0] == Initial(start)
    ensures
      (forall n :: 0 <= n <= |evs| ==>
         || ss[n].timeout || ss[n].queued
         || (ss[n].armed.Some? && forall t :: t in ss[n].pending ==> ss[n].armed.value <= ss[n].pending[t].expire))
      <==>
      (forall i :: 0 <= i < |evs| && evs[i].Handle? ==>
         forall t :: t in ss[i].pending && ss[i].pending[t].expire > evs[i].cur ==> ss[i].pending[t].expire > evs[i].cur2)
  {
    AwakeExactlyInTime(start, ss, evs);
    assert forall n :: 0 <= n <= |evs| ==> (Awake(ss[n]) <==>
         || ss[n].timeout || ss[n].queued
         || (ss[n].armed.Some? && forall t :: t in ss[n].pending ==> ss[n].armed.value <= ss[n].pending[t].expire));
    assert forall i :: 0 <= i < |evs| ==> (InTime(ss[i], evs[i]) <==> (evs[i].Handle? ==>
         forall t :: t in ss[i].pending && ss[i].pending[t].expire > evs[i].cur ==> ss[i].pending[t].expire > evs[i].cur2));
    hide Awake, InTime, Run;
  }

  // ---------- a run that falls asleep ----------

  ghost function SleepyEvents(): seq<Event<int>> {
    [Accept(7, 0, 0), Accept(8, 1, 1), AlarmRings(1), ReadSignals, Handle(1, 1, []),
     AlarmRings(15), ReadSignals, Handle(15, 16, [0])]
  }

  /** Two connections, accepted at 0 and at 1. */
  ghost function BothOpen(armed: Option<int>, now: int): Server<int> {
    Server(map[0 := Entry(15, true), 1 := Entry(16, true)], map[0 := 7, 1 := 8], map[7 := 0, 8 := 1],
           map[0 := 0, 1 := 1], [], armed, false, false, now)
  }

  ghost function SleepyState(i: nat): Server<int> {
    match i
    case 0 => Initial(0)
    case 1 => Server(map[0 := Entry(15, true)], map[0 := 7], map[7 := 0], map[0 := 0], [], Some(1), false, false, 0)
    case 2 => BothOpen(Some(1), 1)
    case 3 => BothOpen(None, 1).(queued := true)
    case 4 => BothOpen(None, 1).(timeout := true)
    case 5 => BothOpen(Some(15), 1)
    case 6 => BothOpen(None, 15).(queued := true)
    case 7 => BothOpen(None, 15).(timeout := true)
    case _ =>
      BothOpen(None, 16).(pending := map[1 := Entry(16, true)], conn := map[8 := 1], closings := [Closing(0, Expired, 15)])
  }

  ghost function SleepyStates(): seq<Server<int>> {
    seq(9, i requires 0 <= i < 9 => SleepyState(i))
  }

  lemma FirstHandler()
    ensures Next(SleepyState(4), Handle(1, 1, []), SleepyState(5))
  {
    var s, s', ran: seq<int> := SleepyState(4), SleepyState(5), [];
    assert Unexpired(s.pending, 1) == s.pending;
    assert (map fd | fd in s.conn && s.conn[fd] !in ran :: s.conn[fd]) == s.conn;
    assert s.closings + Expirings(ran, 1) == s.closings;
    assert Earliest(s'.pending, 0) && s'.armed == Alarm(1, s'.pending[0].expire - 1);
  }

  /** What the tick at 15 leaves: the first connection is closed. */
  lemma LateEffect()
    ensures Unexpired(BothOpen(None, 15).pending, 15) == map[1 := Entry(16, true)]
    ensures var c := BothOpen(None, 15).conn; (map fd | fd in c && c[fd] !in [0] :: c[fd]) == map[8 := 1]
    ensures Expirings([0], 15) == [Closing(0, Expired, 15)]
    ensures Fires(BothOpen(None, 15).pending, 15, [0])
  {
  }

  lemma LateHandler()
    ensures Next(SleepyState(7), Handle(15, 16, [0]), SleepyState(8))
  {
    hide Unexpired, Expirings, Fires;
    LateEffect();
    var s, s' := SleepyState(7), SleepyState(8);
    assert s.closings + Expirings([0], 15) == s'.closings;
    assert Earliest(s'.pending, 1) && s'.armed == Alarm(16, s'.pending[1].expire - 16);
  }

  lemma SleepyStep(i: nat)
    requires i < 8
    ensures Next(SleepyState(i), SleepyEvents()[i], SleepyState(i + 1))
  {
    if i == 4 {
      FirstHandler();
      hide Next;
    } else if i == 7 {
      LateHandler();
      hide Next;
    } else {
      assert SleepyState(i + 1) == Effect(SleepyState(i), SleepyEvents()[i]);
    }
  }

  /** A clock that moves on inside the handler can put the server to sleep for good, although
      every alarm is served at once. Connections are accepted at 0 and at 1; the alarm for the
      first rings at 15, the tick reads 15 and the re-arming 16: the alarm is cancelled, and
      nothing will ever close the second connection. */
  lemma HandlerMaySleepForever()
    ensures Run(SleepyStates(), SleepyEvents()) && SleepyStates()[0] == Initial(0)
    ensures Asleep(SleepyStates()[8]) && !Awake(SleepyStates()[8]) && 8 in SleepyStates()[8].conn
  {
    hide Next;
    forall i | 0 <= i < 8
      ensures Next(SleepyStates()[i], SleepyEvents()[i], SleepyStates()[i + 1])
    {
      SleepyStep(i);
    }
  }

  /** No alarm pending and none delivered. */
  ghost predicate Asleep<T>(s: Server<T>) {
    s.armed.None? && !s.queued && !s.timeout
  }

  /** Once asleep, the server never runs its timer handler again. */
  lemma {:induction false} AsleepForGood<T>(ss: seq<Server<T>>, evs: seq<Event<T>>, n: nat)
    requires Run(ss, evs) && Asleep(ss[0]) && n <= |evs|
    ensures Asleep(ss[n]) && forall i :: 0 <= i < n ==> !evs[i].Handle?
  {
    if n > 0 {
      AsleepForGood(ss, evs, n - 1);
      assert Next(ss[n - 1], evs[n - 1], ss[n]);
    }
  }
}

/** timer/time_wheel_timer.h: sixty slots of doubly linked timers, each with a rotation count. */
module TimeWheelTimer {
  import opened Lists
  import opened WheelSpec

  const N := 60
  const SI := 1

  class TwTimer {
    var rotation: int   // full turns left before the timer is due
    const timeSlot: int // never reassigned in the source
    var user: int       // the connection `user_data` points to
    var next: TwTimer?
    var prev: TwTimer?
    ghost const born: nat // the wheel's count of earlier additions

    constructor (rot: int, ts: int, ghost born: nat)
      ensures next == null && prev == null && rotation == rot && timeSlot == ts && this.born == born
    {
      rotation, timeSlot, next, prev := rot, ts, null, null;
      this.born := born;
    }
  }

  ghost function At(list: seq<TwTimer>, i: int): TwTimer? {
    if 0 <= i < |list| then list[i] else null
  }

  /** `list` is the doubly linked list that starts at `head`. */
  ghost predicate Chain(head: TwTimer?, list: seq<TwTimer>)
    reads list`next, list`prev
  {
    && head == At(list, 0)
    && (forall i {:trigger list[i].next} :: 0 <= i < |list| ==> list[i].next == At(list, i + 1))
    && (forall i {:trigger list[i].prev} :: 0 <= i < |list| ==> list[i].prev == At(list, i - 1))
  }

  /** Strictly newest first, so also without repetition. */
  ghost predicate NewestFirst(list: seq<TwTimer>) {
    forall i, j :: 0 <= i < j < |list| ==> list[i].born > list[j].born
  }

  ghost predicate InSlot(list: seq<TwTimer>, s: int, timers: set<TwTimer>, births: nat) {
    && NewestFirst(list)
    && forall t :: t in list ==> t in timers && t.timeSlot == s && t.born < births
  }

  /** Every timer is filed once, in the list of its own slot. */
  ghost predicate Filed(lists: seq<seq<TwTimer>>, timers: set<TwTimer>, births: nat) {
    && |lists| == N
    && (forall s :: 0 <= s < N ==> InSlot(lists[s], s, timers, births))
    && (forall t :: t in timers ==> 0 <= t.timeSlot < N && t in lists[t.timeSlot])
  }

  lemma FiledAdd(lists: seq<seq<TwTimer>>, timers: set<TwTimer>, births: nat, timer: TwTimer)
    requires Filed(lists, timers, births) && 0 <= timer.timeSlot < N && timer.born == births
    ensures Filed(lists[timer.timeSlot := [timer] + lists[timer.timeSlot]], timers + {timer}, births + 1)
  {
    var ts := timer.timeSlot;
    var list := [timer] + lists[ts];
    assert InSlot(lists[ts], ts, timers, births);
    assert forall i :: 1 <= i < |list| ==> list[i] == lists[ts][i - 1] && list[i] in lists[ts];
    assert forall t :: t in list ==> t == timer || t in lists[ts];
    assert forall t :: t in lists[ts] ==> t in list;
    forall s | 0 <= s < N && s != ts
      ensures InSlot(lists[s], s, timers + {timer}, births + 1)
    {
      assert InSlot(lists[s], s, timers, births);
    }
  }

  lemma WithoutNewest(list: seq<TwTimer>, k: nat)
    requires NewestFirst(list) && k < |list|
    ensures NewestFirst(Without(list, k))
    ensures forall t :: t in Without(list, k) <==> t in list && t != list[k]
  {
    WithoutElements(list, k);
    var rest := Without(list, k);
    assert forall i :: 0 <= i < |rest| ==> rest[i] == list[if i < k then i else i + 1];
  }

  lemma FiledRemove(lists: seq<seq<TwTimer>>, timers: set<TwTimer>, births: nat, timer: TwTimer, k: nat)
    requires Filed(lists, timers, births) && timer in timers
    requires k < |lists[timer.timeSlot]| && lists[timer.timeSlot][k] == timer
    ensures Filed(lists[timer.timeSlot := Without(lists[timer.timeSlot], k)], timers - {timer}, births)
  {
    hide NewestFirst, Without;
    var ts := timer.timeSlot;
    assert InSlot(lists[ts], ts, timers, births);
    WithoutNewest(lists[ts], k);
    assert InSlot(Without(lists[ts], k), ts, timers - {timer}, births);
    forall s | 0 <= s < N && s != ts
      ensures InSlot(lists[s], s, timers - {timer}, births)
    {
      assert InSlot(lists[s], s, timers, births);
    }
  }

  lemma SplitAt(l: seq<TwTimer>, kept: seq<TwTimer>, list: seq<TwTimer>, k: nat)
    requires k < |list| && l == kept + list[k..]
    ensures |kept| < |l| && l[|kept|] == list[k] && At(l, |kept| + 1) == At(list, k + 1)
    ensures Without(l, |kept|) == kept + list[k + 1..]
    ensures l == kept + [list[k]] + list[k + 1..]
  {
    assert l[|kept| + 1..] == list[k + 1..];
  }

  /** The countdown a rotation count and a slot stand for, seen from slot `cur`. */
  function Left(rotation: int, slot: int, cur: int): int {
    rotation * N + (slot - cur) % N
  }

  /** `add_timer` files a timer so that it stands for exactly the ticks asked for. */
  lemma Placement(ticks: nat, cur: int)
    requires 0 <= cur < N
    ensures 0 <= (cur + ticks % N) % N < N
    ensures Left(ticks / N, (cur + ticks % N) % N, cur) == ticks
  {
  }

  /** One tick: the current slot's rotations drop, and every slot comes one nearer. */
  lemma TickArithmetic(rotation: nat, slot: int, cur: int)
    requires 0 <= cur < N && 0 <= slot < N
    ensures Left(rotation, slot, cur) >= 0
    ensures Left(rotation, slot, cur) == 0 <==> slot == cur && rotation == 0
    ensures slot == cur ==> Left(rotation - 1, slot, (cur + 1) % N) == Left(rotation, slot, cur) - 1
    ensures slot != cur ==> Left(rotation, slot, (cur + 1) % N) == Left(rotation, slot, cur) - 1
  {
  }

  /** The countdowns of timers with rotation counts `rot`, seen from slot `cur`. */
  ghost function Countdowns(rot: map<TwTimer, int>, cur: int): map<TwTimer, int> {
    map t | t in rot :: Left(rot[t], t.timeSlot, cur)
  }

  lemma CountdownsAdd(rot: map<TwTimer, int>, t: TwTimer, r: int, cur: int)
    ensures Countdowns(rot[t := r], cur) == Countdowns(rot, cur)[t := Left(r, t.timeSlot, cur)]
  {
  }

  lemma CountdownsRemove(rot: map<TwTimer, int>, t: TwTimer, cur: int)
    ensures Countdowns(rot - {t}, cur) == Countdowns(rot, cur) - {t}
  {
  }

  /** A tick has passed the first `k` timers of the slot's `list`: `all` were the rotation
      counts before it, `now` are those of the timers still pending, `ran` have fired. */
  ghost predicate Walked(all: map<TwTimer, int>, list: seq<TwTimer>, k: nat, now: map<TwTimer, int>, ran: seq<TwTimer>) {
    && k <= |list|
    && (forall t :: t in now ==> t in all && now[t] == all[t] - (if t in list[..k] then 1 else 0))
    && (forall t :: t in all ==> (t !in now <==> t in list[..k] && all[t] == 0))
    && (forall t :: t in list ==> t in all)
    && (forall t :: t in ran ==> t in list[..k] && all[t] == 0)
    && (forall t :: t in list[..k] && all[t] == 0 ==> t in ran)
    && NewestFirst(ran)
  }

  lemma WalkBegins(all: map<TwTimer, int>, list: seq<TwTimer>)
    requires forall t :: t in list ==> t in all
    ensures Walked(all, list, 0, all, [])
  {
  }

  lemma WalkStep(all: map<TwTimer, int>, list: seq<TwTimer>, k: nat, now: map<TwTimer, int>, ran: seq<TwTimer>)
    requires Walked(all, list, k, now, ran) && k < |list| && NewestFirst(list)
    ensures list[k] in now && now[list[k]] == all[list[k]]
    ensures all[list[k]] != 0 ==> Walked(all, list, k + 1, now[list[k] := now[list[k]] - 1], ran)
    ensures all[list[k]] == 0 ==> Walked(all, list, k + 1, now - {list[k]}, ran + [list[k]])
  {
    assert list[..k + 1] == list[..k] + [list[k]];
    assert forall t :: t in list[..k + 1] <==> t in list[..k] || t == list[k];
    assert forall i :: 0 <= i < k ==> list[..k][i] == list[i] && list[i].born > list[k].born;
    assert forall t :: t in list[..k] ==> t.born > list[k].born;
  }

  lemma WalkEnds(all: map<TwTimer, int>, list: seq<TwTimer>, now: map<TwTimer, int>, ran: seq<TwTimer>, cur: int)
    requires Walked(all, list, |list|, now, ran) && 0 <= cur < N
    requires forall t :: t in all ==> all[t] >= 0 && 0 <= t.timeSlot < N && (t.timeSlot == cur <==> t in list)
    ensures Countdowns(now, (cur + 1) % N) == Survivors(Countdowns(all, cur))
    ensures (set t | t in ran) == Due(Countdowns(all, cur)) && NewestFirst(ran)
  {
    assert list[..|list|] == list;
    forall t | t in all
      ensures t in now <==> Left(all[t], t.timeSlot, cur) > 0
      ensures t in now ==> Left(now[t], t.timeSlot, (cur + 1) % N) == Left(all[t], t.timeSlot, cur) - 1
      ensures t in ran <==> Left(all[t], t.timeSlot, cur) == 0
    {
      TickArithmetic(all[t], t.timeSlot, cur);
    }
  }

  /** What a tick does to every single timer. */
  lemma TickPinned(left: map<TwTimer, nat>, ran: seq<TwTimer>, now: map<TwTimer, nat>)
    requires now == Survivors(left) && (set t | t in ran) == Due(left) && NewestFirst(ran)
    ensures forall t :: t in ran <==> t in left && left[t] == 0
    ensures forall t :: t in now <==> t in left && t !in ran
    ensures forall t :: t in now ==> now[t] == left[t] - 1
    ensures forall i, j :: 0 <= i < j < |ran| ==> ran[i].born > ran[j].born
  {
    assert forall t: TwTimer :: t in ran <==> t in (set u | u in ran);
    assert forall t: TwTimer :: t in Due(left) <==> t in left && left[t] == 0;
  }

  /** One record for each tick: exactly the timers due at it, newest first. */
  ghost predicate Told(history: seq<Op<TwTimer>>, rounds: seq<seq<TwTimer>>) {
    var dues := Dues<TwTimer>(map[], history);
    && |rounds| == |dues|
    && forall k :: 0 <= k < |rounds| ==> NewestFirst(rounds[k]) && (set t | t in rounds[k]) == dues[k]
  }

  ghost function Concat(rounds: seq<seq<TwTimer>>): seq<TwTimer> {
    if rounds == [] then [] else Concat(rounds[..|rounds| - 1]) + rounds[|rounds| - 1]
  }

  lemma ToldOn(history: seq<Op<TwTimer>>, rounds: seq<seq<TwTimer>>, op: Op<TwTimer>, ran: seq<TwTimer>)
    requires Told(history, rounds)
    requires if op.Tick? then NewestFirst(ran) && (set t | t in ran) == Due(Run(map[], history)) else ran == []
    ensures var rounds' := if op.Tick? then rounds + [ran] else rounds;
      Told(history + [op], rounds') && Concat(rounds') == Concat(rounds) + ran
  {
    RunOn<TwTimer>(map[], history, op);
    hide Dues, Run, Due, NewestFirst;
    assert op.Tick? ==> (rounds + [ran])[..|rounds|] == rounds;
    assert Concat(rounds) + [] == Concat(rounds);
  }

  class TimeWheel {
    var slots: array<TwTimer?>
    var curSlot: int
    ghost var timers: set<TwTimer>
    ghost var lists: seq<seq<TwTimer>> // the list of each slot
    ghost var births: nat
    ghost var fired: seq<TwTimer>      // every callback run so far, in order
    ghost var history: seq<Op<TwTimer>>  // every call so far
    ghost var rounds: seq<seq<TwTimer>>  // the callbacks run by each tick

    ghost predicate Linked()
      requires Filed(lists, timers, births)
      reads `timers, `lists, `births, `slots, slots, timers`next, timers`prev
    {
      && slots.Length == N
      && forall s :: 0 <= s < N ==> InSlot(lists[s], s, timers, births) && Chain(slots[s], lists[s])
    }

    ghost predicate Shaped()
      reads `timers, `lists, `births, `slots, `curSlot, slots, timers`next, timers`prev, timers`rotation
    {
      && Filed(lists, timers, births)
      && Linked()
      && 0 <= curSlot < N
      && forall t :: t in timers ==> t.rotation >= 0
    }

    ghost function Rotations(): map<TwTimer, int>
      reads `timers, timers`rotation
    {
      map t | t in timers :: t.rotation
    }

    /** The ticks left before each timer fires. */
    ghost function Countdown(): map<TwTimer, nat>
      requires Shaped()
      reads `timers, `lists, `births, `slots, `curSlot, slots, timers`next, timers`prev, timers`rotation
    {
      Countdowns(Rotations(), curSlot)
    }

    /** The countdowns are those the calls so far lead to, and the callbacks those that fell due. */
    ghost predicate Valid()
      reads `timers, `lists, `births, `slots, `curSlot, slots, timers`next, timers`prev, timers`rotation
      reads `fired, `history, `rounds
    {
      && Shaped()
      && Countdown() == Run(map[], history)
      && Told(history, rounds)
      && fired == Concat(rounds)
    }

    /** A timer the wheel has added fires at exactly one later tick, the one asked for, unless
        it is deleted: so says the record of the callbacks this object has run. */
    lemma FiresOnce(before: seq<Op<TwTimer>>, t: TwTimer, ticks: nat, after: seq<Op<TwTimer>>)
      requires Valid() && history == before + [Add(t, ticks)] + after && LeavesAlone(after, t)
      ensures |rounds| == TickCount(history)
      ensures forall n :: TickCount(before) <= n < |rounds| ==> (t in rounds[n] <==> n == TickCount(before) + ticks)
    {
      hide Shaped, Dues, Concat, NewestFirst, LeavesAlone, Run;
      AddedFallsDueOnce<TwTimer>(map[], before, t, ticks, after);
      var dues := Dues<TwTimer>(map[], history);
      assert dues == Dues<TwTimer>(map[], before + [Add(t, ticks)] + after);
      assert forall n :: TickCount(before) <= n < |dues| ==> (t in dues[n] <==> n == TickCount(before) + ticks);
      forall n | TickCount(before) <= n < |rounds|
        ensures t in rounds[n] <==> n == TickCount(before) + ticks
      {
        assert t in rounds[n] <==> t in (set u | u in rounds[n]);
        assert t in dues[n] <==> n == TickCount(before) + ticks;
      }
    }

    /** In numbers, for a timer that `AddTimer(timeout)` returned: with n the timeout, or 1 when
        that is 0, it is called by the tick that follows n other ticks, and by no other. */
    lemma FiresAfterTimeout(before: seq<Op<TwTimer>>, t: TwTimer, timeout: nat, after: seq<Op<TwTimer>>)
      requires Valid() && forall op :: op in after ==> op.Tick? || op.timer != t
      requires history == before + [Add(t, if timeout == 0 then 1 else timeout)] + after
      ensures forall n :: TickCount(before) <= n < |rounds| ==>
        (t in rounds[n] <==> n == TickCount(before) + if timeout == 0 then 1 else timeout)
    {
      FiresOnce(before, t, if timeout == 0 then 1 else timeout, after);
    }

    /** A timer deleted before its tick is in no later record. */
    lemma NeverFires(before: seq<Op<TwTimer>>, t: TwTimer, ticks: nat, mid: seq<Op<TwTimer>>, after: seq<Op<TwTimer>>)
      requires Valid() && history == before + ([Add(t, ticks)] + mid + [Del(t)] + after)
      requires LeavesAlone(mid, t) && LeavesAlone(after, t) && TickCount(mid) <= ticks
      ensures forall n :: TickCount(before) <= n < |rounds| ==> t !in rounds[n]
    {
      hide Shaped, Dues, Concat, NewestFirst, LeavesAlone, Run;
      DeletedNeverFallsDue<TwTimer>(map[], before, t, ticks, mid, after);
      var dues := Dues<TwTimer>(map[], history);
      assert dues == Dues<TwTimer>(map[], before + ([Add(t, ticks)] + mid + [Del(t)] + after));
      forall n | TickCount(before) <= n < |rounds|
        ensures t !in rounds[n]
      {
        assert t in rounds[n] <==> t in (set u | u in rounds[n]);
        assert t !in dues[n];
      }
    }

    /** Records a call, with the callbacks it ran. */
    ghost method Note(op: Op<TwTimer>, ran: seq<TwTimer>)
      requires Shaped() && Countdown() == Step(Run(map[], history), op)
      requires Told(history, rounds) && fired == Concat(rounds) + ran
      requires if op.Tick? then NewestFirst(ran) && (set t | t in ran) == Due(Run(map[], history)) else ran == []
      modifies this`history, this`rounds
      ensures Valid() && history == old(history) + [op]
      ensures rounds == if op.Tick? then old(rounds) + [ran] else old(rounds)
    {
      hide Shaped, Told, Concat, Step, Due, Run, NewestFirst, Countdowns;
      RunOn<TwTimer>(map[], history, op);
      ToldOn(history, rounds, op, ran);
      history := history + [op];
      rounds := if op.Tick? then rounds + [ran] else rounds;
    }

    constructor ()
      ensures Valid() && fresh(slots)
      ensures timers == {} && fired == [] && history == [] && slots.Length == 60
    {
      curSlot := 0;
      slots := new TwTimer?[N](_ => null);
      timers, lists, births, fired := {}, seq(N, _ => []), 0, [];
      history, rounds := [], [];
    }

    /** A change that touches no node of the other slots leaves their lists alone. */
    twostate lemma OthersKept(ts: int)
      requires old(Filed(lists, timers, births) && Linked()) && 0 <= ts < N
      requires slots == old(slots)
      requires forall s :: 0 <= s < N && s != ts ==> slots[s] == old(slots[s])
      requires forall t :: t in old(timers) && t.timeSlot != ts ==> t.next == old(t.next) && t.prev == old(t.prev)
      ensures forall s :: 0 <= s < N && s != ts ==> Chain(slots[s], old(lists)[s])
    {
      forall s | 0 <= s < N && s != ts
        ensures Chain(slots[s], old(lists)[s])
      {
        assert InSlot(old(lists)[s], s, old(timers), old(births));
        assert old(Chain(slots[s], lists[s]));
        assert forall i :: 0 <= i < |old(lists)[s]| ==> old(lists)[s][i] in old(lists)[s];
      }
    }

    /** Puts `timer` in front of its slot's list. */
    method PushHead(timer: TwTimer, ghost list: seq<TwTimer>)
      requires 0 <= timer.timeSlot < slots.Length && Chain(slots[timer.timeSlot], list)
      requires timer !in list && timer.next == timer.prev == null
      requires Distinct(list)
      modifies slots, list`prev, timer`next
      ensures Chain(slots[timer.timeSlot], [timer] + list)
      ensures forall s :: 0 <= s < slots.Length && s != timer.timeSlot ==> slots[s] == old(slots[s])
    {
      var ts := timer.timeSlot;
      if slots[ts] == null {
        slots[ts] := timer;
      } else {
        timer.next := slots[ts];
        slots[ts].prev := timer;
        slots[ts] := timer;
      }
    }

    /** The new timer is filed at the head of its slot. */
    method Link(timer: TwTimer)
      requires Filed(lists, timers, births) && Linked()
      requires 0 <= timer.timeSlot < N && timer.born == births && timer.next == timer.prev == null
      requires timer !in timers
      modifies this`timers, this`lists, this`births, slots, timers`prev, timer`next
      ensures Filed(lists, timers, births) && Linked()
      ensures timers == old(timers) + {timer}
      ensures forall t :: t in old(timers) ==> timer.born > t.born
    {
      hide Chain;
      var ts := timer.timeSlot;
      ghost var list := lists[ts];
      assert InSlot(list, ts, timers, births) && Chain(slots[ts], list);
      FiledAdd(lists, timers, births, timer);
      PushHead(timer, list);
      OthersKept(ts);
      births := births + 1;
      timers := timers + {timer};
      lists := lists[ts := [timer] + list];
    }

    /** A negative timeout is refused. Otherwise the timer goes to the head of its slot, to count
        down from the timeout, or from 1 when that is 0. */
    method AddTimer(timeout: int) returns (timer: TwTimer?)
      requires Valid()
      modifies this`timers, this`lists, this`births, this`history, this`rounds, slots, timers`prev
      ensures Valid()
      ensures timer == null <==> timeout < 0
      ensures timer == null ==> timers == old(timers) && Countdown() == old(Countdown()) && history == old(history)
      ensures timer != null ==> history == old(history) + [Add(timer, if timeout == 0 then 1 else timeout)]
      ensures timer != null ==> fresh(timer) && timers == old(timers) + {timer}
      ensures timer != null ==> Countdown() == old(Countdown())[timer := if timeout == 0 then 1 else timeout]
      ensures timer != null ==> timer in Countdown() && Countdown()[timer] == if timeout == 0 then 1 else timeout
      ensures timer != null ==> forall t :: t in old(timers) ==> timer.born > t.born
    {
      hide Filed, Linked, Left, Countdowns;
      if timeout < 0 {
        return null;
      }
      var ticks := 0;
      if timeout < SI {
        ticks := 1;
      } else {
        ticks := timeout / SI;
      }
      var rotation := ticks / N;
      var ts := (curSlot + ticks % N) % N;
      Placement(ticks, curSlot);
      timer := new TwTimer(rotation, ts, births);
      Link(timer);
      CountdownsAdd(old(Rotations()), timer, rotation, curSlot);
      assert Rotations() == old(Rotations())[timer := rotation];
      Note(Add(timer, ticks), []);
    }

    /** Takes `timer` out of its slot's list: the statements del_timer (97-113) and tick
        (130-149) share. Returns the timer that followed it. */
    method Splice(timer: TwTimer, ghost list: seq<TwTimer>, ghost k: nat) returns (next: TwTimer?)
      requires 0 <= timer.timeSlot < slots.Length && Chain(slots[timer.timeSlot], list)
      requires k < |list| && list[k] == timer
      requires Distinct(list)
      modifies slots, list`next, list`prev
      ensures Chain(slots[timer.timeSlot], Without(list, k)) && next == At(list, k + 1)
      ensures forall s :: 0 <= s < slots.Length && s != timer.timeSlot ==> slots[s] == old(slots[s])
    {
      var ts := timer.timeSlot;
      if timer == slots[ts] {
        slots[ts] := timer.next;
        if slots[ts] != null {
          slots[ts].prev := null;
        }
        next := slots[ts];
      } else {
        timer.prev.next := timer.next;
        if timer.next != null {
          timer.next.prev := timer.prev;
        }
        next := timer.next;
      }
    }

    method Unlink(timer: TwTimer, ghost k: nat) returns (next: TwTimer?)
      requires Filed(lists, timers, births) && Linked()
      requires timer in timers && k < |lists[timer.timeSlot]| && lists[timer.timeSlot][k] == timer
      modifies this`timers, this`lists, slots, timers`next, timers`prev
      ensures Filed(lists, timers, births) && Linked()
      ensures timers == old(timers) - {timer}
      ensures lists == old(lists[timer.timeSlot := Without(lists[timer.timeSlot], k)])
      ensures next == At(old(lists[timer.timeSlot]), k + 1)
    {
      hide Chain, Without;
      var ts := timer.timeSlot;
      ghost var list := lists[ts];
      assert InSlot(list, ts, timers, births) && Chain(slots[ts], list);
      FiledRemove(lists, timers, births, timer, k);
      next := Splice(timer, list, k);
      OthersKept(ts);
      timers := timers - {timer};
      lists := lists[ts := Without(list, k)];
    }

    lemma Position(timer: TwTimer) returns (k: nat)
      requires Filed(lists, timers, births) && timer in timers
      ensures 0 <= timer.timeSlot < |lists| && k < |lists[timer.timeSlot]| && lists[timer.timeSlot][k] == timer
    {
      k :| 0 <= k < |lists[timer.timeSlot]| && lists[timer.timeSlot][k] == timer;
    }

    /** The caller passes null or a timer that is still in the wheel. */
    method DelTimer(timer: TwTimer?)
      requires Valid()
      requires timer != null ==> timer in timers
      modifies this`timers, this`lists, this`history, this`rounds, slots, timers`next, timers`prev
      ensures Valid()
      ensures timer == null ==> Countdown() == old(Countdown()) && history == old(history)
      ensures timer != null ==> history == old(history) + [Del(timer)]
      ensures timer != null ==> timers == old(timers) - {timer}
      ensures timer != null ==> Countdown() == old(Countdown()) - {timer}
    {
      hide Filed, Linked, Left, Countdowns;
      if timer == null {
        return;
      }
      ghost var k := Position(timer);
      var _ := Unlink(timer, k);
      CountdownsRemove(old(Rotations()), timer, curSlot);
      assert Rotations() == old(Rotations()) - {timer};
      Note(Del(timer), []);
    }

    /** The current slot's list is exactly the timers filed under it. */
    lemma CurrentList()
      requires Shaped()
      ensures 0 <= curSlot < |lists| == slots.Length == N && slots[curSlot] == At(lists[curSlot], 0)
      ensures NewestFirst(lists[curSlot])
      ensures forall t :: t in lists[curSlot] ==> t in Rotations()
      ensures forall t :: t in Rotations() ==>
        Rotations()[t] >= 0 && 0 <= t.timeSlot < N && (t.timeSlot == curSlot <==> t in lists[curSlot])
    {
      assert InSlot(lists[curSlot], curSlot, timers, births);
    }

    /** `tick` stands at position `k` of the slot's original `list`: the timers it passed and
        kept, followed by those still to come, make up the slot's list. */
    ghost predicate AtPoint(list: seq<TwTimer>, k: nat, kept: seq<TwTimer>, now: map<TwTimer, int>, tmp: TwTimer?)
      reads `timers, `lists, `births, `slots, `curSlot, slots, timers`next, timers`prev, timers`rotation
    {
      && Shaped()
      && k <= |list| && tmp == At(list, k)
      && lists[curSlot] == kept + list[k..]
      && now == Rotations()
    }

    lemma AtCursor(list: seq<TwTimer>, k: nat, kept: seq<TwTimer>, now: map<TwTimer, int>, tmp: TwTimer)
      requires AtPoint(list, k, kept, now, tmp)
      ensures k < |list| && list[k] == tmp && tmp in timers && tmp.timeSlot == curSlot < |lists|
      ensures now == Rotations() && now[tmp] == tmp.rotation >= 0
      ensures |kept| < |lists[curSlot]| && lists[curSlot][|kept|] == tmp
      ensures tmp.next == At(list, k + 1) == At(lists[curSlot], |kept| + 1)
      ensures Without(lists[curSlot], |kept|) == kept + list[k + 1..]
      ensures lists[curSlot] == kept + [tmp] + list[k + 1..]
    {
      var l := lists[curSlot];
      assert InSlot(l, curSlot, timers, births) && Chain(slots[curSlot], l);
      SplitAt(l, kept, list, k);
      hide Without;
      assert l[|kept|] in l;
    }

    /** A timer that needs more turns stays. */
    method PassBy(tmp: TwTimer, ghost list: seq<TwTimer>, ghost k: nat, ghost kept: seq<TwTimer>, ghost now: map<TwTimer, int>)
      returns (next: TwTimer?)
      requires AtPoint(list, k, kept, now, tmp) && tmp.rotation > 0
      modifies timers`rotation
      ensures tmp in timers && k < |list|
      ensures AtPoint(list, k + 1, kept + [tmp], now[tmp := now[tmp] - 1], next)
    {
      hide Filed, Linked;
      AtCursor(list, k, kept, now, tmp);
      tmp.rotation := tmp.rotation - 1;
      next := tmp.next;
    }

    /** A timer without turns left runs its callback and leaves. */
    method Fire(tmp: TwTimer, ghost list: seq<TwTimer>, ghost k: nat, ghost kept: seq<TwTimer>, ghost now: map<TwTimer, int>)
      returns (next: TwTimer?)
      requires AtPoint(list, k, kept, now, tmp)
      modifies this`timers, this`lists, this`fired, slots, timers`next, timers`prev
      ensures timers == old(timers) - {tmp} && k < |list| && fired == old(fired) + [tmp]
      ensures AtPoint(list, k + 1, kept, now - {tmp}, next)
    {
      hide Filed, Linked, Without;
      AtCursor(list, k, kept, now, tmp);
      fired := fired + [tmp];
      next := Unlink(tmp, |kept|);
    }

    /** The loop of `tick`: walks the current slot once, unlinking what it fires. */
    method WalkSlot() returns (ghost ran: seq<TwTimer>)
      requires Shaped()
      modifies this`timers, this`lists, this`fired, slots, timers`next, timers`prev, timers`rotation
      ensures Shaped() && fired == old(fired) + ran
      ensures Walked(old(Rotations()), old(lists[curSlot]), |old(lists[curSlot])|, Rotations(), ran)
    {
      hide Shaped, Filed, Linked, AtPoint, At, Without, Walked, NewestFirst, Rotations;
      CurrentList();
      var tmp := slots[curSlot];
      ghost var all: map<TwTimer, int> := Rotations();
      ghost var now: map<TwTimer, int> := all;
      ghost var list, k := lists[curSlot], 0;
      ghost var kept: seq<TwTimer> := [];
      ran := [];
      WalkBegins(all, list);
      AtStart();
      while tmp != null
        invariant AtPoint(list, k, kept, now, tmp)
        invariant timers <= old(timers)
        invariant Walked(all, list, k, now, ran)
        invariant fired == old(fired) + ran
        decreases |list| - k
      {
        AtCursor(list, k, kept, now, tmp);
        WalkStep(all, list, k, now, ran);
        ghost var passed: TwTimer := tmp;
        if tmp.rotation > 0 {
          tmp := PassBy(tmp, list, k, kept, now);
          now, kept := now[passed := now[passed] - 1], kept + [passed];
        } else {
          tmp := Fire(tmp, list, k, kept, now);
          now, ran := now - {passed}, ran + [passed];
        }
        k := k + 1;
      }
      AtEnd(list, k, kept, now);
    }

    /** Fires what is due in the current slot, newest first, then moves to the next slot. */
    method Tick() returns (ghost ran: seq<TwTimer>)
      requires Valid()
      modifies this`timers, this`lists, this`curSlot, this`fired, this`history, this`rounds
      modifies slots, timers`next, timers`prev, timers`rotation
      ensures Valid() && history == old(history) + [Op.Tick] && rounds == old(rounds) + [ran]
      ensures Countdown() == Step(old(Countdown()), Op.Tick)
      ensures fired == old(fired) + ran && NewestFirst(ran)
      ensures (set t | t in ran) == Due(old(Countdown()))
      ensures forall t :: t in old(timers) ==>
        && t in old(Countdown())
        && (t in ran <==> old(Countdown())[t] == 0)
        && (t in timers <==> t !in ran)
        && (t in timers ==> t in Countdown() && Countdown()[t] == old(Countdown())[t] - 1)
      ensures timers <= old(timers) && forall t :: t in ran ==> t in old(timers)
      ensures forall i, j :: 0 <= i < j < |ran| ==> ran[i].born > ran[j].born
    {
      hide Filed, Linked, Walked, NewestFirst, Left, Countdowns, Rotations;
      Counted();
      CurrentList();
      ran := WalkSlot();
      WalkEnds(old(Rotations()), old(lists[curSlot]), Rotations(), ran, curSlot);
      curSlot := (curSlot + 1) % N;
      Note(Op.Tick, ran);
      Counted();
      TickPinned(old(Countdown()), ran, Countdown());
    }

    lemma Counted()
      requires Shaped()
      ensures Countdown().Keys == timers
    {
    }

    lemma AtStart()
      requires Shaped()
      ensures |lists| == N && slots.Length == N
      ensures AtPoint(lists[curSlot], 0, [], Rotations(), slots[curSlot])
    {
      CurrentList();
    }

    lemma AtEnd(list: seq<TwTimer>, k: nat, kept: seq<TwTimer>, now: map<TwTimer, int>)
      requires AtPoint(list, k, kept, now, null)
      ensures Shaped() && k == |list| && now == Rotations()
    {
    }
  }
}

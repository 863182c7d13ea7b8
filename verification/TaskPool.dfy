/**
 The code of thread_pool/thread_pool.h on its own fields: what one thread does while no other
 thread runs, and that it is exactly the steps of the state machine in `ThreadPool`.
 */
module TaskPool {
  import opened Lists
  import opened Wrappers
  import opened ThreadPool

  /** The machine takes `steps`, one after the other, from `s` to `s'`. */
  ghost predicate Leads<T>(s: Pool<T>, steps: seq<Step<T>>, s': Pool<T>)
    decreases |steps|
  {
    if steps == [] then s' == s
    else Enabled(s, steps[0]) && Leads(Apply(s, steps[0]), steps[1..], s')
  }

  lemma {:induction false} LeadsOn<T>(s: Pool<T>, steps: seq<Step<T>>, s': Pool<T>, step: Step<T>)
    requires Leads(s, steps, s') && Enabled(s', step)
    ensures Leads(s, steps + [step], Apply(s', step))
    decreases |steps|
  {
    if steps != [] {
      LeadsOn(Apply(s, steps[0]), steps[1..], s', step);
      assert (steps + [step])[1..] == steps[1..] + [step];
    } else {
      assert (steps + [step])[1..] == [];
    }
  }

  /** The requests that are not null, in order. */
  ghost function NonNull<T>(s: seq<Request<T>>): seq<T> {
    if s == [] then [] else (if s[0].Some? then [s[0].value] else []) + NonNull(s[1..])
  }

  /** The calls of process() are those of the requests with the tickets that are done, one each. */
  ghost predicate Recorded<T>(s: Pool<T>, served: seq<T>, tickets: seq<nat>) {
    && |tickets| == |served| && Distinct(tickets)
    && (forall k :: k in tickets <==> k in s.done)
    && forall i :: 0 <= i < |served| ==> tickets[i] < |s.popped| && s.popped[tickets[i]] == Some(served[i])
  }

  lemma RecordedOn<T>(s: Pool<T>, step: Step<T>, served: seq<T>, tickets: seq<nat>)
    requires Inv(s) && Enabled(s, step) && Recorded(s, served, tickets)
    ensures !step.Finish? ==> Recorded(Apply(s, step), served, tickets)
    ensures step.Finish? ==>
      var w := s.workers[step.j]; Recorded(Apply(s, step), served + [w.task], tickets + [w.ticket])
  {
    DoneMoves(s, step);
    hide Inv, Enabled, Apply;
  }

  /** The indices of the requests that are not null: all of them, in order. */
  lemma {:induction false} NonNullPicks<T>(s: seq<Request<T>>) returns (idx: seq<nat>)
    ensures |idx| == |NonNull(s)|
    ensures forall i, j :: 0 <= i < j < |idx| ==> idx[i] < idx[j]
    ensures forall i :: 0 <= i < |idx| ==> idx[i] < |s| && s[idx[i]] == Some(NonNull(s)[i])
    ensures forall k :: 0 <= k < |s| && s[k].Some? ==> k in idx
    decreases |s|
  {
    if s == [] {
      idx := [];
    } else {
      var r, n := s[..|s| - 1], |s| - 1;
      idx := NonNullPicks(r);
      assert s == r + [s[n]];
      NonNullConcat(r, [s[n]]);
      assert NonNull([s[n]]) == if s[n].Some? then [s[n].value] else [] by {
        assert [s[n]][1..] == [];
      }
      assert forall k :: 0 <= k < n && s[k].Some? ==> r[k].Some? && k in idx;
      if s[n].Some? {
        idx := idx + [n];
      }
      hide NonNull;
    }
  }

  class TaskPool<T> {
    const maxRequests: int
    var workqueue: seq<Request<T>>
    var queuestat: nat           // the semaphore's counter
    var locked: bool             // whether somebody owns the mutex
    var stop: bool
    ghost const start: Pool<T>    // the machine's state at the beginning,
    ghost var steps: seq<Step<T>> // the steps taken since
    ghost var st: Pool<T>         // and where they led
    ghost var served: seq<T>      // the requests whose process() was called, in order,
    ghost var tickets: seq<nat>   // and their tickets

    /** The fields are those of the machine's state. */
    ghost predicate Mirrors()
      reads this
    {
      && maxRequests == st.max && workqueue == st.queue && queuestat == st.sem
      && (locked <==> st.lock.Some?) && stop == st.stop
    }

    ghost predicate Followed()
      reads `st, `steps, `served, `tickets
    {
      Inv(st) && Leads(start, steps, st) && Recorded(st, served, tickets)
    }

    ghost predicate Valid()
      reads this
    {
      Mirrors() && Followed()
    }

    /** The rest of the source's constructor, once its arguments are accepted. */
    constructor (threads: int, max: int, ghost callers: nat)
      requires threads > 0 && max > 0
      ensures Valid() && Create(threads, max, callers) == Some(st)
      ensures steps == [] && served == [] && workqueue == [] && queuestat == 0 && !locked && !stop && maxRequests == max
    {
      maxRequests, workqueue, queuestat, locked, stop := max, [], 0, false, false;
      start := Create<T>(threads, max, callers).value;
      st := Create<T>(threads, max, callers).value;
      steps, served, tickets := [], [], [];
      new;
      InitInv<T>(threads, max, callers);
    }

    /** The source's constructor throws unless both numbers are positive: null here. */
    static method Make(threads: int, max: int, ghost callers: nat) returns (pool: TaskPool?<T>)
      ensures pool == null <==> Create<T>(threads, max, callers).None?
      ensures pool == null <==> threads <= 0 || max <= 0
      ensures pool != null ==> fresh(pool) && pool.Valid() && Create(threads, max, callers) == Some(pool.st)
      ensures pool != null ==> pool.maxRequests == max && pool.workqueue == [] && pool.queuestat == 0
    {
      if threads <= 0 || max <= 0 {
        return null;
      }
      pool := new TaskPool<T>(threads, max, callers);
    }

    /** The machine follows. */
    ghost method Take(step: Step<T>)
      requires Followed() && Enabled(st, step) && !step.Finish?
      modifies this`st, this`steps
      ensures Followed() && st == Apply(old(st), step) && steps == old(steps) + [step]
    {
      hide Inv, Enabled, Apply, Recorded;
      InvKept(st, step);
      LeadsOn(start, steps, st, step);
      RecordedOn(st, step, served, tickets);
      st, steps := Apply(st, step), steps + [step];
    }

    /** Thread `i` calls append while nobody owns the mutex. */
    method Append(ghost i: nat, request: Request<T>) returns (ok: bool)
      requires Valid() && !locked && i < |st.appenders| && st.appenders[i].Idle?
      modifies this`workqueue, this`queuestat, this`locked, this`st, this`steps
      ensures Valid() && !locked
      ensures steps == old(steps) + [Call(i, request), LockA(i), TestSize(i)] + if ok then [Push(i), UnlockA(i), Post(i)] else [UnlockA(i)]
      ensures st.appenders == old(st.appenders) && st.workers == old(st.workers)
      ensures ok <==> |old(workqueue)| <= maxRequests
      ensures workqueue == old(workqueue) + (if ok then [request] else [])
      ensures queuestat == old(queuestat) + (if ok then 1 else 0)
    {
      hide Inv, Leads, Recorded;
      Take(Call(i, request));
      locked := true;
      Take(LockA(i));
      Take(TestSize(i));
      if |workqueue| > maxRequests {
        locked := false;
        Take(UnlockA(i));
        return false;
      }
      PushAndPost(i, request);
      return true;
    }

    /** Pushes an admitted request, gives up the mutex and posts a token. */
    method PushAndPost(ghost i: nat, request: Request<T>)
      requires Valid() && i < |st.appenders| && st.appenders[i] == Admitted(request)
      modifies this`workqueue, this`queuestat, this`locked, this`st, this`steps
      ensures Valid() && !locked && steps == old(steps) + [Push(i), UnlockA(i), Post(i)]
      ensures st.appenders == old(st.appenders)[i := Idle] && st.workers == old(st.workers)
      ensures workqueue == old(workqueue) + [request] && queuestat == old(queuestat) + 1
    {
      hide Inv, Leads, Recorded;
      PushAndUnlock(i, request);
      queuestat := queuestat + 1;
      Take(Post(i));
    }

    method PushAndUnlock(ghost i: nat, request: Request<T>)
      requires Valid() && i < |st.appenders| && st.appenders[i] == Admitted(request)
      modifies this`workqueue, this`locked, this`st, this`steps
      ensures Valid() && !locked && steps == old(steps) + [Push(i), UnlockA(i)]
      ensures st.appenders == old(st.appenders)[i := Unlocked] && st.workers == old(st.workers)
      ensures workqueue == old(workqueue) + [request]
    {
      hide Inv, Leads, Recorded;
      workqueue := workqueue + [request];
      Take(Push(i));
      locked := false;
      Take(UnlockA(i));
    }

    /** A token stands for a queued request. */
    lemma TokensQueued()
      requires Valid()
      ensures queuestat <= |workqueue|
    {
    }

    /** Takes a token and, under the mutex, the front request. */
    method Fetch(ghost j: nat) returns (request: Request<T>)
      requires Valid() && !locked && queuestat > 0 && j < |st.workers| && st.workers[j].Waiting?
      modifies this`workqueue, this`queuestat, this`locked, this`st, this`steps
      ensures Valid() && !locked && steps == old(steps) + [Wait(j), LockW(j), Pop(j), UnlockW(j)]
      ensures old(workqueue) == [request] + workqueue && queuestat == old(queuestat) - 1
      ensures |st.workers| == |old(st.workers)|
      ensures st.workers[j] == if request.Some? then Serving(request.value, |old(st.popped)|) else Looping
    {
      hide Inv, Leads, Recorded;
      queuestat := queuestat - 1;
      Take(Wait(j));
      locked := true;
      Take(LockW(j));
      request := PopFront(j);
    }

    lemma WorkFound(j: nat)
      requires Valid() && j < |st.workers| && st.workers[j].Inside?
      ensures workqueue != []
    {
      WokenFindsWork(st, j);
    }

    /** Pops the front request and gives up the mutex; the branch for an empty queue is dead. */
    method PopFront(ghost j: nat) returns (request: Request<T>)
      requires Valid() && locked && j < |st.workers| && st.workers[j].Inside?
      modifies this`workqueue, this`locked, this`st, this`steps
      ensures Valid() && !locked && steps == old(steps) + [Pop(j), UnlockW(j)]
      ensures old(workqueue) == [request] + workqueue
      ensures |st.workers| == |old(st.workers)|
      ensures st.workers[j] == if request.Some? then Serving(request.value, |old(st.popped)|) else Looping
    {
      hide Inv, Leads, Recorded;
      WorkFound(j);
      if workqueue == [] {
        assert false;
      }
      request := workqueue[0];
      workqueue := workqueue[1..];
      Take(Pop(j));
      locked := false;
      Take(UnlockW(j));
    }

    /** The test of `m_stop` before the next round. */
    ghost method Poll(j: nat)
      requires Valid() && !locked && j < |st.workers| && st.workers[j].Looping?
      modifies this`st, this`steps
      ensures Valid() && |st.workers| == |old(st.workers)|
      ensures st.workers[j] == if stop then Exited else Waiting
    {
      hide Inv, Leads, Recorded;
      Take(TestStop(j));
    }

    /** `request->process()` */
    method Serve(ghost j: nat, ghost task: T)
      requires Valid() && j < |st.workers| && st.workers[j].Serving? && st.workers[j].task == task
      modifies this`st, this`steps, this`served, this`tickets
      ensures Valid() && served == old(served) + [task] && tickets == old(tickets) + [old(st.workers)[j].ticket]
      ensures steps == old(steps) + [Finish(j)]
      ensures |st.workers| == |old(st.workers)| && st.workers[j] == Looping
    {
      hide Inv, Leads, Recorded;
      InvKept(st, Finish(j));
      LeadsOn(start, steps, st, Finish(j));
      RecordedOn(st, Finish(j), served, tickets);
      served, tickets := served + [task], tickets + [st.workers[j].ticket];
      st, steps := Apply(st, Finish(j)), steps + [Finish(j)];
    }

    /** One round of the worker's loop, once a token is there. */
    method Round(ghost j: nat)
      requires Valid() && !locked && queuestat > 0 && j < |st.workers| && st.workers[j].Waiting?
      modifies this`workqueue, this`queuestat, this`locked, this`st, this`steps, this`served, this`tickets
      ensures Valid() && !locked && queuestat == old(queuestat) - 1
      ensures |st.workers| == |old(st.workers)| && st.workers[j] == Looping
      ensures old(workqueue) != [] && workqueue == old(workqueue)[1..]
      ensures served == old(served) + NonNull([old(workqueue)[0]])
      ensures old(workqueue)[0] == None ==> served == old(served)
      ensures old(workqueue)[0].Some? ==> served == old(served) + [old(workqueue)[0].value]
    {
      hide Inv, Followed;
      var request := Fetch(j);
      assert old(workqueue)[0] == request && old(workqueue)[1..] == workqueue;
      if request.Some? {
        Serve(j, request.value);
      }
    }

    /** Once around the worker's loop: it ends when the pool is stopped and blocks without a token. */
    method Turn(ghost j: nat) returns (goesOn: bool)
      requires Valid() && !locked && j < |st.workers| && st.workers[j].Looping?
      modifies this`workqueue, this`queuestat, this`locked, this`st, this`steps, this`served, this`tickets
      ensures Valid() && !locked && goesOn == (!stop && old(queuestat) > 0)
      ensures goesOn ==>
        && |st.workers| == |old(st.workers)| && st.workers[j].Looping? && queuestat == old(queuestat) - 1
        && old(workqueue) != [] && workqueue == old(workqueue)[1..]
        && served == old(served) + NonNull([old(workqueue)[0]])
        && (old(workqueue)[0] == None ==> served == old(served))
        && (old(workqueue)[0].Some? ==> served == old(served) + [old(workqueue)[0].value])
      ensures !goesOn ==> workqueue == old(workqueue) && queuestat == old(queuestat) && served == old(served)
    {
      hide Valid, NonNull;
      Poll(j);
      if stop {
        return false;
      }
      if queuestat == 0 {
        return false; // blocks in wait()
      }
      Round(j);
      return true;
    }

    /** Worker `j` runs alone until it waits for a token or the pool is stopped. It has served the
        requests at `idx`: all that are not null among those a token stood for, in order. */
    method Run(ghost j: nat) returns (ghost idx: seq<nat>)
      requires Valid() && !locked && j < |st.workers| && st.workers[j].Looping?
      modifies this`workqueue, this`queuestat, this`locked, this`st, this`steps, this`served, this`tickets
      ensures Valid() && !locked
      ensures old(stop) ==> workqueue == old(workqueue) && served == old(served) && queuestat == old(queuestat)
      ensures old(queuestat) <= |old(workqueue)|
      ensures !old(stop) ==>
        && queuestat == 0 && workqueue == old(workqueue)[old(queuestat)..]
        && served == old(served) + NonNull(old(workqueue)[..old(queuestat)])
      ensures !old(stop) ==>
        && |served| == |old(served)| + |idx| && old(served) <= served
        && (forall i, k :: 0 <= i < k < |idx| ==> idx[i] < idx[k])
        && (forall i :: 0 <= i < |idx| ==>
              idx[i] < old(queuestat) && old(workqueue)[idx[i]] == Some(served[|old(served)| + i]))
        && (forall k :: 0 <= k < old(queuestat) && old(workqueue)[k].Some? ==> k in idx)
    {
      hide Valid, NonNull;
      ghost var was := workqueue[..if queuestat <= |workqueue| then queuestat else 0];
      idx := NonNullPicks(was);
      RunOn(j);
    }

    /** The loop of run. */
    method RunOn(ghost j: nat)
      requires Valid() && !locked && j < |st.workers| && st.workers[j].Looping?
      modifies this`workqueue, this`queuestat, this`locked, this`st, this`steps, this`served, this`tickets
      ensures Valid() && !locked
      ensures old(stop) ==> workqueue == old(workqueue) && served == old(served) && queuestat == old(queuestat)
      ensures old(queuestat) <= |old(workqueue)|
      ensures !old(stop) ==>
        && queuestat == 0 && workqueue == old(workqueue)[old(queuestat)..]
        && served == old(served) + NonNull(old(workqueue)[..old(queuestat)])
    {
      TokensQueued();
      hide Valid, NonNull;
      ghost var was, n, k, before := workqueue, queuestat, 0, served;
      NothingServed(served);
      while true
        invariant Valid() && !locked && j < |st.workers| && st.workers[j].Looping?
        invariant stop == old(stop) && (stop ==> k == 0)
        invariant 0 <= k <= n <= |was| && queuestat == n - k && workqueue == was[k..]
        invariant served == before + NonNull(was[..k])
        decreases queuestat
      {
        var goesOn := Turn(j);
        if !goesOn {
          break;
        }
        OneMoreServed(before, was, k);
        k := k + 1;
      }
    }
  }

  lemma NothingServed<T>(served: seq<T>)
    ensures served + NonNull([]) == served
  {
  }

  lemma NonNullUnfolds<T>(s: seq<Request<T>>)
    requires s != []
    ensures NonNull(s) == NonNull([s[0]]) + NonNull(s[1..])
  {
    assert [s[0]][1..] == [];
  }

  lemma {:induction false} NonNullConcat<T>(a: seq<Request<T>>, b: seq<Request<T>>)
    ensures NonNull(a + b) == NonNull(a) + NonNull(b)
    decreases |a|
  {
    if a == [] {
      assert a + b == b;
    } else {
      hide NonNull;
      assert (a + b)[1..] == a[1..] + b && (a + b)[0] == a[0];
      NonNullUnfolds(a);
      NonNullUnfolds(a + b);
      NonNullConcat(a[1..], b);
      ConcatAssoc(NonNull([a[0]]), NonNull(a[1..]), NonNull(b));
    }
  }

  lemma OneMoreServed<T>(served: seq<T>, s: seq<Request<T>>, k: nat)
    requires k < |s|
    ensures s[k..] != [] && s[k..][0] == s[k] && s[k..][1..] == s[k + 1..]
    ensures (served + NonNull(s[..k])) + NonNull([s[k]]) == served + NonNull(s[..k + 1])
  {
    hide NonNull;
    assert s[..k + 1] == s[..k] + [s[k]];
    NonNullConcat(s[..k], [s[k]]);
    ConcatAssoc(served, NonNull(s[..k]), NonNull([s[k]]));
  }
}

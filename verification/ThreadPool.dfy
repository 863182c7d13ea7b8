/**
 thread_pool/thread_pool.h: a bounded queue between any number of callers of `append` and a
 fixed number of workers, as an interleaving of atomic steps over the mutex and the counting
 semaphore of multi_thread/locker.h. A request is a possibly null pointer.
 */
module ThreadPool {
  import opened Lists
  import opened Wrappers
  import opened Sums

  type Request<T> = Option<T>

  /** Where a thread stands inside `append`. */
  datatype Appender<T> =
    | Idle
    | Ready(req: Request<T>)    // has called append
    | Entered(req: Request<T>)  // holds the mutex
    | Admitted(req: Request<T>) // holds the mutex, found room
    | Refused                   // holds the mutex, found no room
    | Pushed                    // holds the mutex, has pushed
    | Unlocked                  // has still to post

  /** Where a worker stands inside `run`. `ticket` counts accepted requests. */
  datatype Worker<T> =
    | Looping
    | Waiting
    | Woken                                     // wait has returned
    | Inside                                    // holds the mutex
    | EmptyHanded                               // holds the mutex, found the queue empty
    | Taken(req: Request<T>, ticket: nat)       // holds the mutex, has popped
    | Serving(task: T, ticket: nat)             // runs process()
    | Exited

  datatype Thread = App(i: nat) | Work(j: nat)

  datatype Pool<T> = Pool(
    max: nat,
    queue: seq<Request<T>>,
    sem: nat,
    lock: Option<Thread>,
    stop: bool,
    appenders: seq<Appender<T>>,
    workers: seq<Worker<T>>,
    accepted: seq<Request<T>>, // every request pushed so far
    popped: seq<Request<T>>,   // every request popped so far
    done: set<nat>)            // the tickets whose process() has returned

  datatype Step<T> =
    | Call(i: nat, req: Request<T>) | LockA(i: nat) | TestSize(i: nat) | Push(i: nat) | UnlockA(i: nat) | Post(i: nat)
    | TestStop(j: nat) | Wait(j: nat) | LockW(j: nat) | Pop(j: nat) | UnlockW(j: nat) | Finish(j: nat)
    | Stop

  /** The constructor: it throws unless both numbers are positive. */
  function Create<T>(threads: int, max: int, callers: nat): (r: Option<Pool<T>>) {
    if threads <= 0 || max <= 0 then None
    else Some(Pool(max, [], 0, None, false, seq(callers, _ => Idle), seq(threads, _ => Looping), [], [], {}))
  }

  predicate OfAppender<T>(step: Step<T>) {
    step.Call? || step.LockA? || step.TestSize? || step.Push? || step.UnlockA? || step.Post?
  }

  ghost predicate Enabled<T>(s: Pool<T>, step: Step<T>) {
    match step
    case Call(i, _) => i < |s.appenders| && s.appenders[i].Idle?
    case LockA(i) => i < |s.appenders| && s.appenders[i].Ready? && s.lock.None?
    case TestSize(i) => i < |s.appenders| && s.appenders[i].Entered?
    case Push(i) => i < |s.appenders| && s.appenders[i].Admitted?
    case UnlockA(i) => i < |s.appenders| && (s.appenders[i].Pushed? || s.appenders[i].Refused?)
    case Post(i) => i < |s.appenders| && s.appenders[i].Unlocked?
    case TestStop(j) => j < |s.workers| && s.workers[j].Looping?
    case Wait(j) => j < |s.workers| && s.workers[j].Waiting? && s.sem > 0
    case LockW(j) => j < |s.workers| && s.workers[j].Woken? && s.lock.None?
    case Pop(j) => j < |s.workers| && s.workers[j].Inside?
    case UnlockW(j) => j < |s.workers| && (s.workers[j].EmptyHanded? || s.workers[j].Taken?)
    case Finish(j) => j < |s.workers| && s.workers[j].Serving?
    case Stop => true
  }

  ghost function SetA<T>(s: Pool<T>, i: nat, a: Appender<T>): Pool<T>
    requires i < |s.appenders|
  {
    s.(appenders := s.appenders[i := a])
  }

  ghost function SetW<T>(s: Pool<T>, j: nat, w: Worker<T>): Pool<T>
    requires j < |s.workers|
  {
    s.(workers := s.workers[j := w])
  }

  ghost function Apply<T>(s: Pool<T>, step: Step<T>): Pool<T>
    requires Enabled(s, step)
  {
    match step
    case Call(i, req) => SetA(s, i, Ready(req))
    case LockA(i) => SetA(s, i, Entered(s.appenders[i].req)).(lock := Some(App(i)))
    case TestSize(i) =>
      if |s.queue| > s.max then SetA(s, i, Refused) else SetA(s, i, Admitted(s.appenders[i].req))
    case Push(i) =>
      var req := s.appenders[i].req;
      SetA(s, i, Pushed).(queue := s.queue + [req], accepted := s.accepted + [req])
    case UnlockA(i) =>
      SetA(s, i, if s.appenders[i].Pushed? then Unlocked else Idle).(lock := None)
    case Post(i) => SetA(s, i, Idle).(sem := s.sem + 1)
    case TestStop(j) => SetW(s, j, if s.stop then Exited else Waiting)
    case Wait(j) => SetW(s, j, Woken).(sem := s.sem - 1)
    case LockW(j) => SetW(s, j, Inside).(lock := Some(Work(j)))
    case Pop(j) =>
      if s.queue == [] then SetW(s, j, EmptyHanded)
      else SetW(s, j, Taken(s.queue[0], |s.popped|)).(queue := s.queue[1..], popped := s.popped + [s.queue[0]])
    case UnlockW(j) =>
      var w := s.workers[j];
      SetW(s, j, if w.Taken? && w.req.Some? then Serving(w.req.value, w.ticket) else Looping).(lock := None)
    case Finish(j) => SetW(s, j, Looping).(done := s.done + {s.workers[j].ticket})
    case Stop => s.(stop := true)
  }

  // ---------- mutual exclusion ----------

  predicate HoldsA<T>(a: Appender<T>) {
    a.Entered? || a.Admitted? || a.Refused? || a.Pushed?
  }

  predicate HoldsW<T>(w: Worker<T>) {
    w.Inside? || w.EmptyHanded? || w.Taken?
  }

  ghost predicate Exclusive<T>(s: Pool<T>) {
    && (forall i :: 0 <= i < |s.appenders| ==> (HoldsA(s.appenders[i]) <==> s.lock == Some(App(i))))
    && (forall j :: 0 <= j < |s.workers| ==> (HoldsW(s.workers[j]) <==> s.lock == Some(Work(j))))
    && (s.lock.Some? ==>
          if s.lock.value.App? then s.lock.value.i < |s.appenders| else s.lock.value.j < |s.workers|)
  }

  // ---------- tokens ----------

  function BeforePost<T>(a: Appender<T>): nat {
    if a.Pushed? || a.Unlocked? then 1 else 0
  }

  function PastWait<T>(w: Worker<T>): nat {
    if w.Woken? || w.Inside? then 1 else 0
  }

  ghost function SumA<T>(f: Appender<T> -> nat, s: seq<Appender<T>>): nat {
    Sum(seq(|s|, i requires 0 <= i < |s| => f(s[i])))
  }

  ghost function SumW<T>(f: Worker<T> -> nat, s: seq<Worker<T>>): nat {
    Sum(seq(|s|, i requires 0 <= i < |s| => f(s[i])))
  }

  lemma SumAUpdate<T>(f: Appender<T> -> nat, s: seq<Appender<T>>, i: nat, a: Appender<T>)
    requires i < |s|
    ensures SumA(f, s[i := a]) + f(s[i]) == SumA(f, s) + f(a)
  {
    var v := seq(|s|, k requires 0 <= k < |s| => f(s[k]));
    SumUpdate(v, i, f(a));
    assert v[i := f(a)] == seq(|s[i := a]|, k requires 0 <= k < |s[i := a]| => f(s[i := a][k]));
  }

  lemma SumWUpdate<T>(f: Worker<T> -> nat, s: seq<Worker<T>>, j: nat, w: Worker<T>)
    requires j < |s|
    ensures SumW(f, s[j := w]) + f(s[j]) == SumW(f, s) + f(w)
  {
    var v := seq(|s|, k requires 0 <= k < |s| => f(s[k]));
    SumUpdate(v, j, f(w));
    assert v[j := f(w)] == seq(|s[j := w]|, k requires 0 <= k < |s[j := w]| => f(s[j := w][k]));
  }

  lemma NoTokens<T>(workers: seq<Worker<T>>, appenders: seq<Appender<T>>)
    requires forall j :: 0 <= j < |workers| ==> PastWait(workers[j]) == 0
    requires forall i :: 0 <= i < |appenders| ==> BeforePost(appenders[i]) == 0
    ensures SumW(PastWait, workers) == 0 && SumA(BeforePost, appenders) == 0
  {
    var f: Worker<T> -> nat, g: Appender<T> -> nat := PastWait, BeforePost;
    SumZero(seq(|workers|, i requires 0 <= i < |workers| => f(workers[i])));
    SumZero(seq(|appenders|, i requires 0 <= i < |appenders| => g(appenders[i])));
  }

  lemma SumWAtLeast<T>(f: Worker<T> -> nat, s: seq<Worker<T>>, j: nat)
    requires j < |s|
    ensures f(s[j]) <= SumW(f, s)
  {
    SumAtLeast(seq(|s|, k requires 0 <= k < |s| => f(s[k])), j);
  }

  /** Every queued request is matched by a token, by a woken worker that has not popped yet, or
      by an appender that has not posted yet. */
  ghost predicate Tokens<T>(s: Pool<T>) {
    |s.queue| == s.sem + SumW(PastWait, s.workers) + SumA(BeforePost, s.appenders)
  }

  // ---------- first in, first out ----------

  ghost predicate Fifo<T>(s: Pool<T>) {
    && s.accepted == s.popped + s.queue
    && |s.queue| <= s.max + 1
    && (forall i :: 0 <= i < |s.appenders| && s.appenders[i].Admitted? ==> |s.queue| <= s.max)
  }

  // ---------- one worker for each request ----------

  ghost predicate Holds<T>(s: Pool<T>, j: int, ticket: nat) {
    && 0 <= j < |s.workers|
    && (s.workers[j].Taken? || s.workers[j].Serving?)
    && s.workers[j].ticket == ticket
  }

  ghost predicate Tickets<T>(s: Pool<T>) {
    && (forall j, k: nat :: Holds(s, j, k) ==>
          && k < |s.popped| && k !in s.done
          && s.popped[k] == (if s.workers[j].Taken? then s.workers[j].req else Some(s.workers[j].task)))
    && (forall i, j, k: nat :: Holds(s, i, k) && Holds(s, j, k) ==> i == j)
    && (forall k :: k in s.done ==> k < |s.popped| && s.popped[k].Some?)
    && (forall k: nat :: k < |s.popped| && s.popped[k].Some? && k !in s.done ==> exists j :: Holds(s, j, k))
  }

  /** No worker is ever inside with an empty queue. */
  ghost predicate NeverEmptyHanded<T>(s: Pool<T>) {
    forall j :: 0 <= j < |s.workers| ==> !s.workers[j].EmptyHanded?
  }

  ghost predicate Inv<T>(s: Pool<T>) {
    Exclusive(s) && Tokens(s) && Fifo(s) && Tickets(s) && NeverEmptyHanded(s) && (ExitedOnlyStopped(s))
  }

  ghost predicate ExitedOnlyStopped<T>(s: Pool<T>) {
    forall j :: 0 <= j < |s.workers| && s.workers[j].Exited? ==> s.stop
  }

  lemma ExclusiveKept<T>(s: Pool<T>, step: Step<T>)
    requires Exclusive(s) && Enabled(s, step)
    ensures Exclusive(Apply(s, step))
  {
    var s' := Apply(s, step);
    if OfAppender(step) {
      assert s'.workers == s.workers;
      assert forall k :: 0 <= k < |s.appenders| && k != step.i ==> s'.appenders[k] == s.appenders[k];
    } else if !step.Stop? {
      assert s'.appenders == s.appenders;
      assert forall k :: 0 <= k < |s.workers| && k != step.j ==> s'.workers[k] == s.workers[k];
    }
  }

  lemma TokensKept<T>(s: Pool<T>, step: Step<T>)
    requires Tokens(s) && Enabled(s, step)
    ensures Tokens(Apply(s, step))
  {
    hide SumA, SumW;
    var s' := Apply(s, step);
    if step.Pop? {
      WokenFindsWork(s, step.j);
    }
    if OfAppender(step) {
      SumAUpdate(BeforePost, s.appenders, step.i, s'.appenders[step.i]);
    } else if !step.Stop? {
      SumWUpdate(PastWait, s.workers, step.j, s'.workers[step.j]);
    }
  }

  /** A woken worker finds the queue non-empty: the branch at lines 103-107 is dead. */
  lemma WokenFindsWork<T>(s: Pool<T>, j: nat)
    requires Tokens(s) && j < |s.workers| && (s.workers[j].Woken? || s.workers[j].Inside?)
    ensures s.queue != []
  {
    SumWAtLeast(PastWait, s.workers, j);
  }

  lemma FifoKept<T>(s: Pool<T>, step: Step<T>)
    requires Exclusive(s) && Fifo(s) && Enabled(s, step)
    ensures Fifo(Apply(s, step))
  {
  }

  /** Steps that neither take nor give up a request. */
  lemma TicketsSame<T>(s: Pool<T>, s': Pool<T>)
    requires Tickets(s) && s'.popped == s.popped && s'.done == s.done && |s'.workers| == |s.workers|
    requires forall j :: 0 <= j < |s.workers| ==>
      s'.workers[j] == s.workers[j] || (!Busy(s.workers[j]) && !Busy(s'.workers[j]))
    ensures Tickets(s')
  {
    assert forall j, k: nat :: Holds(s', j, k) <==> Holds(s, j, k);
  }

  predicate Busy<T>(w: Worker<T>) {
    w.Taken? || w.Serving?
  }

  lemma TicketsPop<T>(s: Pool<T>, j: nat)
    requires Tickets(s) && Enabled(s, Pop(j)) && s.queue != []
    ensures Tickets(Apply(s, Pop(j)))
  {
    var s', n := Apply(s, Pop(j)), |s.popped|;
    assert forall i, k: nat :: Holds(s', i, k) <==> Holds(s, i, k) || (i == j && k == n);
    assert Holds(s', j, n);
  }

  lemma TicketsUnlock<T>(s: Pool<T>, j: nat)
    requires Tickets(s) && Enabled(s, UnlockW(j)) && s.workers[j].Taken?
    ensures Tickets(Apply(s, UnlockW(j)))
  {
    var s', w := Apply(s, UnlockW(j)), s.workers[j];
    assert Holds(s, j, w.ticket);
    if w.req.Some? {
      assert forall i, k: nat :: Holds(s', i, k) <==> Holds(s, i, k);
    } else {
      assert forall i, k: nat :: Holds(s', i, k) <==> Holds(s, i, k) && i != j;
    }
  }

  lemma TicketsFinish<T>(s: Pool<T>, j: nat)
    requires Tickets(s) && Enabled(s, Finish(j))
    ensures Tickets(Apply(s, Finish(j)))
  {
    var s' := Apply(s, Finish(j));
    assert Holds(s, j, s.workers[j].ticket);
    assert forall i, k: nat :: Holds(s', i, k) <==> Holds(s, i, k) && i != j;
  }

  lemma TicketsKept<T>(s: Pool<T>, step: Step<T>)
    requires Tickets(s) && Enabled(s, step)
    ensures Tickets(Apply(s, step))
  {
    hide Tickets;
    if step.Pop? && s.queue != [] {
      TicketsPop(s, step.j);
    } else if step.UnlockW? && s.workers[step.j].Taken? {
      TicketsUnlock(s, step.j);
    } else if step.Finish? {
      TicketsFinish(s, step.j);
    } else {
      TicketsSame(s, Apply(s, step));
    }
  }

  /** A request counts as done exactly when a worker that holds it under its ticket finishes
      process(); nothing that was popped is ever forgotten. */
  lemma DoneMoves<T>(s: Pool<T>, step: Step<T>)
    requires Inv(s) && Enabled(s, step)
    ensures s.popped <= Apply(s, step).popped && s.accepted <= Apply(s, step).accepted
    ensures !step.Finish? ==> Apply(s, step).done == s.done
    ensures step.Finish? ==>
      var w := s.workers[step.j];
      && w.Serving? && w.ticket !in s.done && w.ticket < |s.popped| && s.popped[w.ticket] == Some(w.task)
      && Apply(s, step).done == s.done + {w.ticket}
  {
    if step.Finish? {
      assert Holds(s, step.j, s.workers[step.j].ticket);
    }
  }

  lemma InvKept<T>(s: Pool<T>, step: Step<T>)
    requires Inv(s) && Enabled(s, step)
    ensures Inv(Apply(s, step))
  {
    ExclusiveKept(s, step);
    TokensKept(s, step);
    FifoKept(s, step);
    TicketsKept(s, step);
    if step.Pop? {
      WokenFindsWork(s, step.j);
    }
    hide Exclusive, Tokens, Fifo, Tickets;
  }

  lemma InitInv<T>(threads: int, max: int, callers: nat)
    ensures Create<T>(threads, max, callers).Some? <==> threads > 0 && max > 0
    ensures Create<T>(threads, max, callers).Some? ==> Inv(Create<T>(threads, max, callers).value)
    ensures Create<T>(threads, max, callers).Some? ==>
      var s := Create<T>(threads, max, callers).value;
      && s.max == max && s.queue == [] && s.sem == 0 && s.lock == None && !s.stop
      && |s.workers| == threads && (forall j :: 0 <= j < threads ==> s.workers[j] == Looping)
      && |s.appenders| == callers && (forall i :: 0 <= i < callers ==> s.appenders[i] == Idle)
      && s.accepted == s.popped == [] && s.done == {}
  {
    if threads > 0 && max > 0 {
      var s := Create<T>(threads, max, callers).value;
      NoTokens(s.workers, s.appenders);
    }
  }

  ghost predicate Run<T>(ss: seq<Pool<T>>, steps: seq<Step<T>>) {
    && |ss| == |steps| + 1
    && forall i :: 0 <= i < |steps| ==> Enabled(ss[i], steps[i]) && ss[i + 1] == Apply(ss[i], steps[i])
  }

  /** In every interleaving of any number of callers and workers: mutual exclusion, the token
      count, first in first out, the bound, and one worker for each request. */
  lemma {:induction false} RunKeepsInv<T>(threads: int, max: int, callers: nat, ss: seq<Pool<T>>, steps: seq<Step<T>>, n: nat)
    requires Run(ss, steps) && Create(threads, max, callers) == Some(ss[0]) && n <= |steps|
    ensures Inv(ss[n])
  {
    if n == 0 {
      InitInv<T>(threads, max, callers);
    } else {
      RunKeepsInv(threads, max, callers, ss, steps, n - 1);
      InvKept(ss[n - 1], steps[n - 1]);
    }
  }

  lemma RunExtends<T>(ss: seq<Pool<T>>, steps: seq<Step<T>>, step: Step<T>)
    requires Run(ss, steps) && Enabled(ss[|steps|], step)
    ensures Run(ss + [Apply(ss[|steps|], step)], steps + [step])
  {
  }

  /** Six steps in which caller 0 gets one more request in. */
  ghost function OneAppend<T>(): seq<Step<T>> {
    [Call(0, None), LockA(0), TestSize(0), Push(0), UnlockA(0), Post(0)]
  }

  lemma {:induction false} RunsOn<T>(ss: seq<Pool<T>>, steps: seq<Step<T>>, n: nat) returns (ss': seq<Pool<T>>, steps': seq<Step<T>>)
    requires Run(ss, steps) && n <= 6
    requires var s := ss[|steps|]; |s.appenders| > 0 && s.appenders[0].Idle? && s.lock.None? && |s.queue| <= s.max
    ensures Run(ss', steps') && ss'[0] == ss[0] && |steps'| == |steps| + n
    ensures var s, s' := ss[|steps|], ss'[|steps'|];
      && s'.max == s.max && |s'.appenders| == |s.appenders|
      && |s'.queue| == |s.queue| + (if n >= 4 then 1 else 0)
      && s'.lock == (if 2 <= n <= 4 then Some(App(0)) else None)
      && s'.appenders[0] ==
           [Idle, Ready(None), Entered(None), Admitted(None), Pushed, Unlocked, Idle][n]
    decreases n
  {
    if n == 0 {
      ss', steps' := ss, steps;
    } else {
      ss', steps' := RunsOn(ss, steps, n - 1);
      var s := ss'[|steps'|];
      RunExtends(ss', steps', OneAppend()[n - 1]);
      ss', steps' := ss' + [Apply(s, OneAppend()[n - 1])], steps' + [OneAppend()[n - 1]];
    }
  }

  /** The bound is exact: the queue does reach one more than `max`, the argument's name
      notwithstanding, and every shorter length. */
  lemma {:induction false} BoundIsReached<T>(threads: int, max: int, callers: nat, k: nat)
    returns (ss: seq<Pool<T>>, steps: seq<Step<T>>)
    requires threads > 0 && max > 0 && callers > 0 && k <= max + 1
    ensures Run(ss, steps) && Create(threads, max, callers) == Some(ss[0])
    ensures var s := ss[|steps|];
      |s.queue| == k && s.max == max && s.lock.None? && |s.appenders| == callers && s.appenders[0].Idle?
    decreases k
  {
    if k == 0 {
      ss, steps := [Create(threads, max, callers).value], [];
    } else {
      ss, steps := BoundIsReached(threads, max, callers, k - 1);
      ss, steps := RunsOn(ss, steps, 6);
    }
  }

  lemma {:induction false} SameMax<T>(ss: seq<Pool<T>>, steps: seq<Step<T>>, n: nat)
    requires Run(ss, steps) && n <= |steps|
    ensures ss[n].max == ss[0].max
  {
    if n > 0 {
      SameMax(ss, steps, n - 1);
      assert Apply(ss[n - 1], steps[n - 1]).max == ss[n - 1].max;
    }
  }

  lemma SumWCounts<T>(f: Worker<T> -> nat, s: seq<Worker<T>>)
    requires forall j :: 0 <= j < |s| ==> f(s[j]) <= 1
    ensures SumW(f, s) == |set j: nat | j < |s| && f(s[j]) == 1|
  {
    var v := seq(|s|, j requires 0 <= j < |s| => f(s[j]));
    SumCounts(v);
    assert Ones(v) == set j: nat | j < |s| && f(s[j]) == 1;
  }

  lemma SumACounts<T>(f: Appender<T> -> nat, s: seq<Appender<T>>)
    requires forall i :: 0 <= i < |s| ==> f(s[i]) <= 1
    ensures SumA(f, s) == |set i: nat | i < |s| && f(s[i]) == 1|
  {
    var v := seq(|s|, i requires 0 <= i < |s| => f(s[i]));
    SumCounts(v);
    assert Ones(v) == set i: nat | i < |s| && f(s[i]) == 1;
  }

  lemma CountsInPlain<T>(s: Pool<T>)
    ensures SumW(PastWait, s.workers) == |set j: nat | j < |s.workers| && (s.workers[j].Woken? || s.workers[j].Inside?)|
    ensures SumA(BeforePost, s.appenders) == |set i: nat | i < |s.appenders| && (s.appenders[i].Pushed? || s.appenders[i].Unlocked?)|
  {
    var f: Worker<T> -> nat, g: Appender<T> -> nat := PastWait, BeforePost;
    SumWCounts(f, s.workers);
    SumACounts(g, s.appenders);
    assert (set j: nat | j < |s.workers| && f(s.workers[j]) == 1) ==
           set j: nat | j < |s.workers| && (s.workers[j].Woken? || s.workers[j].Inside?);
    assert (set i: nat | i < |s.appenders| && g(s.appenders[i]) == 1) ==
           set i: nat | i < |s.appenders| && (s.appenders[i].Pushed? || s.appenders[i].Unlocked?);
  }

  /** What every reachable state keeps, thread by thread. */
  lemma ReachableInPlain<T>(threads: int, max: int, callers: nat, ss: seq<Pool<T>>, steps: seq<Step<T>>, n: nat)
    requires Run(ss, steps) && Create(threads, max, callers) == Some(ss[0]) && n <= |steps|
    ensures ss[n].accepted == ss[n].popped + ss[n].queue && |ss[n].queue| <= max + 1
    ensures |ss[n].queue| == ss[n].sem
      + |set j: nat | j < |ss[n].workers| && (ss[n].workers[j].Woken? || ss[n].workers[j].Inside?)|
      + |set i: nat | i < |ss[n].appenders| && (ss[n].appenders[i].Pushed? || ss[n].appenders[i].Unlocked?)|
    ensures forall j :: 0 <= j < |ss[n].workers| ==>
      var w := ss[n].workers[j];
      && !w.EmptyHanded?
      && (w.Woken? || w.Inside? ==> ss[n].queue != [])
      && (w.Inside? || w.Taken? <==> ss[n].lock == Some(Work(j)))
      && (w.Taken? || w.Serving? ==>
            && w.ticket < |ss[n].popped| && w.ticket !in ss[n].done
            && ss[n].popped[w.ticket] == if w.Taken? then w.req else Some(w.task))
    ensures forall i :: 0 <= i < |ss[n].appenders| ==>
      var a := ss[n].appenders[i];
      (a.Entered? || a.Admitted? || a.Refused? || a.Pushed? <==> ss[n].lock == Some(App(i)))
    ensures forall i, j :: 0 <= i < j < |ss[n].workers| ==>
      var w, w' := ss[n].workers[i], ss[n].workers[j];
      (w.Taken? || w.Serving?) && (w'.Taken? || w'.Serving?) ==> w.ticket != w'.ticket
  {
    var s := ss[n];
    RunKeepsInv(threads, max, callers, ss, steps, n);
    SameMax(ss, steps, n);
    InitInv<T>(threads, max, callers);
    CountsInPlain(s);
    PlainWorkers(s);
    hide Inv;
  }

  lemma PlainWorkers<T>(s: Pool<T>)
    requires Inv(s)
    ensures s.accepted == s.popped + s.queue && |s.queue| <= s.max + 1
    ensures |s.queue| == s.sem + SumW(PastWait, s.workers) + SumA(BeforePost, s.appenders)
    ensures forall j :: 0 <= j < |s.workers| ==>
      var w := s.workers[j];
      && !w.EmptyHanded?
      && (w.Woken? || w.Inside? ==> s.queue != [])
      && (w.Inside? || w.Taken? <==> s.lock == Some(Work(j)))
      && (w.Taken? || w.Serving? ==>
            && w.ticket < |s.popped| && w.ticket !in s.done
            && s.popped[w.ticket] == if w.Taken? then w.req else Some(w.task))
    ensures forall i :: 0 <= i < |s.appenders| ==>
      var a := s.appenders[i];
      (a.Entered? || a.Admitted? || a.Refused? || a.Pushed? <==> s.lock == Some(App(i)))
    ensures forall i, j :: 0 <= i < j < |s.workers| ==>
      var w, w' := s.workers[i], s.workers[j];
      (w.Taken? || w.Serving?) && (w'.Taken? || w'.Serving?) ==> w.ticket != w'.ticket
  {
    forall j | 0 <= j < |s.workers|
      ensures s.workers[j].Woken? || s.workers[j].Inside? ==> s.queue != []
      ensures s.workers[j].Taken? || s.workers[j].Serving? ==> Holds(s, j, s.workers[j].ticket)
    {
      if s.workers[j].Woken? || s.workers[j].Inside? {
        WokenFindsWork(s, j);
      }
    }
    hide Tokens;
  }

  // ---------- progress ----------

  function RankA<T>(a: Appender<T>): nat {
    match a
    case Idle => 0
    case Ready(_) => 11
    case Entered(_) => 10
    case Admitted(_) => 9
    case Pushed => 8
    case Unlocked => 7
    case Refused => 1
  }

  function RankW<T>(w: Worker<T>): nat {
    match w
    case Waiting => 0
    case Exited => 0
    case Looping => 1
    case Serving(_, _) => 2
    case Taken(_, _) => 3
    case EmptyHanded => 3
    case Inside => 4
    case Woken => 5
  }

  /** What is left to do while nobody calls append. */
  ghost function Remaining<T>(s: Pool<T>): nat {
    6 * s.sem + SumW(RankW, s.workers) + SumA(RankA, s.appenders)
  }

  lemma StepWorks<T>(s: Pool<T>, step: Step<T>)
    requires Enabled(s, step) && !step.Call? && !step.Stop?
    ensures Remaining(Apply(s, step)) < Remaining(s)
  {
    hide SumA, SumW;
    var s' := Apply(s, step);
    if OfAppender(step) {
      SumAUpdate(RankA, s.appenders, step.i, s'.appenders[step.i]);
    } else {
      SumWUpdate(RankW, s.workers, step.j, s'.workers[step.j]);
    }
  }

  /** Without new calls, every run ends: it has at most Remaining(ss[0]) steps. */
  lemma {:induction false} RunEnds<T>(ss: seq<Pool<T>>, steps: seq<Step<T>>, n: nat)
    requires Run(ss, steps) && n <= |steps|
    requires forall i :: 0 <= i < |steps| ==> !steps[i].Call? && !steps[i].Stop?
    ensures n + Remaining(ss[n]) <= Remaining(ss[0])
  {
    if n > 0 {
      RunEnds(ss, steps, n - 1);
      StepWorks(ss[n - 1], steps[n - 1]);
    }
  }

  /** Nothing can move but a new call. */
  ghost predicate Quiet<T(!new)>(s: Pool<T>) {
    forall step: Step<T> :: !step.Call? && !step.Stop? ==> !Enabled(s, step)
  }

  /** No lost wake-up: when nothing can move any more, every accepted request has been popped
      and every non-null one processed; all callers have returned and all workers wait. */
  lemma QuietIsDone<T(!new)>(s: Pool<T>)
    requires Inv(s) && !s.stop && |s.workers| > 0 && Quiet(s)
    ensures s.queue == [] && s.popped == s.accepted && s.sem == 0 && s.lock.None?
    ensures forall k: nat :: k < |s.accepted| && s.accepted[k].Some? ==> k in s.done
    ensures forall i :: 0 <= i < |s.appenders| ==> s.appenders[i].Idle?
    ensures forall j :: 0 <= j < |s.workers| ==> s.workers[j].Waiting?
  {
    if s.lock.Some? {
      var step := HolderMoves(s);
      assert false;
    }
    forall i | 0 <= i < |s.appenders|
      ensures s.appenders[i].Idle?
    {
      assert !Enabled(s, LockA(i)) && !Enabled(s, Post(i)) && !HoldsA(s.appenders[i]);
    }
    forall j | 0 <= j < |s.workers|
      ensures s.workers[j].Waiting?
    {
      assert !Enabled(s, TestStop(j)) && !Enabled(s, LockW(j)) && !Enabled(s, Finish(j)) && !HoldsW(s.workers[j]);
    }
    assert !Enabled(s, Wait(0));
    NoTokens(s.workers, s.appenders);
    assert forall j, k: nat :: !Holds(s, j, k);
  }

  /** Whoever holds the mutex can go on. */
  lemma HolderMoves<T>(s: Pool<T>) returns (step: Step<T>)
    requires Exclusive(s) && s.lock.Some?
    ensures Enabled(s, step) && !step.Call? && !step.Stop?
  {
    match s.lock.value
    case App(i) =>
      var a := s.appenders[i];
      step := if a.Entered? then TestSize(i) else if a.Admitted? then Push(i) else UnlockA(i);
    case Work(j) =>
      step := if s.workers[j].Inside? then Pop(j) else UnlockW(j);
  }

  /** While requests are queued something can move. */
  lemma QueueIsServed<T(!new)>(s: Pool<T>)
    requires Inv(s) && !s.stop && |s.workers| > 0 && s.queue != []
    ensures exists step: Step<T> :: !step.Call? && !step.Stop? && Enabled(s, step)
  {
    if Quiet(s) {
      QuietIsDone(s);
    }
  }

  /** A run from `s` without new calls, up to a state where nothing else can move. */
  ghost predicate Finishes<T(!new)>(s: Pool<T>, ss: seq<Pool<T>>, steps: seq<Step<T>>) {
    && Run(ss, steps) && ss[0] == s
    && (forall i :: 0 <= i < |steps| ==> !steps[i].Call? && !steps[i].Stop?)
    && Quiet(ss[|steps|])
  }

  lemma RunPrepends<T>(s: Pool<T>, step: Step<T>, ss: seq<Pool<T>>, steps: seq<Step<T>>)
    requires Run(ss, steps) && Enabled(s, step) && ss[0] == Apply(s, step)
    ensures Run([s] + ss, [step] + steps)
  {
  }

  /** There always is such a run: work goes on until everything is at rest. */
  lemma {:induction false} SomeRunFinishes<T(!new)>(s: Pool<T>)
    ensures exists ss, steps :: Finishes(s, ss, steps)
    decreases Remaining(s)
  {
    hide Enabled, Apply, Remaining;
    if Quiet(s) {
      assert Finishes(s, [s], []);
    } else {
      var step: Step<T> :| !step.Call? && !step.Stop? && Enabled(s, step);
      StepWorks(s, step);
      SomeRunFinishes(Apply(s, step));
      var ss, steps :| Finishes(Apply(s, step), ss, steps);
      RunPrepends(s, step, ss, steps);
      assert ([s] + ss)[|[step] + steps|] == ss[|steps|];
      assert Finishes(s, [s] + ss, [step] + steps);
    }
  }

  lemma StepOfWork<T>(s: Pool<T>, step: Step<T>)
    requires Enabled(s, step)
    ensures var s' := Apply(s, step);
      s.accepted <= s'.accepted && |s'.workers| == |s.workers| && (s'.stop <==> s.stop || step.Stop?)
  {
  }

  /** What a run without calls or stops leaves alone. */
  lemma {:induction false} RunOfWork<T>(ss: seq<Pool<T>>, steps: seq<Step<T>>, n: nat)
    requires Run(ss, steps) && Inv(ss[0]) && n <= |steps|
    requires forall i :: 0 <= i < |steps| ==> !steps[i].Call? && !steps[i].Stop?
    ensures Inv(ss[n]) && ss[n].stop == ss[0].stop && |ss[n].workers| == |ss[0].workers|
    ensures ss[0].accepted <= ss[n].accepted
  {
    hide Inv, Enabled, Apply;
    if n > 0 {
      RunOfWork(ss, steps, n - 1);
      InvKept(ss[n - 1], steps[n - 1]);
      StepOfWork(ss[n - 1], steps[n - 1]);
      PrefixOfPrefix(ss[0].accepted, ss[n - 1].accepted, ss[n].accepted);
    }
  }

  /** Every accepted request has been popped, and every one that is not null processed. */
  ghost predicate AllServed<T>(s: Pool<T>) {
    && s.queue == [] && s.popped == s.accepted
    && forall k: nat :: k < |s.accepted| && s.accepted[k].Some? ==> k in s.done
  }

  /** However the steps interleave, a run without new calls ends in time, with everything
      served that was accepted before or during it. */
  lemma FinishedRunServes<T(!new)>(s: Pool<T>, ss: seq<Pool<T>>, steps: seq<Step<T>>)
    requires Inv(s) && !s.stop && |s.workers| > 0 && Finishes(s, ss, steps)
    ensures AllServed(ss[|steps|]) && s.accepted <= ss[|steps|].accepted
    ensures |steps| <= Remaining(s)
  {
    hide Inv, Quiet;
    RunOfWork(ss, steps, |steps|);
    QuietIsDone(ss[|steps|]);
    RunEnds(ss, steps, |steps|);
  }

  lemma {:induction false} SameWorkers<T>(ss: seq<Pool<T>>, steps: seq<Step<T>>, n: nat)
    requires Run(ss, steps) && n <= |steps|
    ensures |ss[n].workers| == |ss[0].workers|
  {
    if n > 0 {
      hide Enabled, Apply;
      SameWorkers(ss, steps, n - 1);
      StepOfWork(ss[n - 1], steps[n - 1]);
    }
  }

  /** Main result on progress: from every reachable state that is not stopped, work without new
      calls can finish, and wherever it cannot go on, everything accepted has been served. */
  lemma EveryRequestServed<T(!new)>(threads: int, max: int, callers: nat, ss: seq<Pool<T>>, steps: seq<Step<T>>, n: nat)
    requires Run(ss, steps) && Create(threads, max, callers) == Some(ss[0]) && n <= |steps| && !ss[n].stop
    ensures exists ss': seq<Pool<T>>, steps': seq<Step<T>> :: Finishes(ss[n], ss', steps')
    ensures forall ss': seq<Pool<T>>, steps': seq<Step<T>> :: Finishes(ss[n], ss', steps') ==>
      AllServed(ss'[|steps'|]) && ss[n].accepted <= ss'[|steps'|].accepted && |steps'| <= Remaining(ss[n])
    ensures forall ss': seq<Pool<T>>, steps': seq<Step<T>> :: Finishes(ss[n], ss', steps') ==>
      var s' := ss'[|steps'|];
      s'.queue == [] && s'.popped == s'.accepted && forall k: nat :: k < |s'.accepted| && s'.accepted[k].Some? ==> k in s'.done
  {
    SameWorkers(ss, steps, n);
    hide Inv, Remaining;
    RunKeepsInv(threads, max, callers, ss, steps, n);
    SomeRunFinishes(ss[n]);
    forall ss': seq<Pool<T>>, steps': seq<Step<T>> | Finishes(ss[n], ss', steps')
      ensures AllServed(ss'[|steps'|]) && ss[n].accepted <= ss'[|steps'|].accepted && |steps'| <= Remaining(ss[n])
    {
      FinishedRunServes(ss[n], ss', steps');
    }
  }
}
